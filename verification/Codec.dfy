/** The binary codec: base-128 integers, and the encodings built from them for slices,
    arrays, options, results, tuples and vectors. */
module Codec {
  import opened Wrappers
  import opened Octets

  /** The most bytes the integer decoder looks at. */
  const WORST_CASE_SIZE: nat := 10

  /** A type that can be encoded. Tuples are nested pairs; `Int` is any of the unsigned
      integers of 16, 32 and 64 bits. */
  datatype Schema =
    | Unit | Bool | U8
    | Int(bits: nat)
    | Slice
    | Array(elem: Schema, len: nat)
    | Opt(some: Schema)
    | Res(ok: Schema, err: Schema)
    | Pair(first: Schema, second: Schema)
    | Vec(item: Schema)

  datatype Value =
    | Nothing
    | Flag(flag: bool)
    | Number(n: nat)
    | Raw(bytes: seq<Byte>)
    | List(items: seq<Value>)
    | Absent
    | Present(inner: Value)
    | Good(value: Value)
    | Bad(error: Value)
    | Both(left: Value, right: Value)

  predicate IntFits(bits: nat, n: nat) {
    (bits == 16 && n < 0x1_0000) || (bits == 32 && n < 0x1_0000_0000) || (bits == 64 && n < U64)
  }

  predicate HasType(s: Schema, v: Value)
    decreases s, 0
  {
    match s
    case Unit => v.Nothing?
    case Bool => v.Flag?
    case U8 => v.Number? && v.n < 256
    case Int(bits) => v.Number? && IntFits(bits, v.n)
    case Slice => v.Raw? && |v.bytes| < U64
    case Array(e, n) => v.List? && |v.items| == n && AllHaveType(e, v.items)
    case Opt(e) => v.Absent? || (v.Present? && HasType(e, v.inner))
    case Res(a, b) => (v.Good? && HasType(a, v.value)) || (v.Bad? && HasType(b, v.error))
    case Pair(a, b) => v.Both? && HasType(a, v.left) && HasType(b, v.right)
    case Vec(e) => v.List? && |v.items| < U64 && AllHaveType(e, v.items)
  }

  predicate AllHaveType(e: Schema, vs: seq<Value>)
    decreases e, |vs|
  {
    vs == [] || (HasType(e, vs[0]) && AllHaveType(e, vs[1..]))
  }

  // ----------------------------------------------------------------- integers

  function EncodeInt(n: nat): seq<Byte> {
    if n < 128 then [n] else [n % 128 + 128] + EncodeInt(n / 128)
  }

  /** Reads at most k bytes; the value is not yet cut to 64 bits. */
  function ReadInt(b: seq<Byte>, k: nat): (r: Option<(nat, seq<Byte>)>)
    ensures r.Some? ==> |r.value.1| < |b|
    decreases k
  {
    if k == 0 || b == [] then None
    else if b[0] < 128 then Some((b[0], b[1..]))
    else match ReadInt(b[1..], k - 1)
      case None => None
      case Some((v, rest)) => Some((b[0] - 128 + 128 * v, rest))
  }

  function DecodeInt(bits: nat, b: seq<Byte>): (r: Option<(nat, seq<Byte>)>)
    ensures r.Some? ==> |r.value.1| < |b|
  {
    match ReadInt(b, WORST_CASE_SIZE)
    case None => None
    case Some((v, rest)) => if IntFits(bits, v % U64) then Some((v % U64, rest)) else None
  }

  function Pow128(k: nat): nat { if k == 0 then 1 else 128 * Pow128(k - 1) }

  lemma {:induction false} ReadBack(n: nat, suffix: seq<Byte>, k: nat)
    requires 0 < k && n < Pow128(k)
    ensures ReadInt(EncodeInt(n) + suffix, k) == Some((n, suffix))
    decreases k
  {
    var b := EncodeInt(n) + suffix;
    if n < 128 {
      assert b[0] == n && b[1..] == suffix;
    } else {
      ReadBack(n / 128, suffix, k - 1);
      assert b[0] == n % 128 + 128 && b[1..] == EncodeInt(n / 128) + suffix;
    }
  }

  lemma {:induction false} TenBytesSuffice()
    ensures U64 <= Pow128(WORST_CASE_SIZE)
  {
    assert Pow128(2) == 128 * Pow128(1) == 16384;
    assert Pow128(4) == 128 * Pow128(3) && Pow128(3) == 128 * Pow128(2);
    assert Pow128(6) == 128 * Pow128(5) && Pow128(5) == 128 * Pow128(4);
    assert Pow128(8) == 128 * Pow128(7) && Pow128(7) == 128 * Pow128(6);
    assert Pow128(10) == 128 * Pow128(9) && Pow128(9) == 128 * Pow128(8);
  }

  lemma {:induction false} IntRoundTrip(bits: nat, n: nat, suffix: seq<Byte>)
    requires IntFits(bits, n)
    ensures DecodeInt(bits, EncodeInt(n) + suffix) == Some((n, suffix))
  {
    hide ReadInt, EncodeInt, Pow128;
    TenBytesSuffice();
    ReadBack(n, suffix, WORST_CASE_SIZE);
  }

  /** The bytes that were read, when `rest` is what was left. */
  ghost function Consumed(b: seq<Byte>, rest: seq<Byte>): seq<Byte>
    requires |rest| < |b|
  {
    b[..|b| - |rest|]
  }

  lemma {:induction false} ReadTakesPrefix(b: seq<Byte>, k: nat)
    requires ReadInt(b, k).Some?
    ensures b == Consumed(b, ReadInt(b, k).value.1) + ReadInt(b, k).value.1
    decreases k
  {
    if b[0] < 128 {
      assert b == [b[0]] + b[1..];
    } else {
      ReadTakesPrefix(b[1..], k - 1);
      assert b == [b[0]] + b[1..];
    }
  }

  /** A base-128 form is the one `encode` writes exactly when it is a single byte or does not end
      in a zero. */
  lemma {:induction false} ReadIsCanonical(b: seq<Byte>, k: nat)
    requires ReadInt(b, k).Some?
    ensures var (v, rest) := ReadInt(b, k).value;
            var c := Consumed(b, rest);
            && (c == EncodeInt(v) <==> |c| == 1 || c[|c| - 1] != 0)
            && (v == 0 ==> c[|c| - 1] == 0)
    decreases k
  {
    if b[0] < 128 {
      assert b[..1] == [b[0]];
    } else {
      ReadIsCanonical(b[1..], k - 1);
      var (v, rest) := ReadInt(b[1..], k - 1).value;
      var w := b[0] - 128 + 128 * v;
      var c, tail := Consumed(b, rest), Consumed(b[1..], rest);
      assert c == [b[0]] + tail;
      assert w / 128 == v && w % 128 == b[0] - 128;
      if |tail| == 1 {
        assert tail[0] == b[1] && v == tail[0];
        if v == 0 { assert |EncodeInt(w)| == 1; } else { assert EncodeInt(w) == [b[0]] + EncodeInt(v); }
      } else if v != 0 {
        assert EncodeInt(w) == [b[0]] + EncodeInt(v);
        if c == EncodeInt(w) { assert c[1..] == tail && EncodeInt(w)[1..] == EncodeInt(v); }
      } else {
        assert |EncodeInt(w)| == 1;
      }
    }
  }

  /** Which accepted spellings are the encoder's own: those of one byte or without a trailing
      zero, unless the value was cut to 64 bits. */
  lemma {:induction false} IntIsCanonical(bits: nat, b: seq<Byte>)
    requires DecodeInt(bits, b).Some?
    ensures var (v, rest) := DecodeInt(bits, b).value;
            var c := Consumed(b, rest);
            && b == c + rest && |c| <= WORST_CASE_SIZE
            && (c == EncodeInt(v) <==> (|c| == 1 || c[|c| - 1] != 0) && ReadInt(b, WORST_CASE_SIZE).value.0 < U64)
  {
    hide ReadInt, EncodeInt;
    ReadTakesPrefix(b, WORST_CASE_SIZE);
    ReadIsCanonical(b, WORST_CASE_SIZE);
    ReadIsShort(b, WORST_CASE_SIZE);
    var (v, rest) := ReadInt(b, WORST_CASE_SIZE).value;
    var c := Consumed(b, rest);
    if U64 <= v && c == EncodeInt(v % U64) {
      TenBytesSuffice();
      ReadBack(v % U64, rest, WORST_CASE_SIZE);
    }
  }

  lemma {:induction false} ReadIsShort(b: seq<Byte>, k: nat)
    requires ReadInt(b, k).Some?
    ensures |b| - |ReadInt(b, k).value.1| <= k
    decreases k
  {
    if b[0] < 128 {
    } else {
      ReadIsShort(b[1..], k - 1);
    }
  }

  /** The number that bytes spell: seven bits of each, the lowest first. */
  function Digits(c: seq<Byte>): nat {
    if c == [] then 0 else c[0] as nat % 128 + 128 * Digits(c[1..])
  }

  lemma {:induction false} Reassociated(w: nat, d: nat)
    ensures 128 * (w * d) == 128 * w * d
  {
  }

  /** Bytes further on weigh more, by 128 for each byte before them. */
  lemma {:induction false} DigitsOfParts(x: seq<Byte>, y: seq<Byte>)
    ensures Digits(x + y) == Digits(x) + Pow128(|x|) * Digits(y)
  {
    if x == [] {
      assert x + y == y;
    } else {
      assert Digits(x + y) == x[0] as nat % 128 + 128 * Digits((x + y)[1..]);
      assert Digits(x) == x[0] as nat % 128 + 128 * Digits(x[1..]) && Pow128(|x|) == 128 * Pow128(|x| - 1);
      DigitsOfParts(x[1..], y);
      assert (x + y)[1..] == x[1..] + y;
      hide Digits, Pow128;
      Reassociated(Pow128(|x| - 1), Digits(y));
    }
  }

  /** The encoder's form of a number: every byte but the last has its high bit set, the last is not zero unless
      it stands alone, and the low seven bits of the bytes are the number, lowest first. */
  lemma {:induction false} IntLayout(n: nat)
    ensures var c := EncodeInt(n);
            && |c| > 0 && Digits(c) == n && c[|c| - 1] < 128 && (|c| > 1 ==> c[|c| - 1] != 0)
            && forall i :: 0 <= i < |c| - 1 ==> c[i] >= 128
  {
    if n < 128 {
      assert EncodeInt(n) == [n] && EncodeInt(n)[1..] == [];
    } else {
      IntLayout(n / 128);
      var c, d := EncodeInt(n), EncodeInt(n / 128);
      assert c[1..] == d && c[0] == n % 128 + 128;
      assert (c[0] as nat) % 128 == n % 128;
      assert forall i :: 1 <= i < |c| ==> c[i] == d[i - 1];
    }
  }

  lemma {:induction false} ReadsDigits(b: seq<Byte>, j: nat, k: nat)
    requires j < |b| && j < k && b[j] < 128 && forall i :: 0 <= i < j ==> b[i] >= 128
    ensures ReadInt(b, k) == Some((Digits(b[..j + 1]), b[j + 1..]))
    decreases k
  {
    assert b[..j + 1][1..] == b[1..][..j];
    if j == 0 {
      assert Digits(b[..1]) == b[0] as nat % 128 + 128 * Digits([]);
    } else {
      ReadsDigits(b[1..], j - 1, k - 1);
      assert b[1..][j..] == b[j + 1..];
      assert b[0] as nat % 128 == b[0] as nat - 128;
    }
  }

  lemma {:induction false} ReadsNoEnd(b: seq<Byte>, k: nat)
    requires forall i :: 0 <= i < |b| && i < k ==> b[i] >= 128
    ensures ReadInt(b, k) == None
    decreases k
  {
    if k == 0 || b == [] {
    } else {
      ReadsNoEnd(b[1..], k - 1);
    }
  }

  /** What decoding an integer does to any bytes. A byte below 128 must be among the first ten; the number is
      spelled by the bytes up to it, cut to 64 bits, and refused when the type is too narrow for it. */
  lemma {:induction false} IntDecodes(bits: nat, b: seq<Byte>)
    ensures (forall i :: 0 <= i < |b| && i < 10 ==> b[i] >= 128) ==> DecodeInt(bits, b) == None
    ensures forall j: nat :: j < |b| && j < 10 && b[j] < 128 && (forall i :: 0 <= i < j ==> b[i] >= 128) ==>
              var v: nat := Digits(b[..j + 1]) % 0x1_0000_0000_0000_0000;
              var fits := bits == 64 || (bits == 32 && v < 0x1_0000_0000) || (bits == 16 && v < 0x1_0000);
              DecodeInt(bits, b) == if fits then Some((v, b[j + 1..])) else None
  {
    hide ReadInt, Digits;
    if forall i :: 0 <= i < |b| && i < 10 ==> b[i] >= 128 { ReadsNoEnd(b, 10); }
    forall j: nat | j < |b| && j < 10 && b[j] < 128 && (forall i :: 0 <= i < j ==> b[i] >= 128)
      ensures var v: nat := Digits(b[..j + 1]) % 0x1_0000_0000_0000_0000;
              var fits := bits == 64 || (bits == 32 && v < 0x1_0000_0000) || (bits == 16 && v < 0x1_0000);
              DecodeInt(bits, b) == if fits then Some((v, b[j + 1..])) else None
    {
      IntDecodesAt(bits, b, j);
    }
  }

  lemma {:induction false} IntDecodesAt(bits: nat, b: seq<Byte>, j: nat)
    requires j < |b| && j < 10 && b[j] < 128 && (forall i :: 0 <= i < j ==> b[i] >= 128)
    ensures var v: nat := Digits(b[..j + 1]) % 0x1_0000_0000_0000_0000;
            var fits := bits == 64 || (bits == 32 && v < 0x1_0000_0000) || (bits == 16 && v < 0x1_0000);
            DecodeInt(bits, b) == if fits then Some((v, b[j + 1..])) else None
  {
    hide ReadInt, Digits;
    ReadsDigits(b, j, 10);
  }

  /** Decoding accepts more than encoding produces: zero has a second spelling. */
  lemma {:induction false} IntNotCanonical()
    ensures DecodeInt(64, [128, 0]) == Some((0, [])) && EncodeInt(0) == [0]
  {
    var b: seq<Byte> := [128, 0];
    assert b[1..] == [0] && b[1..][1..] == [];
    assert ReadInt(b[1..], 9) == Some((0, []));
  }

  // ---------------------------------------------------------- encode and decode

  function FlagByte(b: bool): Byte { if b then 1 else 0 }

  function Encode(s: Schema, v: Value): seq<Byte>
    requires HasType(s, v)
    decreases s, 0
  {
    match s
    case Unit => []
    case Bool => [FlagByte(v.flag)]
    case U8 => [v.n]
    case Int(_) => EncodeInt(v.n)
    case Slice => EncodeInt(|v.bytes|) + v.bytes
    case Array(e, _) => EncodeAll(e, v.items)
    case Opt(e) => if v.Present? then [1] + Encode(e, v.inner) else [0]
    case Res(a, b) => if v.Good? then [1] + Encode(a, v.value) else [0] + Encode(b, v.error)
    case Pair(a, b) => Encode(a, v.left) + Encode(b, v.right)
    case Vec(e) => EncodeInt(|v.items|) + EncodeAll(e, v.items)
  }

  function EncodeAll(e: Schema, vs: seq<Value>): seq<Byte>
    requires AllHaveType(e, vs)
    decreases e, |vs|
  {
    if vs == [] then [] else Encode(e, vs[0]) + EncodeAll(e, vs[1..])
  }

  /** How each value lies on the wire. A flag is the byte 1 or 0, an option or a result starts with
      one, a pair is its first part and then its second, a slice is its length and then its bytes, and a
      vector is its length and then the array of its elements. */
  lemma {:induction false} Layout(s: Schema, v: Value)
    requires HasType(s, v)
    ensures s.Bool? ==> Encode(s, v) == if v.flag then [1] else [0]
    ensures s.U8? ==> Encode(s, v) == [v.n]
    ensures s.Opt? ==> Encode(s, v) == if v.Present? then [1] + Encode(s.some, v.inner) else [0]
    ensures s.Res? ==> Encode(s, v) == if v.Good? then [1] + Encode(s.ok, v.value) else [0] + Encode(s.err, v.error)
    ensures s.Pair? ==> Encode(s, v) == Encode(s.first, v.left) + Encode(s.second, v.right)
    ensures s.Slice? ==> Encode(s, v) == EncodeInt(|v.bytes|) + v.bytes
    ensures s.Vec? ==> HasType(Array(s.item, |v.items|), v)
                       && Encode(s, v) == EncodeInt(|v.items|) + Encode(Array(s.item, |v.items|), v)
  {
  }

  lemma {:induction false} AllOfParts(e: Schema, xs: seq<Value>, ys: seq<Value>)
    requires AllHaveType(e, xs) && AllHaveType(e, ys)
    ensures AllHaveType(e, xs + ys) && EncodeAll(e, xs + ys) == EncodeAll(e, xs) + EncodeAll(e, ys)
    decreases |xs|
  {
    if xs == [] {
      assert xs + ys == ys;
    } else {
      hide Encode, HasType, EncodeAll, AllHaveType;
      UnfoldAll(e, xs);
      AllOfParts(e, xs[1..], ys);
      assert (xs + ys)[1..] == xs[1..] + ys;
      UnfoldAll(e, xs + ys);
      Regrouped(Encode(e, xs[0]), EncodeAll(e, xs[1..]), EncodeAll(e, ys));
    }
  }

  lemma {:induction false} Regrouped(a: seq<Byte>, b: seq<Byte>, c: seq<Byte>)
    ensures a + (b + c) == a + b + c
  {
  }

  lemma {:induction false} UnfoldAll(e: Schema, vs: seq<Value>)
    requires vs != []
    ensures AllHaveType(e, vs) <==> HasType(e, vs[0]) && AllHaveType(e, vs[1..])
    ensures AllHaveType(e, vs) ==> EncodeAll(e, vs) == Encode(e, vs[0]) + EncodeAll(e, vs[1..])
  {
    hide Encode, HasType;
  }

  /** Elements go on the wire from the first to the last: an array cut anywhere is its two parts one behind the
      other, and an array of one element is that element. */
  lemma {:induction false} ArrayLayout(e: Schema, xs: seq<Value>, ys: seq<Value>)
    requires HasType(Array(e, |xs|), List(xs)) && HasType(Array(e, |ys|), List(ys))
    ensures HasType(Array(e, |xs| + |ys|), List(xs + ys))
    ensures Encode(Array(e, |xs| + |ys|), List(xs + ys))
         == Encode(Array(e, |xs|), List(xs)) + Encode(Array(e, |ys|), List(ys))
    ensures |xs| == 1 ==> HasType(e, xs[0]) && Encode(Array(e, 1), List(xs)) == Encode(e, xs[0])
  {
    AllOfParts(e, xs, ys);
    hide HasType;
    if |xs| == 1 {
      SingleTyped(e, xs);
    }
  }

  lemma {:induction false} SingleTyped(e: Schema, xs: seq<Value>)
    requires |xs| == 1 && AllHaveType(e, xs)
    ensures HasType(e, xs[0]) && EncodeAll(e, xs) == Encode(e, xs[0])
  {
    hide HasType, Encode;
    assert xs[1..] == [];
    assert EncodeAll(e, xs) == Encode(e, xs[0]) + [];
  }

  function DecodeFlag(b: seq<Byte>): Option<(bool, seq<Byte>)> {
    if b == [] || b[0] > 1 then None else Some((b[0] == 1, b[1..]))
  }

  function Decode(s: Schema, b: seq<Byte>): Option<(Value, seq<Byte>)>
    decreases s, 0
  {
    match s
    case Unit => Some((Nothing, b))
    case Bool =>
      (match DecodeFlag(b)
       case None => None
       case Some((f, rest)) => Some((Flag(f), rest)))
    case U8 => if b == [] then None else Some((Number(b[0]), b[1..]))
    case Int(bits) =>
      (match DecodeInt(bits, b)
       case None => None
       case Some((n, rest)) => Some((Number(n), rest)))
    case Slice =>
      (match DecodeInt(64, b)
       case None => None
       case Some((n, rest)) => if |rest| < n then None else Some((Raw(rest[..n]), rest[n..])))
    case Array(e, n) => Listed(DecodeAll(e, n, [], b))
    case Opt(e) =>
      (match DecodeFlag(b)
       case None => None
       case Some((f, rest)) =>
         if !f then Some((Absent, rest))
         else match Decode(e, rest)
           case None => None
           case Some((v, more)) => Some((Present(v), more)))
    case Res(x, y) =>
      (match DecodeFlag(b)
       case None => None
       case Some((f, rest)) =>
         match Decode(if f then x else y, rest)
         case None => None
         case Some((v, more)) => Some((if f then Good(v) else Bad(v), more)))
    case Pair(x, y) =>
      (match Decode(x, b)
       case None => None
       case Some((v, rest)) =>
         match Decode(y, rest)
         case None => None
         case Some((w, more)) => Some((Both(v, w), more)))
    case Vec(e) =>
      // The length is refused when it exceeds the number of bytes left.
      (match DecodeInt(64, b)
       case None => None
       case Some((n, rest)) => if n > |rest| then None else Listed(DecodeAll(e, n, [], rest)))
  }

  /** n more elements after those in vs. */
  function DecodeAll(e: Schema, n: nat, vs: seq<Value>, b: seq<Byte>): Option<(seq<Value>, seq<Byte>)>
    decreases e, n
  {
    if n == 0 then Some((vs, b))
    else match Decode(e, b)
      case None => None
      case Some((v, rest)) => DecodeAll(e, n - 1, vs + [v], rest)
  }

  function Listed(r: Option<(seq<Value>, seq<Byte>)>): Option<(Value, seq<Byte>)> {
    match r
    case None => None
    case Some((vs, rest)) => Some((List(vs), rest))
  }

  // --------------------------------------------------------------- round trips

  /** Every value of the type takes at least one byte. */
  predicate NonEmpty(s: Schema) {
    match s
    case Unit => false
    case Array(e, n) => n > 0 && NonEmpty(e)
    case Pair(a, b) => NonEmpty(a) || NonEmpty(b)
    case _ => true
  }

  /** Vectors, wherever they occur, hold elements of at least one byte. */
  predicate Sound(s: Schema) {
    match s
    case Array(e, _) => Sound(e)
    case Opt(e) => Sound(e)
    case Res(a, b) => Sound(a) && Sound(b)
    case Pair(a, b) => Sound(a) && Sound(b)
    case Vec(e) => Sound(e) && NonEmpty(e)
    case _ => true
  }

  lemma {:induction false} EncodeIntNonEmpty(n: nat)
    ensures |EncodeInt(n)| > 0
  {
  }

  lemma {:induction false} NonEmptyEncodes(s: Schema, v: Value)
    requires NonEmpty(s) && HasType(s, v)
    ensures |Encode(s, v)| > 0
    decreases s
  {
    hide EncodeInt;
    match s
    case Array(e, n) => NonEmptyEncodes(e, v.items[0]);
    case Pair(a, b) => if NonEmpty(a) { NonEmptyEncodes(a, v.left); } else { NonEmptyEncodes(b, v.right); }
    case Int(_) => EncodeIntNonEmpty(v.n);
    case Slice => EncodeIntNonEmpty(|v.bytes|);
    case Vec(e) => EncodeIntNonEmpty(|v.items|);
    case _ =>
  }

  lemma {:induction false} AllEncodeLong(e: Schema, vs: seq<Value>)
    requires NonEmpty(e) && AllHaveType(e, vs)
    ensures |vs| <= |EncodeAll(e, vs)|
    decreases |vs|
  {
    hide Encode, NonEmpty, HasType;
    if vs == [] {
    } else {
      NonEmptyEncodes(e, vs[0]);
      AllEncodeLong(e, vs[1..]);
    }
  }

  /** Decoding an encoding, whatever follows it, gives the value back and leaves exactly what
      follows. */
  lemma {:induction false} RoundTrip(s: Schema, v: Value, suffix: seq<Byte>)
    requires Sound(s) && HasType(s, v)
    ensures Decode(s, Encode(s, v) + suffix) == Some((v, suffix))
    decreases s, 0
  {
    hide EncodeInt, DecodeInt, EncodeAll, DecodeAll, Encode, Decode;
    match s
    case Array(e, n) =>
      AllRoundTrip(e, [], v.items, suffix);
      ArrayRoundTrip(e, n, v, suffix);
    case Opt(e) =>
      if v.Present? { RoundTrip(e, v.inner, suffix); }
      OptRoundTrip(e, v, suffix);
    case Res(x, y) =>
      if v.Good? { RoundTrip(x, v.value, suffix); } else { RoundTrip(y, v.error, suffix); }
      ResRoundTrip(x, y, v, suffix);
    case Pair(x, y) =>
      RoundTrip(x, v.left, Encode(y, v.right) + suffix);
      RoundTrip(y, v.right, suffix);
      PairRoundTrip(x, y, v, suffix);
    case Vec(e) =>
      AllRoundTrip(e, [], v.items, suffix);
      VecRoundTrip(e, v, suffix);
    case Slice => SliceRoundTrip(v, suffix);
    case _ => PlainRoundTrip(s, v, suffix);
  }

  lemma {:induction false} PlainRoundTrip(s: Schema, v: Value, suffix: seq<Byte>)
    requires (s.Unit? || s.Bool? || s.U8? || s.Int?) && HasType(s, v)
    ensures Decode(s, Encode(s, v) + suffix) == Some((v, suffix))
  {
    hide EncodeInt, DecodeInt;
    var b := Encode(s, v) + suffix;
    if s.Unit? {
      assert b == suffix;
    } else if s.Int? {
      IntRoundTrip(s.bits, v.n, suffix);
    } else {
      assert b[1..] == suffix;
    }
  }

  lemma {:induction false} ArrayRoundTrip(e: Schema, n: nat, v: Value, suffix: seq<Byte>)
    requires HasType(Array(e, n), v)
    requires DecodeAll(e, n, [], EncodeAll(e, v.items) + suffix) == Some(([] + v.items, suffix))
    ensures Decode(Array(e, n), Encode(Array(e, n), v) + suffix) == Some((v, suffix))
  {
    hide EncodeAll, DecodeAll;
    assert [] + v.items == v.items;
  }

  lemma {:induction false} OptRoundTrip(e: Schema, v: Value, suffix: seq<Byte>)
    requires HasType(Opt(e), v)
    requires v.Present? ==> Decode(e, Encode(e, v.inner) + suffix) == Some((v.inner, suffix))
    ensures Decode(Opt(e), Encode(Opt(e), v) + suffix) == Some((v, suffix))
  {
    hide Encode, Decode;
    var b := Encode(Opt(e), v) + suffix;
    UnfoldOpt(e, v, b);
    if v.Present? {
      assert b[1..] == Encode(e, v.inner) + suffix;
    } else {
      assert b[1..] == suffix;
    }
  }

  lemma {:induction false} ResRoundTrip(x: Schema, y: Schema, v: Value, suffix: seq<Byte>)
    requires HasType(Res(x, y), v)
    requires v.Good? ==> Decode(x, Encode(x, v.value) + suffix) == Some((v.value, suffix))
    requires v.Bad? ==> Decode(y, Encode(y, v.error) + suffix) == Some((v.error, suffix))
    ensures Decode(Res(x, y), Encode(Res(x, y), v) + suffix) == Some((v, suffix))
  {
    hide Encode, Decode;
    var b := Encode(Res(x, y), v) + suffix;
    UnfoldRes(x, y, v, b);
    if v.Good? {
      assert b[1..] == Encode(x, v.value) + suffix;
    } else {
      assert b[1..] == Encode(y, v.error) + suffix;
    }
  }

  lemma {:induction false} PairRoundTrip(x: Schema, y: Schema, v: Value, suffix: seq<Byte>)
    requires HasType(Pair(x, y), v)
    requires Decode(x, Encode(x, v.left) + (Encode(y, v.right) + suffix)) == Some((v.left, Encode(y, v.right) + suffix))
    requires Decode(y, Encode(y, v.right) + suffix) == Some((v.right, suffix))
    ensures Decode(Pair(x, y), Encode(Pair(x, y), v) + suffix) == Some((v, suffix))
  {
    hide Encode, Decode;
    UnfoldPair(x, y, v, Encode(Pair(x, y), v) + suffix);
    assert Encode(x, v.left) + Encode(y, v.right) + suffix == Encode(x, v.left) + (Encode(y, v.right) + suffix);
  }

  // ----- one step of the definitions at a time

  lemma {:induction false} UnfoldOpt(e: Schema, v: Value, b: seq<Byte>)
    requires HasType(Opt(e), v)
    ensures v.Present? ==> Encode(Opt(e), v) == [1] + Encode(e, v.inner)
    ensures v.Absent? ==> Encode(Opt(e), v) == [0]
    ensures b != [] && b[0] == 0 ==> Decode(Opt(e), b) == Some((Absent, b[1..]))
    ensures b != [] && b[0] == 1 ==>
              Decode(Opt(e), b) == (match Decode(e, b[1..])
                                    case None => None
                                    case Some((w, more)) => Some((Present(w), more)))
  {
  }

  lemma {:induction false} UnfoldRes(x: Schema, y: Schema, v: Value, b: seq<Byte>)
    requires HasType(Res(x, y), v)
    ensures v.Good? ==> Encode(Res(x, y), v) == [1] + Encode(x, v.value)
    ensures v.Bad? ==> Encode(Res(x, y), v) == [0] + Encode(y, v.error)
    ensures b != [] && b[0] == 1 ==>
              Decode(Res(x, y), b) == (match Decode(x, b[1..])
                                       case None => None
                                       case Some((w, more)) => Some((Good(w), more)))
    ensures b != [] && b[0] == 0 ==>
              Decode(Res(x, y), b) == (match Decode(y, b[1..])
                                       case None => None
                                       case Some((w, more)) => Some((Bad(w), more)))
  {
  }

  lemma {:induction false} UnfoldPair(x: Schema, y: Schema, v: Value, b: seq<Byte>)
    requires HasType(Pair(x, y), v)
    ensures Encode(Pair(x, y), v) == Encode(x, v.left) + Encode(y, v.right)
    ensures Decode(Pair(x, y), b) == (match Decode(x, b)
                                      case None => None
                                      case Some((l, rest)) =>
                                        match Decode(y, rest)
                                        case None => None
                                        case Some((r, more)) => Some((Both(l, r), more)))
  {
  }

  lemma {:induction false} SliceRoundTrip(v: Value, suffix: seq<Byte>)
    requires HasType(Slice, v)
    ensures Decode(Slice, Encode(Slice, v) + suffix) == Some((v, suffix))
  {
    hide EncodeInt, DecodeInt;
    var n := |v.bytes|;
    assert Encode(Slice, v) + suffix == EncodeInt(n) + (v.bytes + suffix);
    IntRoundTrip(64, n, v.bytes + suffix);
    assert (v.bytes + suffix)[..n] == v.bytes && (v.bytes + suffix)[n..] == suffix;
  }

  lemma {:induction false} VecRoundTrip(e: Schema, v: Value, suffix: seq<Byte>)
    requires NonEmpty(e) && HasType(Vec(e), v)
    requires DecodeAll(e, |v.items|, [], EncodeAll(e, v.items) + suffix) == Some(([] + v.items, suffix))
    ensures Decode(Vec(e), Encode(Vec(e), v) + suffix) == Some((v, suffix))
  {
    hide EncodeInt, DecodeInt, EncodeAll, DecodeAll;
    var n := |v.items|;
    var more := EncodeAll(e, v.items) + suffix;
    assert Encode(Vec(e), v) + suffix == EncodeInt(n) + more;
    IntRoundTrip(64, n, more);
    AllEncodeLong(e, v.items);
    assert [] + v.items == v.items;
  }

  lemma {:induction false} AllRoundTrip(e: Schema, vs: seq<Value>, ws: seq<Value>, suffix: seq<Byte>)
    requires Sound(e) && AllHaveType(e, ws)
    ensures DecodeAll(e, |ws|, vs, EncodeAll(e, ws) + suffix) == Some((vs + ws, suffix))
    decreases e, |ws|
  {
    hide Encode, Decode, HasType, Sound;
    if ws == [] {
      assert vs + ws == vs && EncodeAll(e, ws) + suffix == suffix;
    } else {
      var more := EncodeAll(e, ws[1..]) + suffix;
      assert EncodeAll(e, ws) + suffix == Encode(e, ws[0]) + more;
      RoundTrip(e, ws[0], more);
      AllRoundTrip(e, vs + [ws[0]], ws[1..], suffix);
      assert vs + [ws[0]] + ws[1..] == vs + ws;
    }
  }

  /** Two values with a common encoding, or of which one's encoding begins the other's, are
      the same: the encoding is prefix-free. */
  lemma {:induction false} EncodingIsPrefixFree(s: Schema, v: Value, w: Value)
    requires Sound(s) && HasType(s, v) && HasType(s, w) && Encode(s, v) <= Encode(s, w)
    ensures v == w
  {
    hide Encode, Decode, HasType, Sound;
    var suffix := Encode(s, w)[|Encode(s, v)|..];
    assert Encode(s, w) + [] == Encode(s, v) + suffix;
    RoundTrip(s, v, suffix);
    RoundTrip(s, w, []);
  }

  // ----- what the condition on vectors is for

  /** The value of a type that takes no bytes. */
  function EmptyValue(s: Schema): Value
    requires !NonEmpty(s)
  {
    match s
    case Unit => Nothing
    case Array(e, n) => List(if n == 0 then [] else seq(n, _ => EmptyValue(e)))
    case Pair(a, b) => Both(EmptyValue(a), EmptyValue(b))
    case _ => Nothing
  }

  lemma {:induction false} EmptyEncodes(s: Schema)
    requires !NonEmpty(s)
    ensures HasType(s, EmptyValue(s)) && Encode(s, EmptyValue(s)) == []
    decreases s, 0
  {
    match s
    case Unit =>
    case Array(e, n) => if n != 0 { EmptyAll(e, n); }
    case Pair(a, b) =>
      EmptyEncodes(a);
      EmptyEncodes(b);
  }

  lemma {:induction false} EmptyAll(e: Schema, n: nat)
    requires !NonEmpty(e)
    ensures var vs := seq(n, _ => EmptyValue(e)); AllHaveType(e, vs) && EncodeAll(e, vs) == []
    decreases e, n + 1
  {
    if n == 0 {
    } else {
      EmptyEncodes(e);
      EmptyAll(e, n - 1);
      var vs := seq(n, _ => EmptyValue(e));
      assert vs[1..] == seq(n - 1, _ => EmptyValue(e));
    }
  }

  /** A vector type decodes everything it encodes exactly when its elements take at least one
      byte each: otherwise already one element is refused. */
  lemma {:induction false} VecNeedsNonEmpty(e: Schema)
    requires Sound(e)
    ensures NonEmpty(e) <==>
              forall v: Value, t: seq<Byte> ::
                HasType(Vec(e), v) ==> Decode(Vec(e), Encode(Vec(e), v) + t) == Some((v, t))
  {
    hide Encode, Decode, HasType, NonEmpty;
    if NonEmpty(e) {
      forall v: Value, t: seq<Byte> | HasType(Vec(e), v)
        ensures Decode(Vec(e), Encode(Vec(e), v) + t) == Some((v, t))
      {
        RoundTrip(Vec(e), v, t);
      }
    } else {
      VecOfEmptyFails(e);
    }
  }

  lemma {:induction false} VecOfEmptyFails(e: Schema)
    requires !NonEmpty(e)
    ensures var v := List([EmptyValue(e)]);
            HasType(Vec(e), v) && Decode(Vec(e), Encode(Vec(e), v) + []) == None
  {
    hide DecodeInt, DecodeAll, EncodeInt, EmptyValue;
    EmptyEncodes(e);
    var w := EmptyValue(e);
    assert [w][1..] == [];
    assert AllHaveType(e, [w]) && EncodeAll(e, [w]) == [];
    IntRoundTrip(64, 1, []);
    assert Encode(Vec(e), List([w])) + [] == EncodeInt(1) + [];
  }
}
