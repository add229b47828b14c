/** The codec at work: encoders push to a buffer that may run out of space, decoders move a
    cursor over a slice. */
module CodecIo {
  import opened Wrappers
  import opened Octets
  import opened Codec

  /** A growing vector, a slice of fixed length, or a counter of bytes. */
  datatype Kind = Growing | Bounded(cap: nat) | Counting

  class Buffer {
    const kind: Kind
    var bytes: seq<Byte>
    var count: nat
    /** Everything pushed so far. */
    ghost var written: seq<Byte>

    ghost predicate Valid()
      reads this
    {
      && (kind.Counting? ==> count == |written|)
      && (!kind.Counting? ==> bytes == written)
      && (kind.Bounded? ==> |written| <= kind.cap)
    }

    ghost predicate Room(n: nat)
      reads this
    {
      kind.Bounded? ==> |written| + n <= kind.cap
    }

    constructor (kind: Kind)
      ensures Valid() && written == [] && this.kind == kind
    {
      this.kind, bytes, count, written := kind, [], 0, [];
    }

    method Push(b: Byte) returns (ok: bool)
      requires Valid()
      modifies this
      ensures Valid() && ok == old(Room(1))
      ensures written == if ok then old(written) + [b] else old(written)
    {
      match kind {
        case Growing => bytes := bytes + [b];
        case Counting => count := count + 1;
        case Bounded(cap) =>
          if |bytes| == cap { return false; }
          bytes := bytes + [b];
      }
      written := written + [b];
      ok := true;
    }

    method ExtendFromSlice(s: seq<Byte>) returns (ok: bool)
      requires Valid()
      modifies this
      ensures Valid() && ok == old(Room(|s|))
      ensures written == if ok then old(written) + s else old(written)
    {
      match kind {
        case Growing => bytes := bytes + s;
        case Counting => count := count + |s|;
        case Bounded(cap) =>
          if cap - |bytes| < |s| { return false; }
          bytes := bytes + s;
      }
      written := written + s;
      ok := true;
    }
  }

  /** What an encoder promises: it succeeds exactly when the encoding fits, and never writes
      anything but the encoding. */
  ghost predicate Wrote(kind: Kind, before: seq<Byte>, ok: bool, code: seq<Byte>, after: seq<Byte>) {
    && ok == (kind.Bounded? ==> |before| + |code| <= kind.cap)
    && (if ok then after == before + code else before <= after <= before + code)
  }

  /** Encoding one thing after another. */
  lemma {:induction false} WroteBoth(
    kind: Kind, before: seq<Byte>, x: seq<Byte>, mid: seq<Byte>, ok: bool, y: seq<Byte>, after: seq<Byte>)
    requires Wrote(kind, before, true, x, mid) && Wrote(kind, mid, ok, y, after)
    ensures Wrote(kind, before, ok, x + y, after)
  {
    assert before + x + y == before + (x + y);
  }

  lemma {:induction false} WroteFirst(kind: Kind, before: seq<Byte>, x: seq<Byte>, mid: seq<Byte>, y: seq<Byte>)
    requires Wrote(kind, before, false, x, mid)
    ensures Wrote(kind, before, false, x + y, mid)
  {
    assert before + x + y == before + (x + y);
  }

  method Base128Encode(n: nat, buffer: Buffer) returns (ok: bool)
    requires buffer.Valid()
    modifies buffer
    ensures buffer.Valid() && Wrote(buffer.kind, old(buffer.written), ok, EncodeInt(n), buffer.written)
  {
    var value := n;
    while true
      invariant buffer.Valid()
      invariant buffer.written + EncodeInt(value) == old(buffer.written) + EncodeInt(n)
      invariant old(buffer.written) <= buffer.written
      decreases value
    {
      EncodeIntNonEmpty(value);
      var byte := value % 128;
      var rest := value / 128;
      if rest != 0 { byte := byte + 128; }
      assert EncodeInt(value) == [byte] + if rest == 0 then [] else EncodeInt(rest);
      ghost var before := buffer.written;
      ok := buffer.Push(byte);
      if !ok { return; }
      if rest == 0 { return; }
      assert before + ([byte] + EncodeInt(rest)) == before + [byte] + EncodeInt(rest);
      value := rest;
    }
  }

  method EncodeValue(s: Schema, v: Value, buffer: Buffer) returns (ok: bool)
    requires HasType(s, v) && buffer.Valid()
    modifies buffer
    ensures buffer.Valid() && Wrote(buffer.kind, old(buffer.written), ok, Encode(s, v), buffer.written)
    decreases s, 0
  {
    hide EncodeInt, EncodeAll, Encode, Wrote;
    var before, kind := buffer.written, buffer.kind;
    UnfoldEncode(s, v);
    match s {
      case Unit => ok := true; WroteNothing(kind, before);
      case Bool => ok := PushOne(FlagByte(v.flag), buffer);
      case U8 => ok := PushOne(v.n, buffer);
      case Int(_) => ok := Base128Encode(v.n, buffer);
      case Array(e, _) => ok := EncodeItems(e, v.items, buffer);
      case Opt(e) =>
        ok := PushOne(FlagByte(v.Present?), buffer);
        if v.Present? {
          var x, y, mid := [1], Encode(e, v.inner), buffer.written;
          if !ok { WroteFirst(kind, before, x, mid, y); return; }
          ok := EncodeValue(e, v.inner, buffer);
          WroteBoth(kind, before, x, mid, ok, y, buffer.written);
        }
      case Res(a, b) =>
        ok := PushOne(FlagByte(v.Good?), buffer);
        var x := [FlagByte(v.Good?)];
        var y := if v.Good? then Encode(a, v.value) else Encode(b, v.error);
        var mid := buffer.written;
        if !ok { WroteFirst(kind, before, x, mid, y); return; }
        if v.Good? { ok := EncodeValue(a, v.value, buffer); } else { ok := EncodeValue(b, v.error, buffer); }
        WroteBoth(kind, before, x, mid, ok, y, buffer.written);
      case Pair(a, b) =>
        ok := EncodeValue(a, v.left, buffer);
        var x, y, mid := Encode(a, v.left), Encode(b, v.right), buffer.written;
        if !ok { WroteFirst(kind, before, x, mid, y); return; }
        ok := EncodeValue(b, v.right, buffer);
        WroteBoth(kind, before, x, mid, ok, y, buffer.written);
      case Slice =>
        ok := Base128Encode(|v.bytes|, buffer);
        var x, y, mid := EncodeInt(|v.bytes|), v.bytes, buffer.written;
        if !ok { WroteFirst(kind, before, x, mid, y); return; }
        ok := Extend(v.bytes, buffer);
        WroteBoth(kind, before, x, mid, ok, y, buffer.written);
      case Vec(e) =>
        ok := Base128Encode(|v.items|, buffer);
        var x, y, mid := EncodeInt(|v.items|), EncodeAll(e, v.items), buffer.written;
        if !ok { WroteFirst(kind, before, x, mid, y); return; }
        ok := EncodeItems(e, v.items, buffer);
        WroteBoth(kind, before, x, mid, ok, y, buffer.written);
    }
  }

  lemma {:induction false} WroteNothing(kind: Kind, before: seq<Byte>)
    ensures (kind.Bounded? ==> |before| <= kind.cap) ==> Wrote(kind, before, true, [], before)
  {
    assert before + [] == before;
  }

  method PushOne(b: Byte, buffer: Buffer) returns (ok: bool)
    requires buffer.Valid()
    modifies buffer
    ensures buffer.Valid() && Wrote(buffer.kind, old(buffer.written), ok, [b], buffer.written)
  {
    ok := buffer.Push(b);
  }

  method Extend(s: seq<Byte>, buffer: Buffer) returns (ok: bool)
    requires buffer.Valid()
    modifies buffer
    ensures buffer.Valid() && Wrote(buffer.kind, old(buffer.written), ok, s, buffer.written)
  {
    ok := buffer.ExtendFromSlice(s);
  }

  /** The definition of the encoding, one step deep. */
  lemma {:induction false} UnfoldEncode(s: Schema, v: Value)
    requires HasType(s, v)
    ensures match s
            case Unit => Encode(s, v) == []
            case Bool => Encode(s, v) == [FlagByte(v.flag)]
            case U8 => Encode(s, v) == [v.n]
            case Int(_) => Encode(s, v) == EncodeInt(v.n)
            case Slice => Encode(s, v) == EncodeInt(|v.bytes|) + v.bytes
            case Array(e, _) => Encode(s, v) == EncodeAll(e, v.items)
            case Opt(e) => Encode(s, v) == if v.Present? then [1] + Encode(e, v.inner) else [0]
            case Res(a, b) =>
              Encode(s, v) == [FlagByte(v.Good?)] + if v.Good? then Encode(a, v.value) else Encode(b, v.error)
            case Pair(a, b) => Encode(s, v) == Encode(a, v.left) + Encode(b, v.right)
            case Vec(e) => Encode(s, v) == EncodeInt(|v.items|) + EncodeAll(e, v.items)
  {
  }

  method EncodeItems(e: Schema, vs: seq<Value>, buffer: Buffer) returns (ok: bool)
    requires AllHaveType(e, vs) && buffer.Valid()
    modifies buffer
    ensures buffer.Valid() && Wrote(buffer.kind, old(buffer.written), ok, EncodeAll(e, vs), buffer.written)
    decreases e, |vs| + 1
  {
    hide Encode, HasType;
    var i := 0;
    assert vs[0..] == vs;
    while i < |vs|
      invariant i <= |vs| && buffer.Valid() && AllHaveType(e, vs[i..])
      invariant old(buffer.written) <= buffer.written
      invariant buffer.written + EncodeAll(e, vs[i..]) == old(buffer.written) + EncodeAll(e, vs)
    {
      assert vs[i..][1..] == vs[i + 1..];
      ghost var before := buffer.written;
      var code, more := Encode(e, vs[i]), EncodeAll(e, vs[i + 1..]);
      assert before + (code + more) == before + code + more;
      ok := EncodeValue(e, vs[i], buffer);
      if !ok { return; }
      i := i + 1;
    }
    ok := true;
  }

  /** `encode_to_slice`: the encoding, or nothing when the slice is too short. */
  method EncodeToSlice(s: Schema, v: Value, len: nat) returns (r: Option<seq<Byte>>)
    requires HasType(s, v)
    ensures r == if |Encode(s, v)| <= len then Some(Encode(s, v)) else None
  {
    hide Encode, HasType;
    var buffer := new Buffer(Bounded(len));
    assert [] + Encode(s, v) == Encode(s, v);
    var ok := EncodeValue(s, v, buffer);
    r := if ok then Some(buffer.bytes) else None;
  }

  /** `encoded_len`: runs the encoder on a counter. */
  method EncodedLen(s: Schema, v: Value) returns (n: nat)
    requires HasType(s, v)
    ensures n == |Encode(s, v)|
  {
    hide Encode, HasType;
    var buffer := new Buffer(Counting);
    assert [] + Encode(s, v) == Encode(s, v);
    var ok := EncodeValue(s, v, buffer);
    n := buffer.count;
  }

  // ----------------------------------------------------------------- decoding

  class Cursor {
    var rest: seq<Byte>

    constructor (b: seq<Byte>)
      ensures rest == b
    {
      rest := b;
    }
  }

  function Scaled(acc: nat, weight: nat, r: Option<(nat, seq<Byte>)>): Option<(nat, seq<Byte>)> {
    match r
    case None => None
    case Some((v, rest)) => Some((acc + Times(weight, v), rest))
  }

  function Times(a: nat, b: nat): nat { a * b }

  lemma {:induction false} ReadStep(b: seq<Byte>, k: nat, acc: nat, weight: nat)
    requires b != [] && 0 < k
    ensures Scaled(acc, weight, ReadInt(b, k))
         == if b[0] < 128 then Some((acc + Times(weight, b[0]), b[1..]))
            else Scaled(acc + Times(weight, b[0] % 128), Times(128, weight), ReadInt(b[1..], k - 1))
  {
    if b[0] >= 128 && ReadInt(b[1..], k - 1).Some? {
      var v := ReadInt(b[1..], k - 1).value.0;
      var c: nat := b[0] % 128;
      assert c == b[0] - 128;
      Distribute(weight, c, v);
    }
  }

  lemma {:induction false} Distribute(w: nat, c: nat, v: nat)
    ensures Times(w, c + 128 * v) == Times(w, c) + Times(Times(128, w), v)
  {
    assert w * (c + 128 * v) == w * c + w * (128 * v);
    assert w * (128 * v) == (128 * w) * v;
  }

  /** Cutting to 64 bits at every step is cutting at the end. */
  lemma {:induction false} CutStep(acc: nat, value: nat, part: nat)
    requires value == acc % U64
    ensures (value + part) % U64 == (acc + part) % U64
  {
  }

  /** The value is kept to 64 bits at every step, as a shifted 64-bit word is. */
  method Base128Decode(c: Cursor) returns (r: Option<nat>)
    modifies c
    ensures match ReadInt(old(c.rest), WORST_CASE_SIZE)
            case None => r == None
            case Some((v, rest)) => r == Some(v % U64) && c.rest == rest
  {
    hide ReadInt, Times;
    var b := c.rest;
    var value, weight: nat := 0, 1;
    ghost var acc: nat := 0;
    StartScaled(ReadInt(b, WORST_CASE_SIZE));
    assert b[0..] == b;
    var i := 0;
    while i < |b| && i < WORST_CASE_SIZE
      invariant i <= |b| && i <= WORST_CASE_SIZE && c.rest == b
      invariant value == acc % U64
      invariant ReadInt(b, WORST_CASE_SIZE) == Scaled(acc, weight, ReadInt(b[i..], WORST_CASE_SIZE - i))
    {
      ReadStep(b[i..], WORST_CASE_SIZE - i, acc, weight);
      assert b[i..][1..] == b[i + 1..];
      var part := Times(weight, b[i] % 128);
      CutStep(acc, value, part);
      value := (value + part) % U64;
      acc := acc + part;
      weight := Times(128, weight);
      if b[i] < 128 {
        c.rest := b[i + 1..];
        return Some(value);
      }
      i := i + 1;
    }
    ReadNothing(b[i..], WORST_CASE_SIZE - i);
    r := None;
  }

  lemma {:induction false} StartScaled(r: Option<(nat, seq<Byte>)>)
    ensures Scaled(0, 1, r) == r
  {
  }

  lemma {:induction false} ReadNothing(b: seq<Byte>, k: nat)
    requires b == [] || k == 0
    ensures ReadInt(b, k) == None
  {
  }

  method TakeInt(bits: nat, c: Cursor) returns (r: Option<nat>)
    modifies c
    ensures match DecodeInt(bits, old(c.rest))
            case None => r == None
            case Some((n, rest)) => r == Some(n) && c.rest == rest
  {
    hide ReadInt;
    r := Base128Decode(c);
    if r.Some? && !IntFits(bits, r.value) { r := None; }
  }

  method TakeFlag(c: Cursor) returns (r: Option<bool>)
    modifies c
    ensures match DecodeFlag(old(c.rest))
            case None => r == None
            case Some((f, rest)) => r == Some(f) && c.rest == rest
  {
    if c.rest == [] || c.rest[0] > 1 { return None; }
    r := Some(c.rest[0] == 1);
    c.rest := c.rest[1..];
  }

  method DecodeValue(s: Schema, c: Cursor) returns (r: Option<Value>)
    modifies c
    ensures match Decode(s, old(c.rest))
            case None => r == None
            case Some((v, rest)) => r == Some(v) && c.rest == rest
    decreases s, 0
  {
    hide DecodeInt, DecodeAll, DecodeFlag;
    match s {
      case Unit => r := Some(Nothing);
      case Bool =>
        var f := TakeFlag(c);
        r := if f.None? then None else Some(Flag(f.value));
      case U8 =>
        if c.rest == [] { return None; }
        r := Some(Number(c.rest[0]));
        c.rest := c.rest[1..];
      case Int(bits) =>
        var n := TakeInt(bits, c);
        r := if n.None? then None else Some(Number(n.value));
      case Slice =>
        var n := TakeInt(64, c);
        if n.None? || |c.rest| < n.value { return None; }
        r := Some(Raw(c.rest[..n.value]));
        c.rest := c.rest[n.value..];
      case Array(e, n) => r := DecodeItems(e, n, c);
      case Opt(e) =>
        var f := TakeFlag(c);
        if f.None? { return None; }
        if !f.value { return Some(Absent); }
        var v := DecodeValue(e, c);
        r := if v.None? then None else Some(Present(v.value));
      case Res(a, b) =>
        var f := TakeFlag(c);
        if f.None? { return None; }
        var v := DecodeValue(if f.value then a else b, c);
        r := if v.None? then None else Some(if f.value then Good(v.value) else Bad(v.value));
      case Pair(a, b) =>
        var v := DecodeValue(a, c);
        if v.None? { return None; }
        var w := DecodeValue(b, c);
        r := if w.None? then None else Some(Both(v.value, w.value));
      case Vec(e) =>
        var n := TakeInt(64, c);
        if n.None? || n.value > |c.rest| { return None; }
        r := DecodeItems(e, n.value, c);
    }
  }

  method DecodeItems(e: Schema, n: nat, c: Cursor) returns (r: Option<Value>)
    modifies c
    ensures match Listed(DecodeAll(e, n, [], old(c.rest)))
            case None => r == None
            case Some((v, rest)) => r == Some(v) && c.rest == rest
    decreases e, n + 1
  {
    hide Decode;
    var vs: seq<Value> := [];
    var i := 0;
    while i < n
      invariant i <= n
      invariant DecodeAll(e, n, [], old(c.rest)) == DecodeAll(e, n - i, vs, c.rest)
    {
      var v := DecodeValue(e, c);
      if v.None? { return None; }
      vs := vs + [v.value];
      i := i + 1;
    }
    r := Some(List(vs));
  }

  /** `decode_exact`: a value only when nothing is left over. */
  method DecodeExact(s: Schema, b: seq<Byte>) returns (r: Option<Value>)
    ensures forall v :: r == Some(v) <==> Decode(s, b) == Some((v, []))
  {
    hide Decode;
    var c := new Cursor(b);
    r := DecodeValue(s, c);
    if c.rest != [] { r := None; }
  }

  /** Whatever fits its slice comes back from it. */
  method ThereAndBack(s: Schema, v: Value, len: nat) returns (r: Option<Value>)
    requires Sound(s) && HasType(s, v)
    ensures r == if |Encode(s, v)| <= len then Some(v) else None
  {
    hide Encode, Decode, HasType, Sound;
    var code := EncodeToSlice(s, v, len);
    if code.None? { return None; }
    RoundTrip(s, v, []);
    assert Encode(s, v) + [] == Encode(s, v);
    r := DecodeExact(s, code.value);
  }
}
