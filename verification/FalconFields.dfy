/** Falcon's fixed-width packers: coefficients modulo q in 14 bits each, and small signed
    coefficients in a given number of bits each, without the most negative value. */
module FalconFields {
  import opened Wrappers
  import opened Arithmetic
  import opened Octets
  import opened Bits
  import opened FalconCodec

  const Q := 12289

  /** How a coefficient is packed. `Trimmed` is for both 8-bit and 16-bit coefficients. */
  datatype Format = ModQ | Trimmed(bits: nat)
  {
    predicate Valid() { Trimmed? ==> 1 <= bits <= 16 }

    function Width(): nat { if ModQ? then 14 else bits }

    function Top(): nat
      requires Valid()
    {
      Shl(1, Width() - 1)
    }

    /** The check every encoder begins with. */
    predicate Accepts(x: int)
      requires Valid()
    {
      if ModQ? then 0 <= x < Q else -(Top() - 1) <= x <= Top() - 1
    }

    /** The coefficient's field: its two's complement in `Width` bits. */
    function ToField(x: int): nat
      requires Valid() && Accepts(x)
      ensures ToField(x) < Shl(1, Width())
    {
      assert Shl(1, Width()) == 2 * Top();
      QFits();
      if x < 0 then x + Shl(1, Width()) else x
    }

    /** The check every decoder makes of a field. */
    predicate AcceptsField(w: nat)
      requires Valid()
    {
      if ModQ? then w < Q else w != Top()
    }

    function FromField(w: nat): int
      requires Valid()
    {
      if Trimmed? && w >= Top() then w - Shl(1, Width()) else w
    }

    lemma {:induction false} FieldRoundTrip(x: int)
      requires Valid() && Accepts(x)
      ensures AcceptsField(ToField(x)) && FromField(ToField(x)) == x
    {
      assert Shl(1, Width()) == 2 * Top();
      QFits();
    }

    lemma {:induction false} ValueRoundTrip(w: nat)
      requires Valid() && AcceptsField(w) && w < Shl(1, Width())
      ensures Accepts(FromField(w)) && ToField(FromField(w)) == w
    {
      assert Shl(1, Width()) == 2 * Top();
    }
  }

  lemma {:induction false} QFits()
    ensures Shl(1, 14) == 16384 && Shl(1, 13) == 8192
  {
    ShlBy7And8(1);
    ShlBy7And8(Shl(1, 7));
    ShlTwice(1, 7, 7);
    assert Shl(1, 14) == 2 * Shl(1, 13);
  }

  predicate AllAccepted(f: Format, xs: seq<int>)
    requires f.Valid()
  {
    forall i :: 0 <= i < |xs| ==> f.Accepts(xs[i])
  }

  function Fields(f: Format, xs: seq<int>): seq<bool>
    requires f.Valid() && AllAccepted(f, xs)
  {
    if xs == [] then [] else BitsOf(f.ToField(xs[0]), f.Width()) + Fields(f, xs[1..])
  }

  /** Bits of m fields. */
  function Total(w: nat, m: nat): nat { if m == 0 then 0 else w + Total(w, m - 1) }

  lemma {:induction false} TotalIsProduct(w: nat, m: nat)
    ensures Total(w, m) == m * w
  {
    if m == 0 {
    } else {
      TotalIsProduct(w, m - 1);
      assert m * w == (m - 1) * w + w;
    }
  }

  lemma {:induction false} FieldsLength(f: Format, xs: seq<int>)
    requires f.Valid() && AllAccepted(f, xs)
    ensures |Fields(f, xs)| == Total(f.Width(), |xs|)
  {
    hide BitsOf;
    if xs == [] {
    } else {
      FieldsLength(f, xs[1..]);
    }
  }

  lemma {:induction false} FieldsAppend(f: Format, xs: seq<int>, ys: seq<int>)
    requires f.Valid() && AllAccepted(f, xs) && AllAccepted(f, ys)
    ensures AllAccepted(f, xs + ys) && Fields(f, xs + ys) == Fields(f, xs) + Fields(f, ys)
  {
    hide BitsOf;
    if xs == [] {
      assert xs + ys == ys;
    } else {
      assert (xs + ys)[1..] == xs[1..] + ys;
      FieldsAppend(f, xs[1..], ys);
    }
  }

  lemma {:induction false} FieldsStep(f: Format, xs: seq<int>, u: nat)
    requires f.Valid() && AllAccepted(f, xs) && u < |xs|
    ensures AllAccepted(f, xs[..u]) && AllAccepted(f, xs[..u + 1])
    ensures Fields(f, xs[..u + 1]) == Fields(f, xs[..u]) + BitsOf(f.ToField(xs[u]), f.Width())
    ensures |Fields(f, xs[..u + 1])| <= |Fields(f, xs)|
  {
    hide BitsOf, Format.Accepts, Format.ToField;
    FieldsAppend(f, xs[..u], [xs[u]]);
    assert xs[..u] + [xs[u]] == xs[..u + 1];
    assert Fields(f, [xs[u]]) == BitsOf(f.ToField(xs[u]), f.Width()) + Fields(f, []);
    FieldsAppend(f, xs[..u + 1], xs[u + 1..]);
    assert xs[..u + 1] + xs[u + 1..] == xs;
  }

  /** What is packed and how: coefficients from 0 to 12288 in 14 bits, or numbers of a given width in two's complement
      but for the smallest; the highest bit first, in order. */
  lemma {:induction false} FieldLayout(f: Format, x: int, xs: seq<int>, ys: seq<int>)
    requires f.Valid()
    ensures match f
            case ModQ => f.Accepts(x) <==> 0 <= x <= 12288
            case Trimmed(bits) => f.Accepts(x) <==> 0 - Shl(1, bits - 1) < x < Shl(1, bits - 1)
    ensures f.Accepts(x) ==>
              var w := if f.ModQ? then 14 else f.bits;
              0 <= x + Shl(1, w) && Fields(f, [x]) == BitsOf(if x < 0 then x + Shl(1, w) else x, w)
    ensures AllAccepted(f, xs) && AllAccepted(f, ys) ==>
              AllAccepted(f, xs + ys) && Fields(f, xs + ys) == Fields(f, xs) + Fields(f, ys)
  {
    if AllAccepted(f, xs) && AllAccepted(f, ys) { FieldsAppend(f, xs, ys); }
    hide BitsOf, Fields, AllAccepted;
    if f.Accepts(x) { OneField(f, x); }
  }

  lemma {:induction false} OneField(f: Format, x: int)
    requires f.Valid() && f.Accepts(x)
    ensures AllAccepted(f, [x]) && Fields(f, [x]) == BitsOf(f.ToField(x), f.Width())
    ensures Shl(1, f.Width()) == 2 * f.Top()
  {
    hide BitsOf;
    assert [x][1..] == [];
    assert BitsOf(f.ToField(x), f.Width()) + [] == BitsOf(f.ToField(x), f.Width());
  }

  // ------------------------------------------------------------------- parser

  function ParseFields(f: Format, xs: seq<int>, n: nat, b: seq<bool>): (r: Option<(seq<int>, seq<bool>)>)
    requires f.Valid()
    ensures r.Some? ==> |r.value.1| <= |b|
    decreases n
  {
    if n == 0 then Some((xs, b))
    else if |b| < f.Width() || !f.AcceptsField(ValueOf(b[..f.Width()])) then None
    else ParseFields(f, xs + [f.FromField(ValueOf(b[..f.Width()]))], n - 1, b[f.Width()..])
  }

  lemma {:induction false} SplitAt(xs: seq<int>, x: int, ys: seq<int>)
    requires |xs| < |ys| && ys[..|xs| + 1] == xs + [x]
    ensures ys[..|xs|] == xs && ys[|xs|..] == [x] + ys[|xs| + 1..]
  {
    assert ys[|xs|] == ys[..|xs| + 1][|xs|];
    assert ys[..|xs|] == ys[..|xs| + 1][..|xs|];
  }

  /** One accepted field in front. */
  lemma {:induction false} FieldsFirst(f: Format, x: int, ys: seq<int>)
    requires f.Valid() && f.Accepts(x) && AllAccepted(f, ys)
    ensures AllAccepted(f, [x] + ys) && Fields(f, [x] + ys) == BitsOf(f.ToField(x), f.Width()) + Fields(f, ys)
  {
    hide BitsOf, Shl, Format.Accepts, Format.ToField, Format.Valid;
    var all := [x] + ys;
    assert all[1..] == ys;
    assert forall i :: 0 < i < |all| ==> all[i] == ys[i - 1];
  }

  lemma {:induction false} ParseFieldsSound(f: Format, xs: seq<int>, n: nat, b: seq<bool>)
    requires f.Valid() && ParseFields(f, xs, n, b).Some?
    ensures var (ys, rest) := ParseFields(f, xs, n, b).value;
            && |ys| == |xs| + n && ys[..|xs|] == xs
            && AllAccepted(f, ys[|xs|..]) && b == Fields(f, ys[|xs|..]) + rest
    decreases n
  {
    hide BitsOf, ValueOf, Shl, Format.Accepts, Format.ToField, Format.AcceptsField, Format.FromField, Fields, AllAccepted;
    if n == 0 {
      NothingAccepted(f);
      assert xs[|xs|..] == [] && [] + b == b;
    } else {
      var k := f.Width();
      var w := ValueOf(b[..k]);
      BitsOfValue(b[..k]);
      f.ValueRoundTrip(w);
      var x := f.FromField(w);
      assert ParseFields(f, xs, n, b) == ParseFields(f, xs + [x], n - 1, b[k..]);
      hide ParseFields;
      ParseFieldsSound(f, xs + [x], n - 1, b[k..]);
      var (ys, rest) := ParseFields(f, xs, n, b).value;
      SplitAt(xs, x, ys);
      FieldsFirst(f, x, ys[|xs| + 1..]);
      SplitBits(b, k, Fields(f, ys[|xs| + 1..]), rest);
    }
  }

  lemma {:induction false} SplitBits(b: seq<bool>, k: nat, more: seq<bool>, rest: seq<bool>)
    requires k <= |b| && b[k..] == more + rest
    ensures b == b[..k] + more + rest
  {
    assert b == b[..k] + b[k..];
  }

  lemma {:induction false} NothingAccepted(f: Format)
    requires f.Valid()
    ensures AllAccepted(f, []) && Fields(f, []) == []
  {
  }

  lemma {:induction false} ParseFieldsComplete(f: Format, xs: seq<int>, ys: seq<int>, rest: seq<bool>)
    requires f.Valid() && AllAccepted(f, ys)
    ensures ParseFields(f, xs, |ys|, Fields(f, ys) + rest) == Some((xs + ys, rest))
    decreases |ys|
  {
    hide BitsOf, ValueOf, Shl, Format.Accepts, Format.ToField, Format.AcceptsField, Format.FromField;
    if ys == [] {
      assert xs + ys == xs && Fields(f, ys) + rest == rest;
    } else {
      var k := f.Width();
      var more := Fields(f, ys[1..]) + rest;
      var b := Fields(f, ys) + rest;
      f.FieldRoundTrip(ys[0]);
      ValueOfBits(f.ToField(ys[0]), k);
      assert b[..k] == BitsOf(f.ToField(ys[0]), k) && b[k..] == more;
      ParseFieldsComplete(f, xs + [ys[0]], ys[1..], rest);
      assert xs + [ys[0]] + ys[1..] == xs + ys;
    }
  }

  /** What a decoder accepts: n fields that pass its check, then zero bits to the end of the
      last byte. */
  function Unpacked(f: Format, n: nat, input: seq<Byte>): Option<(seq<int>, nat)>
    requires f.Valid()
  {
    var k := PackedLength(n * f.Width());
    if |input| < k then None
    else match ParseFields(f, [], n, BytesBits(input[..k]))
      case None => None
      case Some((xs, rest)) => if rest == Zeros(|rest|) then Some((xs, k)) else None
  }

  lemma {:induction false} UnpackPacked(f: Format, x: seq<int>, out: seq<Byte>, suffix: seq<Byte>)
    requires f.Valid() && AllAccepted(f, x) && BytesBits(out) == Padded(Fields(f, x))
    ensures Unpacked(f, |x|, out + suffix) == Some((x, |out|))
  {
    hide BytesBits, Fields, ParseFields, AllAccepted, Format.Width, Format.Valid;
    FieldsLength(f, x);
    TotalIsProduct(f.Width(), |x|);
    var n := |Fields(f, x)|;
    assert 8 * |out| == n + Padding(n);
    assert PackedLength(n) == |out|;
    assert (out + suffix)[..|out|] == out;
    ParseFieldsComplete(f, [], x, Zeros(Padding(n)));
    assert [] + x == x;
  }

  lemma {:induction false} PackUnpacked(f: Format, n: nat, input: seq<Byte>)
    requires f.Valid() && Unpacked(f, n, input).Some?
    ensures var (x, v) := Unpacked(f, n, input).value;
            && |x| == n && AllAccepted(f, x) && v == PackedLength(n * f.Width()) <= |input|
            && BytesBits(input[..v]) == Padded(Fields(f, x))
            && forall out: seq<Byte> :: BytesBits(out) == Padded(Fields(f, x)) ==> out == input[..v]
  {
    hide BytesBits, Fields, ParseFields, AllAccepted, Format.Width, Format.Valid, Total, Padding, PackedLength;
    var k := PackedLength(n * f.Width());
    ParseFieldsSound(f, [], n, BytesBits(input[..k]));
    var (x, rest) := ParseFields(f, [], n, BytesBits(input[..k])).value;
    assert x[0..] == x;
    FieldsLength(f, x);
    TotalIsProduct(f.Width(), n);
    var c := |Fields(f, x)|;
    RestIsPadding(c, |rest|, k);
    forall out: seq<Byte> | BytesBits(out) == Padded(Fields(f, x)) ensures out == input[..k] {
      BytesBitsInjective(out, input[..k]);
    }
  }

  lemma {:induction false} RestIsPadding(c: nat, r: nat, k: nat)
    requires k == PackedLength(c) && c + r == 8 * k
    ensures r == Padding(c)
  {
  }

  // ----------------------------------------------------------------- encoders

  /** The packing loop that the three encoders share. */
  method Pack(f: Format, out: array<Byte>, x: seq<int>)
    requires f.Valid() && AllAccepted(f, x)
    requires PackedLength(|Fields(f, x)|) <= out.Length
    modifies out
    ensures var v := PackedLength(|Fields(f, x)|);
            BytesBits(out[..v]) == Padded(Fields(f, x)) && out[v..] == old(out[v..])
  {
    hide BytesBits, Fields, BitsOf, Padded, Shl, Push, Format.Accepts, Format.ToField;
    var acc: nat, accLen: nat, v: nat, ok := 0, 0, 0, true;
    ghost var before := out[..];
    ghost var bits: seq<bool> := [];
    NoFields(f, x);
    assert out[..0] == [];
    for u := 0 to |x|
      invariant accLen < 8 && Wrote(out, v, bits, before)
      invariant AllAccepted(f, x[..u]) && Fields(f, x[..u]) == bits + BitsOf(acc, accLen)
    {
      FieldsStep(f, x, u);
      var w := f.ToField(x[u]);
      PushBits(acc, accLen, w, f.Width());
      ghost var held := BitsOf(acc, accLen);
      acc, accLen := Push(acc, f.Width(), w), accLen + f.Width();
      assert bits + (held + BitsOf(w, f.Width())) == bits + held + BitsOf(w, f.Width());
      ok, v, accLen, bits := EmitBytes(out, v, acc, accLen, bits, before);
      assert ok;
    }
    assert x[..|x|] == x;
    ok, v := EmitLast(out, v, acc, accLen, bits, before);
  }

  lemma {:induction false} NoFields(f: Format, x: seq<int>)
    requires f.Valid()
    ensures AllAccepted(f, x[..0]) && Fields(f, x[..0]) == [] && BytesBits([]) == [] && BitsOf(0, 0) == []
  {
  }

  /** `modq_encode`, `trim_i8_encode` and `trim_i16_encode`: check every coefficient and the
      room, then pack. Without a buffer only the length is answered. */
  method Encode(f: Format, out: array?<Byte>, x: seq<int>) returns (v: nat)
    requires f.Valid() && x != []
    modifies out
    ensures v == (if !AllAccepted(f, x) || (out != null && out.Length < PackedLength(|x| * f.Width()))
                  then 0 else PackedLength(|x| * f.Width()))
    ensures v != 0 && out != null ==>
              BytesBits(out[..v]) == Padded(Fields(f, x)) && out[v..] == old(out[v..])
  {
    hide BytesBits, Fields, BitsOf, Padded, Format.Accepts;
    for u := 0 to |x|
      invariant AllAccepted(f, x[..u])
    {
      if !f.Accepts(x[u]) { return 0; }
    }
    assert x[..|x|] == x;
    var outLen := PackedLength(|x| * f.Width());
    if out == null { return outLen; }
    if out.Length < outLen { return 0; }
    FieldsLength(f, x);
    TotalIsProduct(f.Width(), |x|);
    Pack(f, out, x);
    v := outLen;
  }

  // ----------------------------------------------------------------- decoders

  /** One field leaves the accumulator. */
  lemma {:induction false} FieldStep(f: Format, xs: seq<int>, n: nat, input: seq<Byte>, v: nat, acc: nat, accLen: nat)
    requires f.Valid() && v <= |input| && f.Width() <= accLen && 0 < n
    ensures 0 < Shl(1, f.Width())
    ensures var k := f.Width();
            var w := Shr(acc, accLen - k) % Shl(1, k);
            ParseFields(f, xs, n, Stream(input, v, acc, accLen))
              == if !f.AcceptsField(w) then None
                 else ParseFields(f, xs + [f.FromField(w)], n - 1, Stream(input, v, acc, accLen - k))
  {
    hide BitsOf, BytesBits, Shr, Shl, ValueOf, Format.AcceptsField, Format.FromField;
    var k := f.Width();
    var s := Stream(input, v, acc, accLen);
    HighBits(acc, k, accLen - k);
    LowBits(acc, k, accLen - k);
    MaskIsValue(Shr(acc, accLen - k), k);
    assert s[..k] == BitsOf(acc, accLen)[..k];
    assert s[k..] == Stream(input, v, acc, accLen - k);
  }

  /** The inner loop of a decoder: takes whole fields out of the accumulator. */
  method TakeFields(f: Format, x: array<int>, n: nat, u0: nat, acc: nat, accLen0: nat,
                    ghost input: seq<Byte>, ghost v: nat) returns (ok: bool, u: nat, accLen: nat)
    requires f.Valid() && u0 <= n <= x.Length && v <= |input|
    requires Total(f.Width(), n - u0) <= accLen0 + 8 * (|input| - v) < Total(f.Width(), n - u0) + 8
    modifies x
    ensures u0 <= u <= n && x[n..] == old(x[n..])
    ensures ParseFields(f, old(x[..u0]), n - u0, Stream(input, v, acc, accLen0))
         == if ok then ParseFields(f, x[..u], n - u, Stream(input, v, acc, accLen)) else None
    ensures ok && u < n ==> accLen < f.Width()
    ensures ok ==> Total(f.Width(), n - u) <= accLen + 8 * (|input| - v) < Total(f.Width(), n - u) + 8
  {
    hide BitsOf, BytesBits, Shr, Shl, Stream, ParseFields, Total, Format.AcceptsField, Format.FromField, Format.Width;
    var k := f.Width();
    u, accLen := u0, accLen0;
    while k <= accLen && u < n
      invariant u0 <= u <= n && x[n..] == old(x[n..])
      invariant Total(k, n - u) <= accLen + 8 * (|input| - v) < Total(k, n - u) + 8
      invariant ParseFields(f, old(x[..u0]), n - u0, Stream(input, v, acc, accLen0))
             == ParseFields(f, x[..u], n - u, Stream(input, v, acc, accLen))
      decreases n - u
    {
      FieldStep(f, x[..u], n - u, input, v, acc, accLen);
      TotalStep(k, n - u);
      var w := Shr(acc, accLen - k) % Shl(1, k);
      if !f.AcceptsField(w) { return false, u, accLen; }
      accLen := accLen - k;
      ghost var before := x[..u];
      x[u] := f.FromField(w);
      u := u + 1;
      assert x[..u] == before + [f.FromField(w)];
    }
    ok := true;
  }

  lemma {:induction false} TotalStep(w: nat, m: nat)
    ensures 0 < m ==> Total(w, m) == w + Total(w, m - 1)
    ensures Total(w, 0) == 0
  {
  }

  /** The outer loop: reads exactly the bytes that n fields take. */
  method DecodeAll(f: Format, x: array<int>, n: nat, input: seq<Byte>) returns (ok: bool)
    requires f.Valid() && 0 < n <= x.Length && |input| == PackedLength(Total(f.Width(), n))
    modifies x
    ensures match ParseFields(f, [], n, BytesBits(input))
            case None => !ok
            case Some((ys, rest)) => ok == (rest == Zeros(|rest|)) && x[..n] == ys
    ensures x[n..] == old(x[n..])
  {
    hide BitsOf, BytesBits, Shl, Stream, ParseFields, Total, Format.Width;
    var k := f.Width();
    WidthBounds(f);
    var acc: nat, accLen: nat, u: nat, v: nat := 0, 0, 0, 0;
    StartStream(input);
    assert x[..0] == [];
    while u < n
      invariant u <= n && v <= |input| && x[n..] == old(x[n..])
      invariant u < n ==> accLen < k
      invariant Total(k, n - u) <= accLen + 8 * (|input| - v) < Total(k, n - u) + 8
      invariant ParseFields(f, [], n, BytesBits(input)) == ParseFields(f, x[..u], n - u, Stream(input, v, acc, accLen))
      decreases |input| - v
    {
      TotalStep(k, n - u);
      ReadByte(input, v, acc, accLen);
      acc, accLen, v := Push(acc, 8, input[v]), accLen + 8, v + 1;
      ok, u, accLen := TakeFields(f, x, n, u, acc, accLen, input, v);
      if !ok { return; }
    }
    TotalStep(k, 0);
    FieldsEnd(f, x[..n], input, acc, accLen);
    MaskIsZero(acc, accLen);
    ok := acc % Shl(1, accLen) == 0;
  }

  /** `modq_decode`, `trim_i8_decode` and `trim_i16_decode`. */
  method Decode(f: Format, x: array<int>, n: nat, input: seq<Byte>) returns (v: nat)
    requires f.Valid() && 0 < n <= x.Length
    modifies x
    ensures match Unpacked(f, n, input)
            case None => v == 0
            case Some((ys, k)) => v == k && x[..n] == ys
    ensures x[n..] == old(x[n..])
  {
    hide BytesBits, ParseFields, Total, Format.Width;
    TotalIsProduct(f.Width(), n);
    var inLen := PackedLength(n * f.Width());
    if |input| < inLen { return 0; }
    var ok := DecodeAll(f, x, n, input[..inLen]);
    v := if ok then inLen else 0;
  }

  lemma {:induction false} WidthBounds(f: Format)
    requires f.Valid()
    ensures 1 <= f.Width() <= 16
  {
  }

  lemma {:induction false} FieldsEnd(f: Format, xs: seq<int>, input: seq<Byte>, acc: nat, accLen: nat)
    requires f.Valid()
    ensures ParseFields(f, xs, 0, Stream(input, |input|, acc, accLen)) == Some((xs, BitsOf(acc, accLen)))
  {
    hide BitsOf;
    assert input[|input|..] == [];
    assert BitsOf(acc, accLen) + [] == BitsOf(acc, accLen);
  }
}
