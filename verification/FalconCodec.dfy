/** The bit-level codecs of Falcon: the compressed form of a signature and the fixed-width
    forms of keys.

    A 32-bit accumulator collects bits at its low end and gives up bytes from above. Every
    `acc << k | w` here has w below 2^k, so it is written as a sum. */
module FalconCodec {
  import opened Wrappers
  import opened Arithmetic
  import opened Octets
  import opened Bits

  // -------------------------------------------------------------- accumulator

  /** `acc << k | w` */
  function Push(acc: nat, k: nat, w: nat): nat { U32(Shl(acc, k) + w) }

  /** `(acc >> k) as u8` */
  function ByteAt(acc: nat, k: nat): Byte { Shr(acc, k) % 256 }

  lemma {:induction false} PushBits(acc: nat, j: nat, w: nat, k: nat)
    requires w < Shl(1, k) && j + k <= 32
    ensures BitsOf(Push(acc, k, w), j + k) == BitsOf(acc, j) + BitsOf(w, k)
  {
    hide BitsOf, Shl;
    AppendBits(acc, j, w, k);
    TruncationKeeps(Shl(acc, k) + w, j + k);
  }

  lemma {:induction false} TopByte(acc: nat, k: nat)
    ensures BitsOf(acc, 8 + k) == BitsOf(ByteAt(acc, k), 8) + BitsOf(acc, k)
  {
    hide BitsOf, Shr;
    HighBits(acc, 8, k);
    LowBits(acc, 8, k);
    LowByte(Shr(acc, k));
    var b := BitsOf(acc, 8 + k);
    assert b == b[..8] + b[8..];
  }

  /** The last, zero-padded byte: `(acc << (8 - k)) as u8`. */
  lemma {:induction false} LastByte(acc: nat, k: nat)
    requires k <= 8
    ensures BitsOf(Push(acc, 8 - k, 0) % 256, 8) == BitsOf(acc, k) + Bits.Zeros(8 - k)
  {
    hide BitsOf, Shl, Push;
    ZeroBits(8 - k);
    PushBits(acc, k, 0, 8 - k);
    LowByte(Push(acc, 8 - k, 0));
  }

  lemma {:induction false} HalveMod(v: nat, p: nat)
    requires 0 < p
    ensures v % (2 * p) == 2 * (v / 2 % p) + v % 2
  {
    var h := v / 2;
    var q, r := h / p, h % p;
    DivMod(h, p);
    assert v == 2 * (p * q) + (2 * r + v % 2);
    assert 2 * (p * q) == (2 * p) * q;
    ModUnique(v, 2 * p, q, 2 * r + v % 2);
  }

  lemma {:induction false} DivMod(h: nat, p: nat)
    requires 0 < p
    ensures 0 <= h / p && 0 <= h % p < p && h == p * (h / p) + h % p
  {
  }

  /** `v & ((1 << k) - 1)` */
  lemma {:induction false} MaskIsValue(v: nat, k: nat)
    ensures 0 < Shl(1, k) && v % Shl(1, k) == ValueOf(BitsOf(v, k))
  {
    if k == 0 {
    } else {
      MaskIsValue(v / 2, k - 1);
      HalveMod(v, Shl(1, k - 1));
      var b := BitsOf(v, k);
      assert b[..k - 1] == BitsOf(v / 2, k - 1);
    }
  }

  lemma {:induction false} MaskIsZero(v: nat, k: nat)
    ensures 0 < Shl(1, k)
    ensures v % Shl(1, k) == 0 <==> BitsOf(v, k) == Bits.Zeros(k)
  {
    hide BitsOf, Shl, ValueOf;
    MaskIsValue(v, k);
    BitsOfValue(BitsOf(v, k));
    AllZero(ValueOf(BitsOf(v, k)), k);
  }

  function PackedLength(bits: nat): nat { (bits + 7) / 8 }

  // --------------------------------------------------- compressed signatures

  predicate InRange(x: int) { -2047 <= x <= 2047 }

  predicate AllInRange(xs: seq<int>) { forall i :: 0 <= i < |xs| ==> InRange(xs[i]) }

  function Abs(x: int): nat { if x < 0 then -x else x }

  /** Sign, seven low bits, and the rest in unary. */
  function Code(x: int): seq<bool> {
    [x < 0] + BitsOf(Abs(x) % 128, 7) + Bits.Zeros(Abs(x) / 128) + [true]
  }

  function Codes(xs: seq<int>): seq<bool> {
    if xs == [] then [] else Code(xs[0]) + Codes(xs[1..])
  }

  lemma {:induction false} CodesAppend(xs: seq<int>, ys: seq<int>)
    ensures Codes(xs + ys) == Codes(xs) + Codes(ys)
  {
    hide Code;
    if xs == [] {
      assert xs + ys == ys;
    } else {
      assert (xs + ys)[1..] == xs[1..] + ys;
      CodesAppend(xs[1..], ys);
    }
  }

  lemma {:induction false} CodesStep(xs: seq<int>, u: nat)
    requires u < |xs|
    ensures Codes(xs[..u + 1]) == Codes(xs[..u]) + Code(xs[u])
    ensures |Codes(xs[..u + 1])| <= |Codes(xs)|
    ensures |Code(xs[u])| == 9 + Abs(xs[u]) / 128
  {
    CodesAppend(xs[..u], [xs[u]]);
    assert xs[..u] + [xs[u]] == xs[..u + 1];
    assert Codes([xs[u]]) == Code(xs[u]) + Codes([]);
    CodesAppend(xs[..u + 1], xs[u + 1..]);
    assert xs[..u + 1] + xs[u + 1..] == xs;
  }

  /** How a coefficient is written: a bit for its sign, seven bits for its size modulo 128, the highest first, a zero
      for each further 128 in it, and a one. Coefficients follow each other in order. */
  lemma {:induction false} CodeLayout(x: int, xs: seq<int>, ys: seq<int>)
    ensures var c, size := Codes([x]), if x < 0 then -x else x;
            && |c| == 9 + size / 128
            && c[0] == (x < 0)
            && 64 * Bit(c[1]) + 32 * Bit(c[2]) + 16 * Bit(c[3]) + 8 * Bit(c[4]) + 4 * Bit(c[5]) + 2 * Bit(c[6]) + Bit(c[7]) == size % 128
            && (forall i :: 8 <= i < 8 + size / 128 ==> !c[i]) && c[8 + size / 128]
    ensures Codes([]) == [] && Codes(xs + ys) == Codes(xs) + Codes(ys)
  {
    hide BitsOf;
    CodesAppend(xs, ys);
    assert Codes([x]) == Code(x) + Codes([]);
    SevenBits(Abs(x) % 128);
  }

  lemma {:induction false} SevenBits(v: nat)
    requires v < 128
    ensures var b := BitsOf(v, 7);
            v == 64 * Bit(b[0]) + 32 * Bit(b[1]) + 16 * Bit(b[2]) + 8 * Bit(b[3]) + 4 * Bit(b[4]) + 2 * Bit(b[5]) + Bit(b[6])
  {
    hide BitsOf, ValueOf, Bit, Shl;
    var b := BitsOf(v, 7);
    ShlBy7And8(1);
    ValueOfBits(v, 7);
    assert b[..7] == b;
    ValueOfStart(b);
    FourMore(b, 0);
    ValueOfPrefix(b, 4);
    ValueOfPrefix(b, 5);
    ValueOfPrefix(b, 6);
  }

  // ----- the parser the decoder follows

  function ParseUnary(m: nat, b: seq<bool>): (r: Option<(nat, seq<bool>)>)
    ensures r.Some? ==> |r.value.1| <= |b|
    decreases |b|
  {
    if b == [] then None
    else if b[0] then Some((m, b[1..]))
    else if m + 128 > 2047 then None
    else ParseUnary(m + 128, b[1..])
  }

  function ParseOne(b: seq<bool>): (r: Option<(int, seq<bool>)>)
    ensures r.Some? ==> |r.value.1| <= |b|
  {
    if |b| < 8 then None
    else match ParseUnary(ValueOf(b[1..8]), b[8..])
      case None => None
      case Some((m, rest)) =>
        var x: int := if b[0] then 0 - m else m;
        if b[0] && m == 0 then None else Some((x, rest))
  }

  function Parse(xs: seq<int>, n: nat, b: seq<bool>): (r: Option<(seq<int>, seq<bool>)>)
    ensures r.Some? ==> |r.value.1| <= |b|
    decreases n
  {
    if n == 0 then Some((xs, b))
    else match ParseOne(b)
      case None => None
      case Some((x, rest)) => Parse(xs + [x], n - 1, rest)
  }

  lemma {:induction false} ParseUnarySound(m: nat, b: seq<bool>)
    requires ParseUnary(m, b).Some?
    ensures var r := ParseUnary(m, b).value;
            && m <= r.0 && (r.0 - m) % 128 == 0 && (r.0 == m || r.0 <= 2047)
            && b == Bits.Zeros((r.0 - m) / 128) + [true] + r.1
    decreases |b|
  {
    if !b[0] {
      ParseUnarySound(m + 128, b[1..]);
      var k := (ParseUnary(m, b).value.0 - m) / 128;
      assert Bits.Zeros(k) == [false] + Bits.Zeros(k - 1);
      assert b == [false] + b[1..];
    } else {
      assert b == [true] + b[1..];
    }
  }

  lemma {:induction false} ParseUnaryComplete(m: nat, k: nat, rest: seq<bool>)
    requires k == 0 || m + 128 * k <= 2047
    ensures ParseUnary(m, Bits.Zeros(k) + [true] + rest) == Some((m + 128 * k, rest))
    decreases k
  {
    var b := Bits.Zeros(k) + [true] + rest;
    if k != 0 {
      ParseUnaryComplete(m + 128, k - 1, rest);
      assert b[1..] == Bits.Zeros(k - 1) + [true] + rest;
    } else {
      assert b[1..] == rest;
    }
  }

  lemma {:induction false} ParseOneSound(b: seq<bool>)
    requires ParseOne(b).Some?
    ensures var (x, rest) := ParseOne(b).value; InRange(x) && b == Code(x) + rest
  {
    hide ParseUnary, BitsOf, ValueOf, Shl;
    var m0 := ValueOf(b[1..8]);
    BitsOfValue(b[1..8]);
    ShlBy7And8(1);
    ParseUnarySound(m0, b[8..]);
    var (m, rest) := ParseUnary(m0, b[8..]).value;
    assert m % 128 == m0 && m / 128 == (m - m0) / 128;
    assert b == [b[0]] + b[1..8] + b[8..];
    var x := ParseOne(b).value.0;
    assert Abs(x) == m && (x < 0 <==> b[0]);
  }

  lemma {:induction false} ParseOneComplete(x: int, rest: seq<bool>)
    requires InRange(x)
    ensures ParseOne(Code(x) + rest) == Some((x, rest))
  {
    hide ParseUnary, BitsOf, ValueOf, Shl;
    var a, k := Abs(x), Abs(x) / 128;
    var b := Code(x) + rest;
    ShlBy7And8(1);
    ValueOfBits(a % 128, 7);
    assert b[1..8] == BitsOf(a % 128, 7);
    assert b[8..] == Bits.Zeros(k) + [true] + rest;
    ParseUnaryComplete(a % 128, k, rest);
  }

  lemma {:induction false} ParseSound(xs: seq<int>, n: nat, b: seq<bool>)
    requires Parse(xs, n, b).Some?
    ensures var (ys, rest) := Parse(xs, n, b).value;
            && |ys| == |xs| + n && ys[..|xs|] == xs
            && AllInRange(ys[|xs|..]) && b == Codes(ys[|xs|..]) + rest
    decreases n
  {
    hide ParseOne, Code;
    if n == 0 {
    } else {
      ParseOneSound(b);
      var (x, more) := ParseOne(b).value;
      ParseSound(xs + [x], n - 1, more);
      var (ys, rest) := Parse(xs, n, b).value;
      assert ys[|xs|] == ys[..|xs| + 1][|xs|] == x;
      assert ys[..|xs|] == ys[..|xs| + 1][..|xs|] == xs;
      var tail := ys[|xs|..];
      assert tail[1..] == ys[|xs| + 1..] && tail[0] == x;
      assert forall i :: 0 <= i < |tail| ==> InRange(tail[i]) by {
        forall i | 0 <= i < |tail| ensures InRange(tail[i]) {
          if i != 0 { assert tail[i] == tail[1..][i - 1]; }
        }
      }
      assert Code(x) + (Codes(tail[1..]) + rest) == Code(x) + Codes(tail[1..]) + rest;
    }
  }

  lemma {:induction false} ParseComplete(xs: seq<int>, ys: seq<int>, rest: seq<bool>)
    requires AllInRange(ys)
    ensures Parse(xs, |ys|, Codes(ys) + rest) == Some((xs + ys, rest))
    decreases |ys|
  {
    hide ParseOne, Code;
    if ys == [] {
      assert xs + ys == xs && Codes(ys) + rest == rest;
    } else {
      var more := Codes(ys[1..]) + rest;
      assert Codes(ys) + rest == Code(ys[0]) + more;
      ParseOneComplete(ys[0], more);
      ParseComplete(xs + [ys[0]], ys[1..], rest);
      assert xs + [ys[0]] + ys[1..] == xs + ys;
    }
  }

  /** What the decoder accepts: n coefficients, then zero bits up to a whole byte. It answers
      with the coefficients and the number of bytes they take. */
  function Decompressed(n: nat, input: seq<Byte>): Option<(seq<int>, nat)> {
    match Parse([], n, BytesBits(input))
    case None => None
    case Some((xs, rest)) =>
      if rest[..|rest| % 8] == Bits.Zeros(|rest| % 8)
      then Some((xs, (8 * |input| - |rest| + 7) / 8))
      else None
  }

  /** Decoding an encoding, whatever follows it, gives the coefficients and its length. */
  lemma {:induction false} DecompressCompressed(x: seq<int>, out: seq<Byte>, suffix: seq<Byte>)
    requires AllInRange(x) && BytesBits(out) == Padded(Codes(x))
    ensures Decompressed(|x|, out + suffix) == Some((x, |out|))
  {
    hide BytesBits, Codes, Parse, AllInRange;
    var c, p := Codes(x), Padding(|Codes(x)|);
    var rest := Bits.Zeros(p) + BytesBits(suffix);
    BytesBitsAppend(out, suffix);
    assert c + Bits.Zeros(p) + BytesBits(suffix) == c + rest;
    ParseComplete([], x, rest);
    assert [] + x == x;
    assert |rest| % 8 == p && rest[..p] == Bits.Zeros(p);
  }

  /** Whatever the decoder accepts is, byte for byte, the encoding of what it returns: no
      second spelling of zero, of a coefficient or of the padding. */
  lemma {:induction false} CompressDecompressed(n: nat, input: seq<Byte>)
    requires Decompressed(n, input).Some?
    ensures var (x, v) := Decompressed(n, input).value;
            && |x| == n && AllInRange(x) && v <= |input|
            && BytesBits(input[..v]) == Padded(Codes(x))
            && forall out: seq<Byte> :: BytesBits(out) == Padded(Codes(x)) ==> out == input[..v]
  {
    hide BytesBits, Codes, Parse;
    ParseSound([], n, BytesBits(input));
    var (x, rest) := Parse([], n, BytesBits(input)).value;
    assert x[0..] == x;
    var v := Decompressed(n, input).value.1;
    var c := Codes(x);
    var q := |rest| % 8;
    assert |c| + |rest| == 8 * |input|;
    PaddingIsLeftover(|c|, |rest|, |input|);
    BytesBitsAppend(input[..v], input[v..]);
    assert input[..v] + input[v..] == input;
    assert BytesBits(input[..v]) == (c + rest)[..8 * v];
    assert (c + rest)[..8 * v] == c + rest[..q];
    forall out: seq<Byte> | BytesBits(out) == Padded(c) ensures out == input[..v] {
      BytesBitsInjective(out, input[..v]);
    }
  }

  lemma {:induction false} PaddingIsLeftover(c: nat, r: nat, n: nat)
    requires c + r == 8 * n
    ensures Padding(c) == r % 8 && (8 * n - r + 7) / 8 <= n && 8 * ((8 * n - r + 7) / 8) == c + r % 8
  {
  }

  // ------------------------------------------------------------- output buffer

  /** The first v bytes of the output hold `bits`; the others are as they were. Without a
      buffer, bytes are only counted. */
  ghost predicate Wrote(out: array?<Byte>, v: nat, bits: seq<bool>, before: seq<Byte>)
    reads out
  {
    && |bits| == 8 * v
    && (out != null ==>
          && |before| == out.Length && v <= out.Length
          && BytesBits(out[..v]) == bits && out[v..] == before[v..])
  }

  /** Writes the next byte of the output; fails when the buffer is full. */
  method WriteByte(out: array?<Byte>, v: nat, b: Byte, ghost bits: seq<bool>, ghost before: seq<Byte>)
    returns (ok: bool)
    requires Wrote(out, v, bits, before)
    modifies out
    ensures ok <==> out == null || v < out.Length
    ensures ok ==> Wrote(out, v + 1, bits + BitsOf(b, 8), before)
  {
    hide BytesBits, BitsOf;
    if out != null {
      if v >= out.Length { return false; }
      BytesBitsSnoc(out[..v], b);
      out[v] := b;
      assert out[..v + 1] == old(out[..v]) + [b];
      assert out[v + 1..] == old(out[v..])[1..] == before[v..][1..] == before[v + 1..];
    }
    ok := true;
  }

  /** Writes out whole bytes until fewer than eight bits are left. */
  method EmitBytes(out: array?<Byte>, v0: nat, acc: nat, accLen0: nat,
                   ghost bits0: seq<bool>, ghost before: seq<Byte>)
    returns (ok: bool, v: nat, accLen: nat, ghost bits: seq<bool>)
    requires Wrote(out, v0, bits0, before)
    modifies out
    ensures ok ==> accLen < 8 && Wrote(out, v, bits, before)
    ensures ok ==> bits + BitsOf(acc, accLen) == bits0 + BitsOf(acc, accLen0)
    ensures !ok ==> out != null && 8 * out.Length + 8 <= |bits0| + accLen0
  {
    hide BitsOf, ByteAt, BytesBits;
    v, accLen, bits := v0, accLen0, bits0;
    while accLen >= 8
      invariant Wrote(out, v, bits, before)
      invariant bits + BitsOf(acc, accLen) == bits0 + BitsOf(acc, accLen0)
      invariant |bits| + accLen == |bits0| + accLen0
    {
      TopByte(acc, accLen - 8);
      var b := ByteAt(acc, accLen - 8);
      ok := WriteByte(out, v, b, bits, before);
      if !ok { return; }
      assert bits + (BitsOf(b, 8) + BitsOf(acc, accLen - 8)) == bits + BitsOf(b, 8) + BitsOf(acc, accLen - 8);
      accLen := accLen - 8;
      bits := bits + BitsOf(b, 8);
      v := v + 1;
    }
    ok := true;
  }

  /** Writes out the last bits, padded with zeros to a byte. */
  method EmitLast(out: array?<Byte>, v0: nat, acc: nat, accLen: nat,
                  ghost bits: seq<bool>, ghost before: seq<Byte>)
    returns (ok: bool, v: nat)
    requires accLen < 8 && Wrote(out, v0, bits, before)
    modifies out
    ensures var code := bits + BitsOf(acc, accLen);
            && ok == (out == null || PackedLength(|code|) <= out.Length)
            && (ok ==> v == PackedLength(|code|) && Wrote(out, v, Padded(code), before))
  {
    hide BitsOf, Push, BytesBits;
    v := v0;
    ghost var code := bits + BitsOf(acc, accLen);
    if accLen > 0 {
      LastByte(acc, accLen);
      var b := Push(acc, 8 - accLen, 0) % 256;
      ok := WriteByte(out, v, b, bits, before);
      assert bits + (BitsOf(acc, accLen) + Bits.Zeros(8 - accLen)) == code + Bits.Zeros(8 - accLen);
      assert Padding(|code|) == 8 - accLen;
      v := v + 1;
    } else {
      assert Padding(|code|) == 0 && Padded(code) == code == bits;
      ok := true;
    }
  }

  // ----- comp_encode

  method CompEncode(out: array?<Byte>, x: seq<int>) returns (v: nat)
    requires x != []
    modifies out
    ensures v == (if !AllInRange(x) || (out != null && out.Length < PackedLength(|Codes(x)|))
                  then 0 else PackedLength(|Codes(x)|))
    ensures (exists i :: 0 <= i < |x| && (x[i] < -2047 || 2047 < x[i])) ==> v == 0
    ensures v != 0 && out != null ==>
              BytesBits(out[..v]) == Padded(Codes(x)) && out[v..] == old(out[v..])
  {
    hide BytesBits, Codes, Code, BitsOf, Padded;
    for u := 0 to |x|
      invariant AllInRange(x[..u])
    {
      if x[u] < -2047 || 2047 < x[u] {
        assert !InRange(x[u]);
        return 0;
      }
    }
    assert x[..|x|] == x;
    ghost var before := if out == null then [] else out[..];
    var acc, accLen, ok := 0, 0, true;
    v := 0;
    ghost var bits: seq<bool> := [];
    CodesEmpty(x);
    assert out != null ==> out[..0] == [];
    for u := 0 to |x|
      invariant accLen < 8 && Wrote(out, v, bits, before)
      invariant Codes(x[..u]) == bits + BitsOf(acc, accLen)
    {
      CodesStep(x, u);
      assert InRange(x[u]);
      ghost var held := BitsOf(acc, accLen);
      acc, accLen := AppendCode(acc, accLen, x[u]);
      assert bits + (held + Code(x[u])) == bits + held + Code(x[u]);
      ok, v, accLen, bits := EmitBytes(out, v, acc, accLen, bits, before);
      if !ok { return 0; }
    }
    ok, v := EmitLast(out, v, acc, accLen, bits, before);
    if !ok { return 0; }
  }

  lemma {:induction false} CodesEmpty(x: seq<int>)
    ensures Codes(x[..0]) == [] && BytesBits([]) == []
  {
  }

  /** Shifts the sign, the low bits and the unary part of a coefficient into the accumulator. */
  method AppendCode(acc0: nat, accLen0: nat, x: int) returns (acc: nat, accLen: nat)
    requires accLen0 < 8 && InRange(x)
    ensures accLen == accLen0 + 9 + Abs(x) / 128 < 32
    ensures BitsOf(acc, accLen) == BitsOf(acc0, accLen0) + Code(x)
  {
    hide BitsOf, Shl, Push;
    ShlBy7And8(1);
    assert Shl(1, 1) == 2 && BitsOf(0, 1) == [false] && BitsOf(1, 1) == [true] by { OneBit(); }
    var t: int := x;
    var sign := 0;
    if t < 0 {
      t := -t;
      sign := 1;
    }
    PushBits(acc0, accLen0, sign, 1);
    acc := Push(acc0, 1, sign);
    var w: nat := t;
    PushBits(acc, accLen0 + 1, w % 128, 7);
    acc := Push(acc, 7, w % 128);
    w := w / 128;
    accLen := accLen0 + 8;
    UnaryBits(w);
    PushBits(acc, accLen, 1, w + 1);
    acc := Push(acc, w + 1, 1);
    accLen := accLen + w + 1;
  }

  lemma {:induction false} OneBit()
    ensures Shl(1, 1) == 2 && BitsOf(0, 1) == [false] && BitsOf(1, 1) == [true]
  {
    assert Shl(1, 1) == 2 * Shl(1, 0);
    assert BitsOf(0, 1) == BitsOf(0, 0) + [false];
    assert BitsOf(1, 1) == BitsOf(0, 0) + [true];
  }

  lemma {:induction false} UnaryBits(w: nat)
    ensures 1 < Shl(1, w + 1) && BitsOf(1, w + 1) == Bits.Zeros(w) + [true]
  {
    ZeroBits(w);
  }

  // ----- comp_decode

  /** The bits still to be parsed: those held in the accumulator and those not yet read. */
  ghost function Stream(input: seq<Byte>, v: nat, acc: nat, accLen: nat): seq<bool>
    requires v <= |input|
  {
    BitsOf(acc, accLen) + BytesBits(input[v..])
  }

  lemma {:induction false} ReadByte(input: seq<Byte>, v: nat, acc: nat, accLen: nat)
    requires v < |input| && accLen <= 24
    ensures Stream(input, v, acc, accLen) == Stream(input, v + 1, Push(acc, 8, input[v]), accLen + 8)
  {
    hide BitsOf, BytesBits, Push, Shl;
    BytesBitsStep(input, v);
    ShlBy7And8(1);
    PushBits(acc, accLen, input[v], 8);
  }

  lemma {:induction false} FirstBit(acc: nat, accLen: nat)
    requires 0 < accLen
    ensures BitsOf(acc, accLen) == [Shr(acc, accLen - 1) % 2 == 1] + BitsOf(acc, accLen - 1)
  {
    var k := accLen - 1;
    HighBits(acc, 1, k);
    LowBits(acc, 1, k);
    var h := Shr(acc, k);
    assert BitsOf(h, 1) == BitsOf(h / 2, 0) + [h % 2 == 1];
    var b := BitsOf(acc, 1 + k);
    assert b == b[..1] + b[1..];
  }

  /** Sign and low bits of the next coefficient. */
  lemma {:induction false} FirstEight(acc: nat, accLen: nat, more: seq<bool>)
    ensures var s := BitsOf(acc, 8 + accLen) + more;
            && s[0] == (Shr(acc, accLen) / 128 % 2 == 1)
            && ValueOf(s[1..8]) == Shr(acc, accLen) % 128
            && s[8..] == BitsOf(acc, accLen) + more
  {
    hide BitsOf, Shr, ValueOf, Shl, ByteAt;
    var s := BitsOf(acc, 8 + accLen) + more;
    var h := Shr(acc, accLen);
    TopByte(acc, accLen);
    HighBits(acc, 8, accLen);
    assert s[..8] == BitsOf(h, 8);
    assert s[8..] == BitsOf(acc, accLen) + more;
    FirstBit(h, 8);
    ShiftBy7(h);
    LowByte(h);
    ShlBy7And8(1);
    ValueOfBits(h % 128, 7);
    assert s[1..8] == s[..8][1..] == BitsOf(h, 7);
    assert s[0] == s[..8][0];
  }

  lemma {:induction false} ShiftBy7(v: nat)
    ensures Shr(v, 7) == v / 128
  {
    assert Shr(v, 7) == Shr(v / 2, 6) == Shr(v / 2 / 2, 5) == Shr(v / 2 / 2 / 2, 4);
    var q := v / 2 / 2 / 2;
    assert Shr(q, 4) == Shr(q / 2, 3) == Shr(q / 2 / 2, 2) == Shr(q / 2 / 2 / 2, 1);
    assert Shr(q / 2 / 2 / 2, 1) == q / 2 / 2 / 2 / 2;
  }

  method DecodeOne(input: seq<Byte>, v0: nat, acc0: nat, accLen0: nat)
    returns (r: Option<int>, v: nat, acc: nat, accLen: nat)
    requires accLen0 < 8 && v0 <= |input|
    ensures v <= |input| && accLen < 8
    ensures match ParseOne(Stream(input, v0, acc0, accLen0))
            case None => r == None
            case Some((x, rest)) => r == Some(x) && rest == Stream(input, v, acc, accLen)
  {
    hide BitsOf, BytesBits, Shr, Shl, ValueOf, Push;
    v, acc, accLen := v0, acc0, accLen0;
    ghost var all := Stream(input, v0, acc0, accLen0);
    if v >= |input| {
      return None, v, acc, accLen;
    }
    ReadByte(input, v, acc, accLen);
    acc, v := Push(acc, 8, input[v]), v + 1;
    FirstEight(acc, accLen, BytesBits(input[v..]));
    var b := Shr(acc, accLen);
    var s := b / 128 % 2 == 1;
    var m: int := b % 128;
    while true
      invariant v <= |input| && accLen < 8 && 0 <= m
      invariant ParseUnary(ValueOf(all[1..8]), all[8..]) == ParseUnary(m, Stream(input, v, acc, accLen))
      decreases |input| - v, accLen
    {
      if accLen == 0 {
        if v >= |input| {
          EmptyStream(input, acc);
          return None, v, acc, accLen;
        }
        ReadByte(input, v, acc, accLen);
        acc, v, accLen := Push(acc, 8, input[v]), v + 1, 8;
      }
      FirstBit(acc, accLen);
      DropFirst(input, v, acc, accLen);
      accLen := accLen - 1;
      if Shr(acc, accLen) % 2 == 1 { break; }
      m := m + 128;
      if m > 2047 {
        return None, v, acc, accLen;
      }
    }
    if s && m == 0 {
      return None, v, acc, accLen;
    }
    r := Some(if s then -m else m);
  }

  lemma {:induction false} EmptyStream(input: seq<Byte>, acc: nat)
    ensures Stream(input, |input|, acc, 0) == []
  {
  }

  lemma {:induction false} DropFirst(input: seq<Byte>, v: nat, acc: nat, accLen: nat)
    requires v <= |input| && 0 < accLen
    ensures var s := Stream(input, v, acc, accLen);
            s[0] == (Shr(acc, accLen - 1) % 2 == 1) && s[1..] == Stream(input, v, acc, accLen - 1)
  {
    hide BitsOf, Shr, BytesBits;
    FirstBit(acc, accLen);
  }

  method CompDecode(x: array<int>, n: nat, input: seq<Byte>) returns (v: nat)
    requires 0 < n <= x.Length
    modifies x
    ensures match Decompressed(n, input)
            case None => v == 0
            case Some((ys, k)) => v == k && x[..n] == ys
    ensures x[n..] == old(x[n..])
  {
    hide BitsOf, BytesBits, ParseOne, Shl, Stream;
    var acc: nat, accLen: nat := 0, 0;
    v := 0;
    ghost var all := BytesBits(input);
    StartStream(input);
    assert x[..0] == [];
    for u := 0 to n
      invariant accLen < 8 && v <= |input| && x[n..] == old(x[n..])
      invariant Parse([], n, all) == Parse(x[..u], n - u, Stream(input, v, acc, accLen))
    {
      var r;
      r, v, acc, accLen := DecodeOne(input, v, acc, accLen);
      if r == None { return 0; }
      ghost var before := x[..u];
      x[u] := r.value;
      assert x[..u + 1] == before + [r.value];
    }
    StreamEnd(input, v, acc, accLen);
    MaskIsZero(acc, accLen);
    if acc % Shl(1, accLen) != 0 { return 0; }
  }

  lemma {:induction false} StartStream(input: seq<Byte>)
    ensures Stream(input, 0, 0, 0) == BytesBits(input)
  {
    assert input[0..] == input;
    assert BitsOf(0, 0) == [];
  }

  lemma {:induction false} StreamEnd(input: seq<Byte>, v: nat, acc: nat, accLen: nat)
    requires v <= |input| && accLen < 8
    ensures var rest := Stream(input, v, acc, accLen);
            && |rest| % 8 == accLen && rest[..accLen] == BitsOf(acc, accLen)
            && (8 * |input| - |rest| + 7) / 8 == v
  {
    hide BitsOf, BytesBits;
  }
}
