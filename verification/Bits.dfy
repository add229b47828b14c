/** Numbers as bit strings, most significant bit first, and the shifts of a 32-bit
    accumulator seen as operations on them. */
module Bits {
  import opened Arithmetic
  import opened Octets

  function Bit(b: bool): nat { if b then 1 else 0 }

  /** The k low bits of v. */
  function BitsOf(v: nat, k: nat): (b: seq<bool>)
    ensures |b| == k
  {
    if k == 0 then [] else BitsOf(v / 2, k - 1) + [v % 2 == 1]
  }

  function ValueOf(b: seq<bool>): nat {
    if b == [] then 0 else 2 * ValueOf(b[..|b| - 1]) + Bit(b[|b| - 1])
  }

  /** `v << k` before truncation. */
  function Shl(v: nat, k: nat): nat { if k == 0 then v else 2 * Shl(v, k - 1) }

  /** `v >> k`. */
  function Shr(v: nat, k: nat): nat { if k == 0 then v else Shr(v / 2, k - 1) }

  /** Truncation to 32 bits. */
  function U32(v: nat): nat { v % 0x1_0000_0000 }

  function Zeros(k: nat): (b: seq<bool>)
    ensures |b| == k
  {
    seq(k, _ => false)
  }

  // ------------------------------------------------------------ bits of values

  lemma {:induction false} ValueOfBits(v: nat, k: nat)
    requires v < Shl(1, k)
    ensures ValueOf(BitsOf(v, k)) == v
  {
    if k == 0 {
    } else {
      ValueOfBits(v / 2, k - 1);
      var b := BitsOf(v, k);
      assert b[..k - 1] == BitsOf(v / 2, k - 1);
    }
  }

  lemma {:induction false} BitsOfValue(b: seq<bool>)
    ensures ValueOf(b) < Shl(1, |b|) && BitsOf(ValueOf(b), |b|) == b
  {
    if b == [] {
    } else {
      BitsOfValue(b[..|b| - 1]);
    }
  }

  lemma {:induction false} HighBits(v: nat, j: nat, k: nat)
    ensures BitsOf(Shr(v, k), j) == BitsOf(v, j + k)[..j]
    decreases k
  {
    if k == 0 {
    } else {
      HighBits(v / 2, j, k - 1);
      assert BitsOf(v, j + k) == BitsOf(v / 2, j + k - 1) + [v % 2 == 1];
    }
  }

  lemma {:induction false} LowBits(v: nat, j: nat, k: nat)
    ensures BitsOf(v, j + k)[j..] == BitsOf(v, k)
    decreases k
  {
    if k == 0 {
    } else {
      LowBits(v / 2, j, k - 1);
      assert BitsOf(v, j + k) == BitsOf(v / 2, j + k - 1) + [v % 2 == 1];
    }
  }

  /** `v << k | w` appends the k bits of w. */
  lemma {:induction false} AppendBits(v: nat, j: nat, w: nat, k: nat)
    requires w < Shl(1, k)
    ensures BitsOf(Shl(v, k) + w, j + k) == BitsOf(v, j) + BitsOf(w, k)
    decreases k
  {
    if k == 0 {
    } else {
      AppendBits(v, j, w / 2, k - 1);
      assert (Shl(v, k) + w) / 2 == Shl(v, k - 1) + w / 2;
      assert (Shl(v, k) + w) % 2 == w % 2;
    }
  }

  lemma {:induction false} HigherBitsDoNotMatter(v: nat, c: nat, t: nat, k: nat)
    requires k <= t
    ensures BitsOf(v + Shl(c, t), k) == BitsOf(v, k)
  {
    if k == 0 {
    } else {
      assert (v + Shl(c, t)) / 2 == v / 2 + Shl(c, t - 1);
      HigherBitsDoNotMatter(v / 2, c, t - 1, k - 1);
    }
  }

  lemma {:induction false} ShlTwice(v: nat, j: nat, k: nat)
    ensures Shl(v, j + k) == Shl(Shl(v, j), k)
  {
    if k == 0 {
    } else {
      ShlTwice(v, j, k - 1);
    }
  }

  lemma {:induction false} ShlBy7And8(v: nat)
    ensures Shl(v, 7) == 128 * v && Shl(v, 8) == 256 * v
  {
    assert Shl(v, 1) == 2 * Shl(v, 0);
    assert Shl(v, 2) == 2 * Shl(v, 1);
    assert Shl(v, 3) == 2 * Shl(v, 2);
    assert Shl(v, 4) == 2 * Shl(v, 3);
    assert Shl(v, 5) == 2 * Shl(v, 4);
    assert Shl(v, 6) == 2 * Shl(v, 5);
    assert Shl(v, 7) == 2 * Shl(v, 6);
  }

  lemma {:induction false} ShlBy32(v: nat)
    ensures Shl(v, 32) == 0x1_0000_0000 * v
  {
    hide Shl;
    ShlTwice(v, 24, 8);
    ShlTwice(v, 16, 8);
    ShlTwice(v, 8, 8);
    ShlBy7And8(v);
    ShlBy7And8(Shl(v, 8));
    ShlBy7And8(Shl(v, 16));
    ShlBy7And8(Shl(v, 24));
  }

  /** Truncating the accumulator keeps any window of at most 32 low bits. */
  lemma {:induction false} TruncationKeeps(v: nat, k: nat)
    requires k <= 32
    ensures BitsOf(U32(v), k) == BitsOf(v, k)
  {
    hide BitsOf;
    ShlBy32(v / 0x1_0000_0000);
    HigherBitsDoNotMatter(U32(v), v / 0x1_0000_0000, 32, k);
  }

  lemma {:induction false} LowByte(v: nat)
    ensures BitsOf(v % 256, 8) == BitsOf(v, 8) && BitsOf(v % 128, 7) == BitsOf(v, 7)
  {
    hide BitsOf;
    ShlBy7And8(v / 256);
    ShlBy7And8(v / 128);
    HigherBitsDoNotMatter(v % 256, v / 256, 8, 8);
    HigherBitsDoNotMatter(v % 128, v / 128, 7, 7);
  }

  lemma {:induction false} ZeroBits(k: nat)
    ensures BitsOf(0, k) == Zeros(k) && 0 < Shl(1, k)
  {
    if k == 0 {
    } else {
      ZeroBits(k - 1);
    }
  }

  lemma {:induction false} AllZero(v: nat, k: nat)
    requires v < Shl(1, k)
    ensures v == 0 <==> BitsOf(v, k) == Zeros(k)
  {
    ZeroBits(k);
    ValueOfBits(v, k);
    ValueOfBits(0, k);
  }

  /** The bits of a number from its highest on: bit i weighs 2 to the power of what comes behind it. */
  lemma {:induction false} BitAt(v: nat, k: nat, i: nat)
    requires i < k
    ensures 0 < Shl(1, k - 1 - i) && (BitsOf(v, k)[i] <==> v / Shl(1, k - 1 - i) % 2 == 1)
  {
    if i == k - 1 {
    } else {
      BitAt(v / 2, k - 1, i);
      hide BitsOf;
      HalfTwice(v, Shl(1, k - 2 - i));
    }
  }

  lemma {:induction false} HalfTwice(v: nat, p: nat)
    requires 0 < p
    ensures v / (2 * p) == v / 2 / p
  {
    var h := v / 2;
    var q, r := h / p, h % p;
    assert h == p * q + r && 0 <= q;
    assert v == 2 * (p * q) + (2 * r + v % 2);
    assert 2 * (p * q) == (2 * p) * q;
    ModUnique(v, 2 * p, q, 2 * r + v % 2);
  }

  // ------------------------------------------------------------- bits of bytes

  function BytesBits(s: seq<Byte>): (b: seq<bool>)
    ensures |b| == 8 * |s|
  {
    if s == [] then [] else BitsOf(s[0], 8) + BytesBits(s[1..])
  }

  lemma {:induction false} BytesBitsAppend(s: seq<Byte>, t: seq<Byte>)
    ensures BytesBits(s + t) == BytesBits(s) + BytesBits(t)
  {
    hide BitsOf;
    if s == [] {
      assert s + t == t;
    } else {
      assert (s + t)[1..] == s[1..] + t;
      BytesBitsAppend(s[1..], t);
    }
  }

  lemma {:induction false} BytesBitsSnoc(s: seq<Byte>, c: Byte)
    ensures BytesBits(s + [c]) == BytesBits(s) + BitsOf(c, 8)
  {
    hide BitsOf;
    BytesBitsAppend(s, [c]);
    assert BytesBits([c]) == BitsOf(c, 8) + BytesBits([]);
  }

  lemma {:induction false} BytesBitsStep(s: seq<Byte>, v: nat)
    requires v < |s|
    ensures BytesBits(s[v..]) == BitsOf(s[v], 8) + BytesBits(s[v + 1..])
  {
    hide BitsOf;
    assert s[v..][1..] == s[v + 1..];
  }

  lemma {:induction false} BytesBitsInjective(s: seq<Byte>, t: seq<Byte>)
    requires BytesBits(s) == BytesBits(t)
    ensures s == t
  {
    hide BitsOf;
    if s == [] {
    } else {
      assert |s| == |t|;
      assert BytesBits(s)[..8] == BitsOf(s[0], 8) && BytesBits(t)[..8] == BitsOf(t[0], 8);
      assert BytesBits(s)[8..] == BytesBits(s[1..]) && BytesBits(t)[8..] == BytesBits(t[1..]);
      BytesBitsInjective(s[1..], t[1..]);
      ShlBy7And8(1);
      ValueOfBits(s[0], 8);
      ValueOfBits(t[0], 8);
      assert s == [s[0]] + s[1..] && t == [t[0]] + t[1..];
    }
  }

  /** Each byte's bits are its eight, the highest first. */
  lemma {:induction false} BytesLayout(s: seq<Byte>, i: nat)
    requires i < |s|
    ensures var b := BytesBits(s)[8 * i..8 * i + 8];
            s[i] as nat == 128 * Bit(b[0]) + 64 * Bit(b[1]) + 32 * Bit(b[2]) + 16 * Bit(b[3])
                           + 8 * Bit(b[4]) + 4 * Bit(b[5]) + 2 * Bit(b[6]) + Bit(b[7])
  {
    hide BytesBits;
    var b := BytesBits(s)[8 * i..8 * i + 8];
    assert b == BitsOf(s[i], 8) by {
      hide BitsOf;
      BytesBitsAppend(s[..i], s[i..]);
      assert s[..i] + s[i..] == s && s[i..] == s[i..][..];
      BytesBitsStep(s, i);
    }
    ByteOfBits(s[i]);
  }

  lemma {:induction false} ByteOfBits(v: nat)
    requires v < 256
    ensures var b := BitsOf(v, 8);
            v == 128 * Bit(b[0]) + 64 * Bit(b[1]) + 32 * Bit(b[2]) + 16 * Bit(b[3])
                 + 8 * Bit(b[4]) + 4 * Bit(b[5]) + 2 * Bit(b[6]) + Bit(b[7])
  {
    hide BitsOf, ValueOf, Bit, Shl;
    var b := BitsOf(v, 8);
    ShlBy7And8(1);
    ValueOfBits(v, 8);
    assert b[..8] == b;
    ValueOfStart(b);
    FourMore(b, 0);
    FourMore(b, 4);
  }

  lemma {:induction false} FourMore(b: seq<bool>, n: nat)
    requires n + 4 <= |b|
    ensures ValueOf(b[..n + 4]) == 16 * ValueOf(b[..n]) + 8 * Bit(b[n]) + 4 * Bit(b[n + 1]) + 2 * Bit(b[n + 2]) + Bit(b[n + 3])
  {
    hide ValueOf, Bit;
    ValueOfPrefix(b, n);
    ValueOfPrefix(b, n + 1);
    ValueOfPrefix(b, n + 2);
    ValueOfPrefix(b, n + 3);
  }

  lemma {:induction false} ValueOfStart(b: seq<bool>)
    ensures ValueOf(b[..0]) == 0
  {
  }

  /** Every further bit doubles the value of those before it. */
  lemma {:induction false} ValueOfPrefix(b: seq<bool>, n: nat)
    requires n < |b|
    ensures ValueOf(b[..n + 1]) == 2 * ValueOf(b[..n]) + Bit(b[n])
  {
    assert b[..n + 1][..n] == b[..n];
  }

  /** Zero bits up to the next whole byte. */
  function Padding(n: nat): (p: nat)
    ensures p < 8 && (n + p) % 8 == 0
  {
    (8 - n % 8) % 8
  }

  function Padded(b: seq<bool>): (r: seq<bool>)
    ensures |r| % 8 == 0
  {
    b + Zeros(Padding(|b|))
  }

  /** The bits themselves, and fewer than eight zeros behind them. */
  lemma {:induction false} PaddedLayout(b: seq<bool>)
    ensures var r := Padded(b);
            |b| <= |r| < |b| + 8 && r[..|b|] == b && forall i :: |b| <= i < |r| ==> !r[i]
  {
  }
}
