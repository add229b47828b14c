/** GF(256) as the code builds it: logarithm, exponential, inverse and multiplication tables for
    the generator 2 and the reduction byte 29.

    The reference is multiplication of polynomials over GF(2), reduced. It is shown to be a field,
    and the table lookups are shown to compute it. */
module Galois {
  import opened Arithmetic
  import opened Bytes
  import opened Field
  import opened Fec

  // --------------------------------------------------------------- reference

  /** Multiplication by 2: shift, and reduce when the top bit falls out. */
  function Double(b: byte): byte { Add(Shift(b), if b & 0x80 != 0 then 29 else 0) }

  function Shift(b: byte): byte { b << 1 }

  function Doubled(b: byte, n: nat): byte {
    if n == 0 then b else Double(Doubled(b, n - 1))
  }

  function Mask(i: nat): byte
    requires i < 8
  {
    [1, 2, 4, 8, 16, 32, 64, 128][i]
  }

  /** a when bit i of b is set, zero otherwise. */
  function Term(a: byte, b: byte, i: nat): byte
    requires i < 8
  {
    if b & Mask(i) != 0 then a else 0
  }

  /** The sum of a 2^i over the bits i < n of b. */
  function Partial(a: byte, b: byte, n: nat): byte
    requires n <= 8
  {
    if n == 0 then 0 else Add(Partial(a, b, n - 1), Term(Doubled(a, n - 1), b, n - 1))
  }

  /** The reduced product of two polynomials over GF(2). */
  function Product(a: byte, b: byte): byte { Partial(a, b, 8) }

  // -------------------------------------------------------------- linearity

  lemma {:induction false} DoubleAdd(a: byte, b: byte)
    ensures Double(Add(a, b)) == Add(Double(a), Double(b))
    ensures Double(0) == 0
  {
    ShiftAdd(a, b);
    hide Add, Shift, Mask;
    assert Mask(7) == 128 by {
      LastMask();
    }
    TermAddBits(29, a, b, 7);
    AddSwap(Shift(a), Shift(b), Term(29, a, 7), Term(29, b, 7));
    AddZero(0);
  }

  lemma {:induction false} LastMask()
    ensures Mask(7) == 128
  {
  }

  lemma {:induction false} ShiftAdd(a: byte, b: byte)
    ensures Shift(Add(a, b)) == Add(Shift(a), Shift(b))
    ensures Shift(0) == 0
  {
  }

  lemma {:induction false} DoubledAdd(a: byte, b: byte, n: nat)
    ensures Doubled(Add(a, b), n) == Add(Doubled(a, n), Doubled(b, n))
    ensures Doubled(0, n) == 0
  {
    hide Add, Double;
    if n == 0 {
    } else {
      DoubledAdd(a, b, n - 1);
      DoubleAdd(Doubled(a, n - 1), Doubled(b, n - 1));
    }
  }

  lemma {:induction false} DoubledSum(a: byte, m: nat, n: nat)
    ensures Doubled(Doubled(a, m), n) == Doubled(a, m + n)
  {
    hide Double;
    if n == 0 {
    } else {
      DoubledSum(a, m, n - 1);
    }
  }

  lemma {:induction false} TermAdd(a: byte, b: byte, x: byte, i: nat)
    requires i < 8
    ensures Term(Add(a, b), x, i) == Add(Term(a, x, i), Term(b, x, i))
    ensures Term(Double(a), x, i) == Double(Term(a, x, i))
    ensures Term(0, x, i) == 0
  {
    hide Add, Double, Mask;
    DoubleAdd(0, 0);
    AddZero(0);
  }

  lemma {:induction false} MaskIsBit(i: nat)
    requires i < 8
    ensures Mask(i) in {1, 2, 4, 8, 16, 32, 64, 128}
  {
  }

  lemma {:induction false} BitAdd(x: byte, y: byte, m: byte)
    requires m in {1, 2, 4, 8, 16, 32, 64, 128}
    ensures Add(x, y) & m != 0 <==> (x & m != 0) != (y & m != 0)
  {
  }

  lemma {:induction false} TermAddBits(a: byte, x: byte, y: byte, i: nat)
    requires i < 8
    ensures Term(a, Add(x, y), i) == Add(Term(a, x, i), Term(a, y, i))
  {
    hide Add, Mask;
    MaskIsBit(i);
    BitAdd(x, y, Mask(i));
    AddZero(a);
    AddZero(0);
    AddSelf(a);
  }

  lemma {:induction false} PartialAdd(a: byte, b: byte, x: byte, y: byte, n: nat)
    requires n <= 8
    ensures Partial(Add(a, b), x, n) == Add(Partial(a, x, n), Partial(b, x, n))
    ensures Partial(a, Add(x, y), n) == Add(Partial(a, x, n), Partial(a, y, n))
    ensures Partial(Double(a), x, n) == Double(Partial(a, x, n))
    ensures Partial(0, x, n) == 0
  {
    hide Add, Double, Doubled, Term;
    if n == 0 {
      AddZero(0);
      DoubleAdd(0, 0);
    } else {
      var i := n - 1;
      PartialAdd(a, b, x, y, i);
      var u, v := Doubled(a, i), Doubled(b, i);
      DoubledAdd(a, b, i);
      DoubledOfDouble(a, i);
      TermAdd(u, v, x, i);
      TermAddBits(u, x, y, i);
      AddSwap(Partial(a, x, i), Partial(b, x, i), Term(u, x, i), Term(v, x, i));
      AddSwap(Partial(a, x, i), Partial(a, y, i), Term(u, x, i), Term(u, y, i));
      DoubleAdd(Partial(a, x, i), Term(u, x, i));
      AddZero(0);
    }
  }

  lemma {:induction false} DoubledOfDouble(a: byte, n: nat)
    ensures Doubled(Double(a), n) == Double(Doubled(a, n))
  {
    hide Double;
    if n == 0 {
    } else {
      DoubledOfDouble(a, n - 1);
    }
  }

  /** A byte is the sum of its bits. */
  lemma {:induction false} ProductOne(a: byte)
    ensures Product(1, a) == a
  {
    hide Add, Doubled, Term;
    PowersAreMasks();
    assert Partial(1, a, 1) == Add(0, Term(1, a, 0));
    assert Partial(1, a, 2) == Add(Partial(1, a, 1), Term(2, a, 1));
    assert Partial(1, a, 3) == Add(Partial(1, a, 2), Term(4, a, 2));
    assert Partial(1, a, 4) == Add(Partial(1, a, 3), Term(8, a, 3));
    assert Partial(1, a, 5) == Add(Partial(1, a, 4), Term(16, a, 4));
    assert Partial(1, a, 6) == Add(Partial(1, a, 5), Term(32, a, 5));
    assert Partial(1, a, 7) == Add(Partial(1, a, 6), Term(64, a, 6));
    assert Partial(1, a, 8) == Add(Partial(1, a, 7), Term(128, a, 7));
    SumOfBits(a);
  }

  lemma {:induction false} SumOfBits(a: byte)
    ensures Add(Add(Add(Add(Add(Add(Add(Add(0, Term(1, a, 0)), Term(2, a, 1)), Term(4, a, 2)), Term(8, a, 3)),
                            Term(16, a, 4)), Term(32, a, 5)), Term(64, a, 6)), Term(128, a, 7)) == a
  {
  }

  lemma {:induction false} PowersAreMasks()
    ensures Doubled(1, 0) == 1 && Doubled(1, 1) == 2 && Doubled(1, 2) == 4 && Doubled(1, 3) == 8
    ensures Doubled(1, 4) == 16 && Doubled(1, 5) == 32 && Doubled(1, 6) == 64 && Doubled(1, 7) == 128
  {
  }

  // --------------------------------------------------------------- the field

  lemma {:induction false} ProductOfPower(n: nat, b: byte)
    ensures Product(Doubled(1, n), b) == Doubled(b, n)
  {
    hide Add, Double, Partial;
    if n == 0 {
      ProductOne(b);
    } else {
      ProductOfPower(n - 1, b);
      PartialAdd(Doubled(1, n - 1), 0, b, 0, 8);
    }
  }

  /** Multiplying the partial sum of a's bits. */
  lemma {:induction false} ProductOfPartial(a: byte, b: byte, n: nat)
    requires n <= 8
    ensures Product(Partial(1, a, n), b) == Partial(b, a, n)
  {
    hide Add, Double, Doubled, Term, Product;
    if n == 0 {
      ProductZero(b);
    } else {
      var i := n - 1;
      ProductOfPartial(a, b, i);
      ProductAdd(Partial(1, a, i), Term(Doubled(1, i), a, i), b);
      ProductOfPower(i, b);
      ProductOfTerm(Doubled(1, i), a, i, b);
    }
  }

  lemma {:induction false} ProductOfTerm(u: byte, a: byte, i: nat, b: byte)
    requires i < 8
    ensures Product(Term(u, a, i), b) == Term(Product(u, b), a, i)
  {
    hide Product;
    ProductZero(b);
  }

  lemma {:induction false} ProductZero(b: byte)
    ensures Product(0, b) == 0
  {
    hide Partial;
    PartialAdd(0, 0, b, 0, 8);
  }

  lemma {:induction false} ProductAdd(a: byte, b: byte, x: byte)
    ensures Product(Add(a, b), x) == Add(Product(a, x), Product(b, x))
    ensures Product(x, Add(a, b)) == Add(Product(x, a), Product(x, b))
  {
    hide Partial;
    PartialAdd(a, b, x, 0, 8);
    PartialAdd(x, 0, a, b, 8);
  }

  lemma {:induction false} ProductComm(a: byte, b: byte)
    ensures Product(a, b) == Product(b, a)
  {
    hide Partial;
    ProductOne(a);
    ProductOfPartial(a, b, 8);
  }

  lemma {:induction false} ProductAssocPartial(a: byte, b: byte, c: byte, n: nat)
    requires n <= 8
    ensures Product(Product(Partial(1, a, n), b), c) == Product(Partial(1, a, n), Product(b, c))
  {
    hide Add, Double, Doubled, Term, Product;
    if n == 0 {
      ProductZero(b);
      ProductZero(c);
      ProductZero(Product(b, c));
    } else {
      var i := n - 1;
      var p, t := Partial(1, a, i), Term(Doubled(1, i), a, i);
      ProductAssocPartial(a, b, c, i);
      ProductAdd(p, t, b);
      ProductAdd(Product(p, b), Product(t, b), c);
      ProductAdd(p, t, Product(b, c));
      AssocTerm(a, i, b, c);
    }
  }

  lemma {:induction false} AssocTerm(a: byte, i: nat, b: byte, c: byte)
    requires i < 8
    ensures Product(Product(Term(Doubled(1, i), a, i), b), c) == Product(Term(Doubled(1, i), a, i), Product(b, c))
  {
    hide Double, Doubled, Term, Product;
    ProductOfTerm(Doubled(1, i), a, i, b);
    ProductOfPower(i, b);
    ProductOfTerm(Doubled(b, i), a, i, c);
    ProductOfDoubled(b, c, i);
    ProductOfTerm(Doubled(1, i), a, i, Product(b, c));
    ProductOfPower(i, Product(b, c));
  }

  lemma {:induction false} ProductOfDoubled(b: byte, c: byte, n: nat)
    ensures Product(Doubled(b, n), c) == Doubled(Product(b, c), n)
  {
    hide Add, Double, Partial;
    if n == 0 {
    } else {
      ProductOfDoubled(b, c, n - 1);
      PartialAdd(Doubled(b, n - 1), 0, c, 0, 8);
    }
  }

  lemma {:induction false} ProductAssoc(a: byte, b: byte, c: byte)
    ensures Product(Product(a, b), c) == Product(a, Product(b, c))
  {
    hide Partial;
    ProductOne(a);
    ProductAssocPartial(a, b, c, 8);
  }

  // --------------------------------------------------------- order of 2

  function Double2(b: byte): byte { Double(Double(b)) }
  function Double4(b: byte): byte { Double2(Double2(b)) }
  function Double8(b: byte): byte { Double4(Double4(b)) }
  function Double16(b: byte): byte { Double8(Double8(b)) }

  lemma {:induction false} DoubledUnfold(b: byte)
    ensures Doubled(b, 1) == Double(b)
  {
    hide Double;
  }

  lemma {:induction false} DoubledTwo(b: byte)
    ensures Doubled(b, 2) == Double2(b)
  {
    hide Double, Doubled;
    DoubledUnfold(b);
    DoubledUnfold(Double(b));
    DoubledSum(b, 1, 1);
  }

  lemma {:induction false} DoubledFour(b: byte)
    ensures Doubled(b, 4) == Double4(b)
  {
    hide Double2, Doubled;
    DoubledTwo(b);
    DoubledTwo(Double2(b));
    DoubledSum(b, 2, 2);
  }

  lemma {:induction false} DoubledEight(b: byte)
    ensures Doubled(b, 8) == Double8(b)
  {
    hide Double4, Doubled;
    DoubledFour(b);
    DoubledFour(Double4(b));
    DoubledSum(b, 4, 4);
  }

  lemma {:induction false} DoubledSixteen(b: byte)
    ensures Doubled(b, 16) == Double16(b)
  {
    hide Double8, Doubled;
    DoubledEight(b);
    DoubledEight(Double8(b));
    DoubledSum(b, 8, 8);
  }

  lemma {:induction false} Jump(n: nat, x: byte, y: byte)
    requires Doubled(1, n) == x && Double16(x) == y
    ensures Doubled(1, n + 16) == y
  {
    hide Double16, Doubled;
    DoubledSixteen(x);
    DoubledSum(1, n, 16);
  }

  lemma {:induction false} Jumps()
    ensures Doubled(1, 16) == 76 && Doubled(1, 48) == 70 && Doubled(1, 80) == 253 && Doubled(1, 240) == 44
  {
    assert Doubled(1, 0) == 1;
    hide Doubled;
    Jump(0, 1, 76);
    Jump(16, 76, 157);
    Jump(32, 157, 70);
    Jump(48, 70, 95);
    Jump(64, 95, 253);
    Jump(80, 253, 217);
    Jump(96, 217, 129);
    Jump(112, 129, 133);
    Jump(128, 133, 168);
    Jump(144, 168, 230);
    Jump(160, 230, 227);
    Jump(176, 227, 130);
    Jump(192, 130, 81);
    Jump(208, 81, 18);
    Jump(224, 18, 44);
  }

  /** The generator's powers at the divisors of 255. */
  lemma {:induction false} PowersAtDivisors()
    ensures Doubled(1, 1) == 2 && Doubled(1, 3) == 8 && Doubled(1, 5) == 32 && Doubled(1, 15) == 38
    ensures Doubled(1, 17) == 152 && Doubled(1, 51) == 10 && Doubled(1, 85) == 214 && Doubled(1, 255) == 1
  {
    PowersAreMasks();
    Jumps();
    hide Doubled;
    DoubledEight(1);
    DoubledFour(29);
    DoubledTwo(205);
    DoubledUnfold(19);
    DoubledSum(1, 8, 4);
    DoubledSum(1, 12, 2);
    DoubledSum(1, 14, 1);
    DoubledUnfold(76);
    DoubledSum(1, 16, 1);
    DoubledTwo(70);
    DoubledUnfold(5);
    DoubledSum(1, 48, 2);
    DoubledSum(1, 50, 1);
    DoubledFour(253);
    DoubledUnfold(107);
    DoubledSum(1, 80, 4);
    DoubledSum(1, 84, 1);
    DoubledEight(44);
    DoubledFour(27);
    DoubledTwo(173);
    DoubledUnfold(142);
    DoubledSum(1, 240, 8);
    DoubledSum(1, 248, 4);
    DoubledSum(1, 252, 2);
    DoubledSum(1, 254, 1);
  }

  /** The n-th power of the generator. */
  function Exp(n: nat): byte { Doubled(1, n) }

  lemma {:induction false} ExpPeriod(n: nat, q: nat, r: nat)
    requires Exp(n) == 1
    ensures n * q + r >= 0 && Exp(n * q + r) == Exp(r)
  {
    hide Doubled;
    ProductNonNegative(n, q);
    if q == 0 {
    } else {
      ProductNonNegative(n, q - 1);
      ExpPeriod(n, q - 1, r);
      assert n * q + r == n + (n * (q - 1) + r);
      DoubledSum(1, n, n * (q - 1) + r);
    }
  }

  lemma {:induction false} DivisorsOf255(n: nat)
    requires 0 < n < 255 && 255 % n == 0
    ensures n in {1, 3, 5, 15, 17, 51, 85}
  {
    var q := 255 / n;
    assert n * q == 255;
    if n <= 15 {
      SmallDivisor(n);
    } else {
      MulStep(n, 15, q);
      SmallFactor(q, n);
    }
  }

  lemma {:induction false} SmallDivisor(n: nat)
    requires 0 < n <= 15 && 255 % n == 0
    ensures n in {1, 3, 5, 15}
  {
  }

  lemma {:induction false} SmallFactor(q: nat, n: nat)
    requires q <= 15 && n * q == 255 && n < 255
    ensures n in {17, 51, 85}
  {
  }

  /** The generator has order exactly 255. */
  lemma {:induction false} OrderIs255(n: nat)
    requires 0 < n < 255
    ensures Exp(n) != 1
  {
    hide Doubled;
    PowersAtDivisors();
    if Exp(n) == 1 {
      var q, r := 255 / n, 255 % n;
      ExpPeriod(n, q, r);
      assert 255 == n * q + r;
      if r == 0 {
        DivisorsOf255(n);
      } else {
        OrderIs255(r);
      }
    }
  }

  // -------------------------------------------------------------- logarithms

  lemma {:induction false} DoubleInjective(a: byte, b: byte)
    requires Double(a) == Double(b)
    ensures a == b
  {
    DoubleNonZero(Add(a, b));
    hide Double, Add;
    DoubleAdd(a, b);
    AddSelf(Double(a));
    AddCancel(a, b);
  }

  lemma {:induction false} DoubleNonZero(x: byte)
    ensures x != 0 ==> Double(x) != 0
  {
  }

  lemma {:induction false} DoubledInjective(a: byte, b: byte, n: nat)
    requires Doubled(a, n) == Doubled(b, n)
    ensures a == b
  {
    hide Double;
    if n == 0 {
    } else {
      DoubleInjective(Doubled(a, n - 1), Doubled(b, n - 1));
      DoubledInjective(a, b, n - 1);
    }
  }

  lemma {:induction false} ExpInjective(i: nat, j: nat)
    requires i < j < 255
    ensures Exp(i) != Exp(j)
  {
    hide Doubled;
    if Exp(i) == Exp(j) {
      DoubledSum(1, j - i, i);
      DoubledInjective(1, Doubled(1, j - i), i);
      OrderIs255(j - i);
    }
  }

  lemma {:induction false} ExpNonZero(n: nat)
    ensures Exp(n) != 0
  {
    hide Double;
    OneIsNotZero();
    DoubledAdd(0, 0, n);
    if Exp(n) == 0 {
      DoubledInjective(1, 0, n);
    }
  }

  /** The first n powers of the generator. */
  ghost function Powers(n: nat): set<byte> { set i | 0 <= i < n :: Exp(i) }

  lemma {:induction false} PowersCount(n: nat)
    requires n <= 255
    ensures |Powers(n)| == n
  {
    hide Doubled, Exp;
    if n == 0 {
    } else {
      PowersCount(n - 1);
      forall i | 0 <= i < n - 1 ensures Exp(i) != Exp(n - 1) {
        ExpInjective(i, n - 1);
      }
      assert Powers(n) == Powers(n - 1) + {Exp(n - 1)};
    }
  }

  function ByteOf(i: int): byte
    requires 0 <= i < 256
  {
    i as byte
  }

  function Index(b: byte): (i: nat)
    ensures i < 256
  {
    b as int
  }

  /** The bytes 1, ..., n - 1. */
  ghost function BytesBelow(n: nat): set<byte>
    requires n <= 256
  {
    set i | 1 <= i < n :: ByteOf(i)
  }

  lemma {:induction false} BytesGrow(n: nat)
    requires 1 < n <= 256
    ensures BytesBelow(n) == BytesBelow(n - 1) + {ByteOf(n - 1)}
  {
    hide ByteOf;
  }

  lemma {:induction false} BytesCount(n: nat)
    requires 1 <= n <= 256
    ensures |BytesBelow(n)| <= n - 1
  {
    if n == 1 {
      assert BytesBelow(1) == {};
    } else {
      hide BytesBelow, ByteOf;
      BytesCount(n - 1);
      BytesGrow(n);
    }
  }

  lemma {:induction false} ByteRange(b: byte)
    ensures ByteOf(Index(b)) == b && (b != 0 <==> Index(b) != 0)
  {
  }

  lemma {:induction false} IndexRange(i: int)
    requires 0 <= i < 256
    ensures Index(ByteOf(i)) == i && (ByteOf(i) != 0 <==> i != 0)
  {
    IndexOfByte(i);
    IndexOfByte(0);
    ZeroByte();
    hide *;
  }

  lemma {:induction false} IndexOfByte(i: int)
    requires 0 <= i < 256
    ensures Index(ByteOf(i)) == i
  {
    IntToByteToInt(i);
  }

  lemma {:induction false} ZeroByte()
    ensures ByteOf(0) == 0
  {
  }

  /** Every non-zero byte is a power of the generator. */
  lemma {:induction false} LogExists(a: byte)
    requires a != 0
    ensures exists n :: 0 <= n < 255 && Exp(n) == a
  {
    hide Doubled, Exp;
    PowersCount(255);
    BytesCount(256);
    forall b | b in Powers(255) ensures b in BytesBelow(256) {
      var i :| 0 <= i < 255 && Exp(i) == b;
      ExpNonZero(i);
      ByteRange(b);
    }
    SubsetSameSize(Powers(255), BytesBelow(256));
    ByteRange(a);
    assert a in Powers(255);
  }

  lemma {:induction false} SubsetSameSize(s: set<byte>, t: set<byte>)
    requires s <= t && |t| <= |s|
    ensures s == t
  {
    assert t == s + (t - s);
  }

  function LogOf(a: byte): (n: nat)
    requires a != 0
    ensures n < 255 && Exp(n) == a
  {
    LogExists(a);
    LogsDiffer();
    var n: nat :| n < 255 && Exp(n) == a;
    n
  }

  lemma {:induction false} LogsDiffer()
    ensures forall m: nat, n: nat :: m < 255 && n < 255 && Exp(m) == Exp(n) ==> m == n
  {
    hide Exp;
    forall m: nat, n: nat | m < n < 255 ensures Exp(m) != Exp(n) {
      ExpInjective(m, n);
    }
  }

  lemma {:induction false} LogOfExp(n: nat)
    requires n < 255
    ensures Exp(n) != 0 && LogOf(Exp(n)) == n
  {
    hide Doubled, Exp;
    ExpNonZero(n);
    var m := LogOf(Exp(n));
    if m < n {
      ExpInjective(m, n);
    } else if n < m {
      ExpInjective(n, m);
    }
  }

  /** Products add logarithms. */
  lemma {:induction false} ProductOfLogs(m: nat, n: nat)
    ensures Product(Exp(m), Exp(n)) == Exp(m + n)
  {
    hide Product, Doubled;
    ProductOfPower(m, Exp(n));
    DoubledSum(1, n, m);
  }

  lemma {:induction false} ExpMod(n: nat)
    ensures Exp(n % 255) == Exp(n) && (n >= 255 ==> Exp(n - 255) == Exp(n))
  {
    hide Doubled;
    PowersAtDivisors();
    ExpPeriod(255, n / 255, n % 255);
    if n >= 255 {
      ExpPeriod(255, 1, n - 255);
    }
  }

  // --------------------------------------------------------------- the field

  function Inverse(a: byte): byte {
    if a == 0 then 0 else Exp(255 - LogOf(a))
  }

  function Gf(): Field {
    Field((a, b) => Product(a, b), a => Inverse(a))
  }

  lemma {:induction false} ProductInverse(a: byte)
    requires a != 0
    ensures Product(a, Inverse(a)) == 1
  {
    hide Product, Doubled, Exp;
    ProductOfLogs(LogOf(a), 255 - LogOf(a));
    ExpOrder();
  }

  lemma {:induction false} ExpOrder()
    ensures Exp(255) == 1 && Exp(1) == 2 && Exp(0) == 1
  {
    hide Doubled;
    PowersAtDivisors();
    PowersAreMasks();
  }

  lemma {:induction false} GfIsLawful()
    ensures Gf().Lawful()
  {
    hide Add, Product, Inverse;
    forall a, b, c | At(a, b, c)
      ensures && Product(a, b) == Product(b, a)
              && Product(Product(a, b), c) == Product(a, Product(b, c))
              && Product(a, Add(b, c)) == Add(Product(a, b), Product(a, c))
              && Product(1, a) == a
              && (a != 0 ==> Product(a, Inverse(a)) == 1)
    {
      ProductComm(a, b);
      ProductAssoc(a, b, c);
      ProductAdd(b, c, a);
      ProductOne(a);
      if a != 0 {
        ProductInverse(a);
      }
    }
  }

  /** What field this is: twice a byte is its bits one place up, and the one that falls out comes back as 29. Together
      with the field laws that fixes every product. */
  lemma {:induction false} TwiceInField(a: byte)
    ensures Gf().mul(2, a) == Gf().mul(a, 2) == if a < 128 then a << 1 else (a << 1) ^ 29
  {
    TwiceIsDouble(a);
    DoubleIs(a);
    hide Double, Product;
  }

  lemma {:induction false} TwiceIsDouble(a: byte)
    ensures Product(2, a) == Double(a) == Product(a, 2)
  {
    hide Product, Double, Exp;
    ProductOfDoubled(1, a, 1);
    ProductOne(a);
    ProductComm(a, 2);
    ExpOrder();
    assert Doubled(1, 1) == Exp(1) by { ExpIs(1); }
    assert Doubled(a, 1) == Double(Doubled(a, 0));
  }

  lemma {:induction false} ExpIs(n: nat)
    ensures Exp(n) == Doubled(1, n)
  {
  }

  lemma {:induction false} DoubleIs(a: byte)
    ensures Double(a) == if a < 128 then a << 1 else (a << 1) ^ 29
  {
  }

  lemma {:induction false} PowIsExp(n: nat)
    ensures Pow(Gf(), 2, n) == Exp(n)
  {
    hide Product, Doubled, Exp;
    ExpOrder();
    if n == 0 {
    } else {
      PowIsExp(n - 1);
      ProductOfLogs(1, n - 1);
    }
  }

  /** The exponential table meets what the code asks of it. */
  lemma {:induction false} GfExpTable(exp: seq<byte>)
    requires |exp| == 510 && forall n :: 0 <= n < |exp| ==> exp[n] == Exp(n)
    ensures IsExpTable(Gf(), exp)
  {
    hide Product, Doubled, Exp, Pow;
    ExpOrder();
    forall n: nat ensures Pow(Gf(), 2, n) == Exp(n) {
      PowIsExp(n);
    }
    forall n | 0 < n < 255 ensures Exp(n) != 1 {
      OrderIs255(n);
    }
  }

  // ------------------------------------------------------------- the tables

  ghost predicate IsLogTable(log: seq<nat>) {
    |log| == 256 && forall n :: 0 <= n < 255 ==> log[Index(Exp(n))] == n
  }

  ghost predicate IsExpSeq(exp: seq<byte>) {
    |exp| == 510 && forall n :: 0 <= n < 510 ==> exp[n] == Exp(n)
  }

  lemma {:induction false} LogTableAt(log: seq<nat>, a: byte)
    requires IsLogTable(log) && a != 0
    ensures log[Index(a)] < 255 && Exp(log[Index(a)]) == a
  {
    hide Exp, Index;
    var n := LogOf(a);
    assert log[Index(Exp(n))] == n;
  }

  method GenLogTable() returns (log: array<nat>)
    ensures fresh(log) && IsLogTable(log[..])
  {
    hide Double, Doubled, Index;
    log := new nat[256](_ => 0);
    var b: byte := 1;
    ExpOrder();
    for i := 0 to 255
      invariant b == Exp(i)
      invariant forall n :: 0 <= n < i ==> log[Index(Exp(n))] == n
    {
      forall n | 0 <= n < i ensures Index(Exp(n)) != Index(b) {
        ExpInjective(n, i);
        ByteRange(Exp(n));
        ByteRange(b);
      }
      log[Index(b)] := i;
      ExpStep(i);
      b := Double(b);
    }
  }

  lemma {:induction false} ExpStep(n: nat)
    ensures Exp(n + 1) == Double(Exp(n))
  {
    hide Double;
  }

  method GenExpTable(log: array<nat>) returns (exp: array<byte>)
    requires IsLogTable(log[..])
    ensures fresh(exp) && IsExpSeq(exp[..])
  {
    hide Exp, Index, ByteOf;
    exp := new byte[510](_ => 0);
    forall n | 0 <= n < 255 ensures Index(Exp(n)) != 0 {
      ExpNonZero(n);
      ByteRange(Exp(n));
    }
    for i := 1 to 256
      invariant IsLogTable(log[..])
      invariant forall n :: 0 <= n < 255 && Index(Exp(n)) < i ==> exp[n] == Exp(n) && exp[n + 255] == Exp(n)
    {
      IndexRange(i);
      LogTableAt(log[..], ByteOf(i));
      var l := log[i];
      exp[l] := ByteOf(i);
      exp[l + 255] := ByteOf(i);
      forall n | 0 <= n < 255 && Index(Exp(n)) < i + 1 ensures exp[n] == Exp(n) && exp[n + 255] == Exp(n) {
        ByteRange(Exp(n));
        if Index(Exp(n)) == i {
          assert log[..][Index(Exp(n))] == n;
        }
      }
    }
    forall n | 0 <= n < 510 ensures exp[n] == Exp(n) {
      ExpNonZero(n);
      ExpMod(n);
      var m := if n < 255 then n else n - 255;
      assert exp[m] == Exp(m) && exp[m + 255] == Exp(m);
    }
  }

  /** `multiply` of the table generator: by logarithms. */
  method Multiply(log: array<nat>, exp: array<byte>, a: byte, b: byte) returns (c: byte)
    requires IsLogTable(log[..]) && IsExpSeq(exp[..])
    ensures c == Product(a, b)
  {
    hide Exp, Index, Product;
    if a == 0 || b == 0 {
      ProductZero(b);
      ProductZero(a);
      ProductComm(a, b);
      c := 0;
    } else {
      LogTableAt(log[..], a);
      LogTableAt(log[..], b);
      ProductOfLogs(log[Index(a)], log[Index(b)]);
      c := exp[log[Index(a)] + log[Index(b)]];
    }
  }

  method GenMulTable(log: array<nat>, exp: array<byte>) returns (mul: array2<byte>)
    requires IsLogTable(log[..]) && IsExpSeq(exp[..])
    ensures fresh(mul) && mul.Length0 == mul.Length1 == 256
    ensures forall a, b :: 0 <= a < 256 && 0 <= b < 256 ==> mul[a, b] == Product(ByteOf(a), ByteOf(b))
  {
    hide Exp, Index, Product, ByteOf;
    mul := new byte[256, 256];
    for a := 0 to 256
      invariant IsLogTable(log[..]) && IsExpSeq(exp[..])
      invariant forall i, j :: 0 <= i < a && 0 <= j < 256 ==> mul[i, j] == Product(ByteOf(i), ByteOf(j))
    {
      for b := 0 to 256
        invariant IsLogTable(log[..]) && IsExpSeq(exp[..])
        invariant forall i, j :: 0 <= i < a && 0 <= j < 256 ==> mul[i, j] == Product(ByteOf(i), ByteOf(j))
        invariant forall j :: 0 <= j < b ==> mul[a, j] == Product(ByteOf(a), ByteOf(j))
      {
        var c := Multiply(log, exp, ByteOf(a), ByteOf(b));
        mul[a, b] := c;
      }
    }
  }

  method GenInvTable(log: array<nat>, exp: array<byte>) returns (inv: array<byte>)
    requires IsLogTable(log[..]) && IsExpSeq(exp[..])
    ensures fresh(inv) && inv.Length == 256
    ensures forall i :: 0 <= i < 256 ==> inv[i] == Inverse(ByteOf(i))
  {
    hide Exp, Index, ByteOf;
    inv := new byte[256](_ => 0);
    IndexRange(0);
    for i := 1 to 256
      invariant IsLogTable(log[..]) && IsExpSeq(exp[..])
      invariant forall j :: 0 <= j < i ==> inv[j] == Inverse(ByteOf(j))
    {
      IndexRange(i);
      LogTableAt(log[..], ByteOf(i));
      LogOfExp(log[i]);
      inv[i] := exp[255 - log[i]];
    }
  }

  /** `galois::div`: subtraction of logarithms. */
  method Divide(log: array<nat>, exp: array<byte>, inv: array<byte>, a: byte, b: byte) returns (ok: bool, c: byte)
    requires IsLogTable(log[..]) && IsExpSeq(exp[..]) && inv.Length == 256
    requires forall i :: 0 <= i < 256 ==> inv[i] == Inverse(ByteOf(i))
    ensures ok <==> b != 0
    ensures ok ==> c == Product(a, Inverse(b)) && Product(c, b) == a
  {
    hide Exp, Index, Product, ByteOf, Inverse;
    if b == 0 {
      return false, 0;
    }
    ProductInverse(b);
    ProductAssoc(a, Inverse(b), b);
    ProductComm(Inverse(b), b);
    ProductOne(a);
    ProductComm(1, a);
    ByteRange(b);
    if a == 0 {
      ProductZero(Inverse(b));
      return true, 0;
    }
    if a == 1 {
      ProductOne(Inverse(b));
      return true, inv[Index(b)];
    }
    LogTableAt(log[..], a);
    LogTableAt(log[..], b);
    var la: int, lb: int := log[Index(a)], log[Index(b)];
    QuotientOfLogs(la, lb);
    var r := la - lb;
    if r < 0 {
      r := r + 255;
    }
    return true, exp[r];
  }

  lemma {:induction false} QuotientOfLogs(m: nat, n: nat)
    requires m < 255 && n < 255
    ensures Product(Exp(m), Inverse(Exp(n))) == if m >= n then Exp(m - n) else Exp(m + 255 - n)
  {
    hide Exp, Product;
    LogOfExp(n);
    ProductOfLogs(m, 255 - n);
    ExpMod(m + 255 - n);
  }

  /** `galois::exp`: multiplication of logarithms. */
  method Power(log: array<nat>, exp: array<byte>, a: byte, n: nat) returns (c: byte)
    requires IsLogTable(log[..]) && IsExpSeq(exp[..])
    ensures c == Pow(Gf(), a, n)
  {
    hide Exp, Index, Product, Inverse;
    GfIsLawful();
    if n == 0 {
      return 1;
    } else if a == 0 {
      MulZero(Gf(), Pow(Gf(), 0, n - 1));
      return 0;
    }
    LogTableAt(log[..], a);
    var la := log[Index(a)];
    ProductNonNegative(la, n);
    PowMul(Gf(), 2, la, n);
    PowIsExp(la);
    PowIsExp(la * n);
    var r: nat := la * n;
    while 255 <= r
      invariant Exp(r) == Exp(la * n)
    {
      ExpMod(r);
      r := r - 255;
    }
    return exp[r];
  }

  // ------------------------------------------------------------------ the code

  /** The erasure code over the generated tables. */
  method NewFec(required: nat, total: nat) returns (fec: Fec)
    requires 0 < required < total <= 256
    ensures fec.Valid() && fec.f == Gf() && fec.required == required && fec.total == total
    ensures IsExpSeq(fec.exp) && fresh(fec) && fresh(fec.encMatrix)
  {
    hide Exp, Product, Inverse, Index;
    GfIsLawful();
    var log := GenLogTable();
    var exp := GenExpTable(log);
    GfExpTable(exp[..]);
    fec := new Fec(Gf(), exp[..], required, total);
  }

  // ------------------------------------------------------------ nibble tables

  /** A byte is the sum of its two nibbles, so a product is the sum of two nibble products: the
      vectorised multiplication looks both up and adds them. */
  lemma {:induction false} NibbleProduct(c: byte, x: byte)
    ensures Product(c, x) == Add(Product(c, x & 0x0F), Product(c, x & 0xF0))
  {
    NibbleSplit(x);
    hide Product;
    ProductAdd(x & 0x0F, x & 0xF0, c);
  }

  lemma {:induction false} NibbleSplit(x: byte)
    ensures Add(x & 0x0F, x & 0xF0) == x
  {
  }
}
