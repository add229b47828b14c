/** Fields on bytes whose addition is exclusive or, and polynomials over them.

    A polynomial is the sequence of its coefficients, constant term first. */
module Field {
  import opened Arithmetic
  import opened Lists

  type byte = bv8

  /** Addition, which is also subtraction. */
  function Add(a: byte, b: byte): byte { a ^ b }

  /** Marks the instance of the field laws that a proof asks for; it always holds. */
  ghost predicate At(a: byte, b: byte, c: byte) { true }

  /** Multiplication and inverse of a field whose addition is `Add`. */
  datatype Field = Field(mul: (byte, byte) -> byte, inv: byte -> byte)
  {
    ghost predicate Lawful() {
      forall a, b, c {:trigger At(a, b, c)} :: At(a, b, c) ==>
        && mul(a, b) == mul(b, a)
        && mul(mul(a, b), c) == mul(a, mul(b, c))
        && mul(a, Add(b, c)) == Add(mul(a, b), mul(a, c))
        && mul(1, a) == a
        && (a != 0 ==> mul(a, inv(a)) == 1)
    }
  }

  // --------------------------------------------------------------- addition

  lemma {:induction false} AddZero(a: byte)
    ensures Add(a, 0) == a == Add(0, a)
  {
  }

  lemma {:induction false} AddSelf(a: byte)
    ensures Add(a, a) == 0
  {
  }

  lemma {:induction false} AddComm(a: byte, b: byte)
    ensures Add(a, b) == Add(b, a)
  {
  }

  lemma {:induction false} AddAssoc(a: byte, b: byte, c: byte)
    ensures Add(Add(a, b), c) == Add(a, Add(b, c))
  {
  }

  lemma {:induction false} AddCancel(a: byte, b: byte)
    ensures Add(a, b) == 0 <==> a == b
    ensures Add(Add(a, b), b) == a
  {
  }

  /** (a + b) + (c + d) == (a + c) + (b + d) */
  lemma {:induction false} AddSwap(a: byte, b: byte, c: byte, d: byte)
    ensures Add(Add(a, b), Add(c, d)) == Add(Add(a, c), Add(b, d))
  {
    hide *;
    AddAssoc(a, b, Add(c, d));
    AddAssoc(b, c, d);
    AddComm(b, c);
    AddAssoc(c, b, d);
    AddAssoc(a, c, Add(b, d));
  }

  // --------------------------------------------------------- multiplication

  lemma {:induction false} MulComm(f: Field, a: byte, b: byte)
    requires f.Lawful()
    ensures f.mul(a, b) == f.mul(b, a)
  {
    assert At(a, b, a);
  }

  lemma {:induction false} MulAssoc(f: Field, a: byte, b: byte, c: byte)
    requires f.Lawful()
    ensures f.mul(f.mul(a, b), c) == f.mul(a, f.mul(b, c))
  {
    assert At(a, b, c);
  }

  lemma {:induction false} MulOne(f: Field, a: byte)
    requires f.Lawful()
    ensures f.mul(1, a) == a == f.mul(a, 1)
  {
    assert At(a, 1, 1);
  }

  lemma {:induction false} MulInv(f: Field, a: byte)
    requires f.Lawful() && a != 0
    ensures f.mul(a, f.inv(a)) == 1 == f.mul(f.inv(a), a)
  {
    assert At(a, f.inv(a), 1);
  }

  lemma {:induction false} Distrib(f: Field, a: byte, b: byte, c: byte)
    requires f.Lawful()
    ensures f.mul(a, Add(b, c)) == Add(f.mul(a, b), f.mul(a, c))
  {
    hide Add;
    assert At(a, b, c);
  }

  lemma {:induction false} DistribRight(f: Field, a: byte, b: byte, c: byte)
    requires f.Lawful()
    ensures f.mul(Add(a, b), c) == Add(f.mul(a, c), f.mul(b, c))
  {
    hide *;
    Distrib(f, c, a, b);
    MulComm(f, c, Add(a, b));
    MulComm(f, c, a);
    MulComm(f, c, b);
  }

  lemma {:induction false} MulZero(f: Field, a: byte)
    requires f.Lawful()
    ensures f.mul(a, 0) == 0 == f.mul(0, a)
  {
    hide *;
    Distrib(f, a, 0, 0);
    AddZero(0);
    AddSelf(f.mul(a, 0));
    MulComm(f, a, 0);
  }

  /** a (b c) == b (a c) */
  lemma {:induction false} MulSwap(f: Field, a: byte, b: byte, c: byte)
    requires f.Lawful()
    ensures f.mul(a, f.mul(b, c)) == f.mul(b, f.mul(a, c))
  {
    hide *;
    MulAssoc(f, a, b, c);
    MulComm(f, a, b);
    MulAssoc(f, b, a, c);
  }

  /** A product is zero only when a factor is. */
  lemma {:induction false} NoZeroDivisors(f: Field, a: byte, b: byte)
    requires f.Lawful() && f.mul(a, b) == 0
    ensures a == 0 || b == 0
  {
    hide *;
    if a != 0 {
      MulInv(f, a);
      MulAssoc(f, f.inv(a), a, b);
      MulOne(f, b);
      MulZero(f, f.inv(a));
    }
  }

  // ------------------------------------------------------------- polynomials

  type Poly = seq<byte>

  /** The value of a polynomial, by Horner's rule. */
  ghost function Eval(f: Field, p: Poly, x: byte): byte {
    if p == [] then 0 else Add(p[0], f.mul(x, Eval(f, p[1..], x)))
  }

  /** Synthetic division by (X + r): each coefficient is the value of the remaining suffix at r. */
  ghost function Quotient(f: Field, p: Poly, r: byte): (q: Poly)
    ensures |q| == if p == [] then 0 else |p| - 1
  {
    if |p| <= 1 then [] else [Eval(f, p[1..], r)] + Quotient(f, p[1..], r)
  }

  lemma {:induction false} QuotientAt(f: Field, p: Poly, r: byte, i: nat)
    requires i + 1 < |p|
    ensures Quotient(f, p, r)[i] == Eval(f, p[i + 1..], r)
  {
    if i == 0 {
    } else {
      QuotientAt(f, p[1..], r, i - 1);
      assert p[1..][i..] == p[i + 1..];
    }
  }

  lemma {:induction false} EvalStep(f: Field, p: Poly, x: byte)
    requires p != []
    ensures Eval(f, p, x) == Add(p[0], f.mul(x, Eval(f, p[1..], x)))
  {
    hide Add;
  }

  /** p(x) + p(r) == (x + r) q(x) for the quotient q of p by (X + r). */
  lemma {:induction false} DivideLinear(f: Field, p: Poly, r: byte, x: byte)
    requires f.Lawful()
    ensures Add(Eval(f, p, x), Eval(f, p, r)) == f.mul(Add(x, r), Eval(f, Quotient(f, p, r), x))
  {
    hide Add, Field.Lawful;
    if |p| <= 1 {
      MulZero(f, x);
      MulZero(f, r);
      MulZero(f, Add(x, r));
      AddZero(if p == [] then 0 else p[0]);
      AddSelf(Eval(f, p, x));
    } else {
      var rest, q := p[1..], Quotient(f, p, r);
      DivideLinear(f, rest, r, x);
      assert q[1..] == Quotient(f, rest, r) && q[0] == Eval(f, rest, r);
      DivideStep(f, x, r, p[0], Eval(f, rest, x), Eval(f, rest, r), Eval(f, q[1..], x));
    }
  }

  lemma {:induction false} DivideStep(f: Field, x: byte, r: byte, p0: byte, ex: byte, er: byte, eq: byte)
    requires f.Lawful()
    requires Add(ex, er) == f.mul(Add(x, r), eq)
    ensures Add(Add(p0, f.mul(x, ex)), Add(p0, f.mul(r, er))) == f.mul(Add(x, r), Add(er, f.mul(x, eq)))
  {
    hide *;
    var xx, xr, rr := f.mul(x, ex), f.mul(x, er), f.mul(r, er);
    Distrib(f, Add(x, r), er, f.mul(x, eq));
    DistribRight(f, x, r, er);
    MulSwap(f, Add(x, r), x, eq);
    Distrib(f, x, ex, er);
    DivideShape(p0, xx, xr, rr);
  }

  lemma {:induction false} DivideShape(p: byte, u: byte, v: byte, w: byte)
    ensures Add(Add(p, u), Add(p, w)) == Add(Add(v, w), Add(u, v))
  {
  }

  // ------------------------------------------------------------------- roots

  ghost predicate Zero(p: Poly) { forall i :: 0 <= i < |p| ==> p[i] == 0 }

  ghost predicate Vanishes(f: Field, p: Poly, xs: seq<byte>) { forall i :: 0 <= i < |xs| ==> Eval(f, p, xs[i]) == 0 }

  lemma {:induction false} EvalZero(f: Field, p: Poly, x: byte)
    requires f.Lawful() && Zero(p)
    ensures Eval(f, p, x) == 0
  {
    hide Add, Field.Lawful;
    if p == [] {
    } else {
      EvalZero(f, p[1..], x);
      MulZero(f, x);
      AddZero(0);
    }
  }

  /** When the quotient by (X + r) is zero and r is a root, the polynomial is zero. */
  lemma {:induction false} ZeroQuotient(f: Field, p: Poly, r: byte)
    requires f.Lawful() && Zero(Quotient(f, p, r)) && Eval(f, p, r) == 0
    ensures Zero(p)
  {
    hide Add, Field.Lawful;
    if p == [] {
    } else {
      var rest := p[1..];
      if |p| > 1 {
        assert Quotient(f, p, r)[0] == 0;
        assert Quotient(f, p, r)[1..] == Quotient(f, rest, r);
        ZeroQuotient(f, rest, r);
      }
      MulZero(f, r);
      AddZero(p[0]);
    }
  }

  /** A polynomial with as many distinct roots as coefficients is zero. */
  lemma {:induction false} TooManyRoots(f: Field, p: Poly, xs: seq<byte>)
    requires f.Lawful() && Distinct(xs) && |xs| == |p| && Vanishes(f, p, xs)
    ensures Zero(p)
    decreases |p|
  {
    hide Add, Eval, Quotient, Field.Lawful;
    if p == [] {
    } else {
      var r, q, rest := xs[0], Quotient(f, p, xs[0]), xs[1..];
      forall i | 0 <= i < |rest| ensures Eval(f, q, rest[i]) == 0 {
        var x := xs[i + 1];
        DivideLinear(f, p, r, x);
        AddZero(0);
        NoZeroDivisors(f, Add(x, r), Eval(f, q, x));
        AddCancel(x, r);
      }
      TooManyRoots(f, q, rest);
      ZeroQuotient(f, p, r);
    }
  }

  // ---------------------------------------------------------- linear algebra

  ghost function PolyAdd(p: Poly, q: Poly): (r: Poly)
    requires |p| == |q|
    ensures |r| == |p| && forall i :: 0 <= i < |p| ==> r[i] == Add(p[i], q[i])
  {
    seq(|p|, i requires 0 <= i < |p| => Add(p[i], q[i]))
  }

  ghost function Scale(f: Field, c: byte, p: Poly): (r: Poly)
    ensures |r| == |p| && forall i :: 0 <= i < |p| ==> r[i] == f.mul(c, p[i])
  {
    seq(|p|, i requires 0 <= i < |p| => f.mul(c, p[i]))
  }

  lemma {:induction false} EvalAdd(f: Field, p: Poly, q: Poly, x: byte)
    requires f.Lawful() && |p| == |q|
    ensures Eval(f, PolyAdd(p, q), x) == Add(Eval(f, p, x), Eval(f, q, x))
  {
    hide Add, Field.Lawful;
    if p == [] {
      AddZero(0);
    } else {
      EvalAdd(f, p[1..], q[1..], x);
      assert PolyAdd(p, q)[1..] == PolyAdd(p[1..], q[1..]);
      var u, v := Eval(f, p[1..], x), Eval(f, q[1..], x);
      Distrib(f, x, u, v);
      AddSwap(p[0], q[0], f.mul(x, u), f.mul(x, v));
    }
  }

  lemma {:induction false} EvalScale(f: Field, c: byte, p: Poly, x: byte)
    requires f.Lawful()
    ensures Eval(f, Scale(f, c, p), x) == f.mul(c, Eval(f, p, x))
  {
    hide Add, Field.Lawful;
    if p == [] {
      MulZero(f, c);
    } else {
      EvalScale(f, c, p[1..], x);
      assert Scale(f, c, p)[1..] == Scale(f, c, p[1..]);
      var u := Eval(f, p[1..], x);
      MulSwap(f, x, c, u);
      Distrib(f, c, p[0], f.mul(x, u));
    }
  }

  /** Two polynomials of the same length that agree on as many distinct points are equal. */
  lemma {:induction false} Interpolation(f: Field, p: Poly, q: Poly, xs: seq<byte>)
    requires f.Lawful() && |p| == |q| == |xs| && Distinct(xs)
    requires forall i :: 0 <= i < |xs| ==> Eval(f, p, xs[i]) == Eval(f, q, xs[i])
    ensures p == q
  {
    hide Add, Eval, Field.Lawful;
    var d := PolyAdd(p, q);
    forall i | 0 <= i < |xs| ensures Eval(f, d, xs[i]) == 0 {
      EvalAdd(f, p, q, xs[i]);
      AddSelf(Eval(f, p, xs[i]));
    }
    TooManyRoots(f, d, xs);
    forall i | 0 <= i < |p| ensures p[i] == q[i] {
      assert d[i] == 0;
      AddCancel(p[i], q[i]);
    }
  }

  // ------------------------------------------------------------------ powers

  ghost function Pow(f: Field, x: byte, n: nat): byte {
    if n == 0 then 1 else f.mul(x, Pow(f, x, n - 1))
  }

  lemma {:induction false} PowAdd(f: Field, x: byte, m: nat, n: nat)
    requires f.Lawful()
    ensures Pow(f, x, m + n) == f.mul(Pow(f, x, m), Pow(f, x, n))
  {
    hide Add, Field.Lawful;
    if m == 0 {
      MulOne(f, Pow(f, x, n));
    } else {
      PowAdd(f, x, m - 1, n);
      MulAssoc(f, x, Pow(f, x, m - 1), Pow(f, x, n));
    }
  }

  lemma {:induction false} PowMul(f: Field, x: byte, m: nat, n: nat)
    requires f.Lawful()
    ensures Pow(f, x, m * n) == Pow(f, Pow(f, x, m), n)
  {
    hide Add, Field.Lawful;
    if n == 0 {
    } else {
      PowMul(f, x, m, n - 1);
      assert m * n == m + m * (n - 1);
      ProductNonNegative(m, n - 1);
      PowAdd(f, x, m, m * (n - 1));
    }
  }

  lemma {:induction false} PowNonZero(f: Field, x: byte, n: nat)
    requires f.Lawful() && x != 0
    ensures Pow(f, x, n) != 0
  {
    hide Add, Field.Lawful;
    if n > 0 {
      PowNonZero(f, x, n - 1);
      if Pow(f, x, n) == 0 {
        NoZeroDivisors(f, x, Pow(f, x, n - 1));
      }
    } else {
      OneIsNotZero();
    }
  }

  lemma {:induction false} OneIsNotZero()
    ensures 1 != 0 as byte
  {
  }

  /** The sum of coefficients times powers, lowest first. */
  ghost function PowerSum(f: Field, p: Poly, x: byte): byte {
    if p == [] then 0 else Add(PowerSum(f, p[..|p| - 1], x), f.mul(p[|p| - 1], Pow(f, x, |p| - 1)))
  }

  lemma {:induction false} EvalSnoc(f: Field, p: Poly, c: byte, x: byte)
    requires f.Lawful()
    ensures Eval(f, p + [c], x) == Add(Eval(f, p, x), f.mul(c, Pow(f, x, |p|)))
  {
    hide Add, Field.Lawful;
    if p == [] {
      MulZero(f, x);
      MulOne(f, c);
      AddZero(c);
    } else {
      var rest, w := p[1..], f.mul(c, Pow(f, x, |p| - 1));
      EvalSnoc(f, rest, c, x);
      assert (p + [c])[1..] == rest + [c];
      Distrib(f, x, Eval(f, rest, x), w);
      MulSwap(f, x, c, Pow(f, x, |p| - 1));
      AddAssoc(p[0], f.mul(x, Eval(f, rest, x)), f.mul(x, w));
    }
  }

  /** Horner's rule and the sum of powers give the same value. */
  lemma {:induction false} PowerSumIsEval(f: Field, p: Poly, x: byte)
    requires f.Lawful()
    ensures PowerSum(f, p, x) == Eval(f, p, x)
  {
    hide Add, Field.Lawful;
    if p == [] {
    } else {
      var init := p[..|p| - 1];
      PowerSumIsEval(f, init, x);
      EvalSnoc(f, init, p[|p| - 1], x);
      assert p == init + [p[|p| - 1]];
    }
  }

  /** The coefficients of (X + r) p. */
  ghost function MulLinear(f: Field, p: Poly, r: byte): (q: Poly)
    ensures |q| == |p| + 1
  {
    PolyAdd([0] + p, Scale(f, r, p) + [0])
  }

  lemma {:induction false} EvalMulLinear(f: Field, p: Poly, r: byte, x: byte)
    requires f.Lawful()
    ensures Eval(f, MulLinear(f, p, r), x) == f.mul(Add(x, r), Eval(f, p, x))
  {
    hide Add, Field.Lawful, Pow;
    var shifted, scaled := [0] + p, Scale(f, r, p);
    assert shifted[1..] == p;
    AddZero(f.mul(x, Eval(f, p, x)));
    EvalSnoc(f, scaled, 0, x);
    MulZero(f, Pow(f, x, |p|));
    AddZero(Eval(f, scaled, x));
    EvalScale(f, r, p, x);
    EvalAdd(f, shifted, scaled + [0], x);
    DistribRight(f, x, r, Eval(f, p, x));
  }
}
