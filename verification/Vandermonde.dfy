/** The inverse Vandermonde matrix by synthetic division: column `row` holds the coefficients of
    the Lagrange polynomial that is one at point `row` and zero at the other points. */
module Vandermonde {
  import opened Lists
  import opened Field

  /** The points 0, exp[1], exp[2], ... */
  ghost function Points(exp: seq<byte>, k: nat): (pts: seq<byte>)
    requires k <= |exp|
    ensures |pts| == k
    ensures forall i :: 0 <= i < k ==> pts[i] == if i == 0 then 0 else exp[i]
  {
    seq(k, i requires 0 <= i < k => if i == 0 then 0 else exp[i])
  }

  /** One at point `row`, zero at the others. */
  ghost predicate IsLagrange(f: Field, pts: seq<byte>, row: nat, p: Poly) {
    |p| == |pts| && forall j :: 0 <= j < |pts| ==> Eval(f, p, pts[j]) == if j == row then 1 else 0
  }

  /** The monic polynomial that vanishes at the points, zero among them, and nowhere else. */
  ghost predicate IsMaster(f: Field, p: Poly, pts: seq<byte>) {
    && |p| == |pts| + 1 && p[|pts|] == 1 && p[0] == 0 && Vanishes(f, p, pts)
    && forall x: byte :: Eval(f, p, x) == 0 ==> x in pts
  }

  /** Multiplying by (X + r) adds the root r. */
  lemma {:induction false} MasterStep(f: Field, p: Poly, pts: seq<byte>, r: byte)
    requires f.Lawful() && pts != [] && IsMaster(f, p, pts)
    ensures IsMaster(f, MulLinear(f, p, r), pts + [r])
  {
    hide Add, Eval, Field.Lawful;
    var q := MulLinear(f, p, r);
    forall i | 0 <= i < |pts + [r]| ensures Eval(f, q, (pts + [r])[i]) == 0 {
      var x := (pts + [r])[i];
      EvalMulLinear(f, p, r, x);
      if i < |pts| {
        MulZero(f, Add(x, r));
      } else {
        AddSelf(r);
        MulZero(f, Eval(f, p, x));
      }
    }
    forall x: byte | Eval(f, q, x) == 0 ensures x in pts + [r] {
      EvalMulLinear(f, p, r, x);
      NoZeroDivisors(f, Add(x, r), Eval(f, p, x));
      AddCancel(x, r);
    }
    MulZero(f, r);
    AddZero(0);
    AddZero(1);
  }

  lemma {:induction false} MasterStart(f: Field, p: Poly)
    requires f.Lawful() && p == [0, 1]
    ensures IsMaster(f, p, [0])
  {
    hide Add, Field.Lawful;
    forall x: byte ensures Eval(f, p, x) == x {
      assert p[1..] == [1] && p[1..][1..] == [];
      EvalStep(f, p, x);
      EvalStep(f, [1], x);
      MulZero(f, x);
      MulOne(f, x);
      AddZero(1);
      AddZero(x);
    }
  }

  /** The coefficients of (X + r) p when p(0) is zero, one by one, as the loop computes them. */
  lemma {:induction false} MulLinearAt(f: Field, p: Poly, r: byte, q: Poly)
    requires f.Lawful() && |p| >= 2 && p[0] == 0 && p[|p| - 1] == 1 && |q| == |p| + 1
    requires q[0] == 0 && q[|p|] == 1 && q[|p| - 1] == Add(p[|p| - 2], r)
    requires forall t :: 1 <= t < |p| - 1 ==> q[t] == Add(p[t - 1], f.mul(r, p[t]))
    ensures q == MulLinear(f, p, r)
  {
    hide Add, Field.Lawful;
    MulZero(f, r);
    MulOne(f, r);
    AddZero(0);
    AddZero(1);
  }

  /** The last i entries of c, with a leading one, are the product over the first i points; the
      entries before them are zero. */
  ghost predicate MasterTail(f: Field, c: seq<byte>, pts: seq<byte>, i: nat) {
    1 <= i <= |c| == |pts| && IsMaster(f, c[|c| - i..] + [1], pts[..i]) && forall j :: 0 <= j <= |c| - i && j < |c| ==> c[j] == 0
  }

  lemma {:induction false} MasterTailStep(f: Field, c: seq<byte>, pts: seq<byte>, i: nat, c': seq<byte>)
    requires f.Lawful() && i < |pts| && MasterTail(f, c, pts, i) && |c'| == |c|
    requires forall t :: 0 <= t < |c| - i ==> c'[t] == c[t]
    requires forall t :: |c| - i <= t < |c| - 1 ==> c'[t] == Add(c[t], f.mul(pts[i], c[t + 1]))
    requires c'[|c| - 1] == Add(c[|c| - 1], pts[i])
    ensures MasterTail(f, c', pts, i + 1)
  {
    hide Add, Eval, Field.Lawful, MulLinear, Vanishes;
    var k := |c|;
    var p, q := c[k - i..] + [1], c'[k - i - 1..] + [1];
    forall t | 1 <= t < |p| - 1 ensures q[t] == Add(p[t - 1], f.mul(pts[i], p[t])) {
      assert q[t] == c'[k - i - 1 + t];
      assert p[t - 1] == c[k - i - 1 + t] && p[t] == c[k - i + t];
    }
    MulLinearAt(f, p, pts[i], q);
    MasterStep(f, p, pts[..i], pts[i]);
    assert pts[..i] + [pts[i]] == pts[..i + 1];
  }

  /** Multiplies the polynomial in the last i entries by (X + r), in place. */
  method MultiplyTail(f: Field, c: array<byte>, i: nat, r: byte)
    requires 1 <= i < c.Length
    modifies c
    ensures forall t :: 0 <= t < c.Length - i ==> c[..][t] == old(c[..])[t]
    ensures forall t :: c.Length - i <= t < c.Length - 1 ==> c[..][t] == Add(old(c[..])[t], f.mul(r, old(c[..])[t + 1]))
    ensures c[..][c.Length - 1] == Add(old(c[..])[c.Length - 1], r)
  {
    hide Add;
    var k := c.Length;
    ghost var was := c[..];
    for j := k - i to k - 1
      invariant forall t :: 0 <= t < k - i ==> c[t] == was[t]
      invariant forall t :: k - i <= t < j ==> c[t] == Add(was[t], f.mul(r, was[t + 1]))
      invariant forall t :: j <= t < k ==> c[t] == was[t]
    {
      c[j] := Add(c[j], f.mul(r, c[j + 1]));
    }
    c[k - 1] := Add(c[k - 1], r);
  }

  /** The coefficients, leading one excluded, of the product of (X + point) over all points. */
  method MasterPolynomial(f: Field, exp: seq<byte>, k: nat) returns (c: array<byte>)
    requires f.Lawful() && 2 <= k <= |exp|
    ensures fresh(c) && c.Length == k
    ensures IsMaster(f, c[..] + [1], Points(exp, k))
  {
    hide Add, Eval, Field.Lawful, IsMaster;
    c := new byte[k](_ => 0);
    ghost var pts := Points(exp, k);
    MasterStart(f, [0, 1]);
    assert c[..][k - 1..] + [1] == [0, 1] && pts[..1] == [0];
    for i := 1 to k
      invariant MasterTail(f, c[..], pts, i)
    {
      ghost var was := c[..];
      MultiplyTail(f, c, i, exp[i]);
      MasterTailStep(f, was, pts, i, c[..]);
    }
    assert c[..][0..] == c[..] && pts[..k] == pts;
  }

  /** The polynomial without the root at point `row`, and its value there. */
  lemma {:induction false} QuotientSeparates(f: Field, m: Poly, pts: seq<byte>, row: nat)
    requires f.Lawful() && IsMaster(f, m, pts) && Distinct(pts) && row < |pts|
    ensures var q := Quotient(f, m, pts[row]);
            Eval(f, q, pts[row]) != 0 && IsLagrange(f, pts, row, Scale(f, f.inv(Eval(f, q, pts[row])), q))
  {
    hide Add, Eval, Quotient, Field.Lawful;
    var q, r := Quotient(f, m, pts[row]), pts[row];
    forall j | 0 <= j < |pts| && j != row ensures Eval(f, q, pts[j]) == 0 {
      DivideLinear(f, m, r, pts[j]);
      AddZero(0);
      NoZeroDivisors(f, Add(pts[j], r), Eval(f, q, pts[j]));
      AddCancel(pts[j], r);
    }
    QuotientLeads(f, m, r);
    OneIsNotZero();
    var t := Eval(f, q, r);
    if t == 0 {
      TooManyRoots(f, q, pts);
    }
    forall j | 0 <= j < |pts| ensures Eval(f, Scale(f, f.inv(t), q), pts[j]) == if j == row then 1 else 0 {
      EvalScale(f, f.inv(t), q, pts[j]);
      MulInv(f, t);
      MulZero(f, f.inv(t));
    }
  }

  /** Synthetic division keeps the leading coefficient. */
  lemma {:induction false} QuotientLeads(f: Field, m: Poly, r: byte)
    requires f.Lawful() && |m| >= 2
    ensures Quotient(f, m, r)[|m| - 2] == m[|m| - 1]
  {
    hide Add, Quotient, Field.Lawful;
    QuotientAt(f, m, r, |m| - 2);
    assert m[|m| - 1..] == [m[|m| - 1]];
    MulZero(f, r);
    AddZero(m[|m| - 1]);
  }

  /** Divides the master polynomial by (X + r), writing the quotient to b and returning its value at r. */
  method DivideAndEvaluate(f: Field, c: array<byte>, r: byte, b: array<byte>) returns (t: byte)
    requires f.Lawful() && 2 <= c.Length == b.Length && b != c
    modifies b
    ensures b[..] == Quotient(f, c[..] + [1], r)
    ensures t == Eval(f, b[..], r)
  {
    hide Add, Eval, Quotient, Field.Lawful;
    var k := c.Length;
    ghost var m := c[..] + [1];
    ghost var q := Quotient(f, m, r);
    t := 1;
    b[k - 1] := 1;
    QuotientLeads(f, m, r);
    EvalConstant(f, 1, r);
    assert b[k - 1..] == [1] == q[k - 1..];
    for i := k - 1 downto 0
      invariant c[..] + [1] == m
      invariant b[i..] == q[i..] && t == Eval(f, q[i..], r)
    {
      ghost var above := b[i + 1..];
      b[i] := Add(c[i + 1], f.mul(r, b[i + 1]));
      assert b[i + 1..] == above;
      QuotientStep(f, m, r, i);
      assert b[i..] == [b[i]] + b[i + 1..] == q[i..];
      t := Add(b[i], f.mul(r, t));
      EvalStep(f, q[i..], r);
      assert q[i..][1..] == q[i + 1..];
    }
    assert b[0..] == b[..] && q[0..] == q;
  }

  lemma {:induction false} EvalConstant(f: Field, c: byte, x: byte)
    requires f.Lawful()
    ensures Eval(f, [c], x) == c
  {
    hide Add, Field.Lawful;
    MulZero(f, x);
    AddZero(c);
  }

  lemma {:induction false} QuotientStep(f: Field, m: Poly, r: byte, i: nat)
    requires i + 2 < |m|
    ensures Quotient(f, m, r)[i] == Add(m[i + 1], f.mul(r, Quotient(f, m, r)[i + 1]))
  {
    hide Add, Quotient;
    QuotientAt(f, m, r, i);
    QuotientAt(f, m, r, i + 1);
    assert m[i + 1..][1..] == m[i + 2..];
  }

  ghost function Column(vdm: array2<byte>, k: nat, col: nat): (c: seq<byte>)
    reads vdm
    requires k <= vdm.Length0 && col < vdm.Length1
    ensures |c| == k && forall i :: 0 <= i < k ==> c[i] == vdm[i, col]
  {
    seq(k, i requires 0 <= i < k reads vdm => vdm[i, col])
  }

  /** Fills the upper k x k part of vdm with the Lagrange coefficients, column by column. */
  method CreateInvertedVdm(f: Field, exp: seq<byte>, vdm: array2<byte>, k: nat)
    requires f.Lawful() && 1 <= k <= |exp| && k <= vdm.Length0 && vdm.Length1 == k
    requires Distinct(Points(exp, k))
    modifies vdm
    ensures forall row :: 0 <= row < k ==> IsLagrange(f, Points(exp, k), row, Column(vdm, k, row))
  {
    hide Add, Eval, Quotient, Field.Lawful, IsMaster, IsLagrange;
    if k == 1 {
      vdm[0, 0] := 1;
      assert Column(vdm, 1, 0) == [1];
      LagrangeOfOne(f, Points(exp, 1));
      return;
    }
    ghost var pts := Points(exp, k);
    var c := MasterPolynomial(f, exp, k);
    ghost var m := c[..] + [1];
    var b := new byte[k];
    for row := 0 to k
      invariant c[..] + [1] == m
      invariant forall j :: 0 <= j < row ==> IsLagrange(f, pts, j, Column(vdm, k, j))
    {
      var r := if row != 0 then exp[row] else 0;
      var t := DivideAndEvaluate(f, c, r, b);
      QuotientSeparates(f, m, pts, row);
      ghost var columns := seq(row, j requires 0 <= j < row reads vdm => Column(vdm, k, j));
      for col := 0 to k
        invariant c[..] + [1] == m && b[..] == Quotient(f, m, r)
        invariant forall j :: 0 <= j < row ==> Column(vdm, k, j) == columns[j]
        invariant forall i :: 0 <= i < col ==> vdm[i, row] == f.mul(f.inv(t), b[i])
      {
        vdm[col, row] := f.mul(f.inv(t), b[col]);
        assert forall j :: 0 <= j < row ==> Column(vdm, k, j) == columns[j];
      }
      assert Column(vdm, k, row) == Scale(f, f.inv(t), b[..]);
    }
  }

  lemma {:induction false} LagrangeOfOne(f: Field, pts: seq<byte>)
    requires f.Lawful() && |pts| == 1
    ensures IsLagrange(f, pts, 0, [1])
  {
    EvalConstant(f, 1, pts[0]);
  }

  // --------------------------------------------------------------- existence

  lemma {:induction false} MasterExists(f: Field, pts: seq<byte>) returns (m: Poly)
    requires f.Lawful() && pts != [] && pts[0] == 0
    ensures IsMaster(f, m, pts)
  {
    hide Field.Lawful, Eval, IsMaster, MulLinear;
    if |pts| == 1 {
      m := [0, 1];
      MasterStart(f, m);
      assert pts == [0];
    } else {
      var init := pts[..|pts| - 1];
      var p := MasterExists(f, init);
      m := MulLinear(f, p, pts[|pts| - 1]);
      MasterStep(f, p, init, pts[|pts| - 1]);
      assert pts == init + [pts[|pts| - 1]];
    }
  }

  /** One Lagrange polynomial per point. */
  ghost predicate IsBasis(f: Field, pts: seq<byte>, basis: seq<Poly>) {
    |basis| == |pts| && forall j :: 0 <= j < |pts| ==> IsLagrange(f, pts, j, basis[j])
  }

  lemma {:induction false} BasisExists(f: Field, pts: seq<byte>) returns (basis: seq<Poly>)
    requires f.Lawful() && Distinct(pts) && pts != [] && pts[0] == 0
    ensures IsBasis(f, pts, basis)
  {
    hide Field.Lawful, Eval, Quotient, IsMaster, IsLagrange;
    var m := MasterExists(f, pts);
    basis := seq(|pts|, j requires 0 <= j < |pts| =>
      var q := Quotient(f, m, pts[j]); Scale(f, f.inv(Eval(f, q, pts[j])), q));
    forall j | 0 <= j < |pts| ensures IsLagrange(f, pts, j, basis[j]) {
      QuotientSeparates(f, m, pts, j);
    }
  }
}
