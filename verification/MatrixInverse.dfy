/** Gauss-Jordan elimination on a square matrix, applied to a second matrix at the same time. */
module MatrixInverse {
  import opened Field
  import opened Fec

  type Vector = seq<byte>

  ghost predicate IsSquare(m: seq<Vector>) { forall r :: 0 <= r < |m| ==> |m[r]| == |m| }

  ghost function Unit(k: nat, r: nat): (v: Vector)
    ensures |v| == k && forall c :: 0 <= c < k ==> v[c] == if c == r then 1 else 0
  {
    seq(k, c => if c == r then 1 else 0)
  }

  ghost function Identity(k: nat): (m: seq<Vector>)
    ensures |m| == k && IsSquare(m) && forall r :: 0 <= r < k ==> m[r] == Unit(k, r)
  {
    seq(k, r requires 0 <= r => Unit(k, r))
  }

  /** Row u of a matrix times the matrix m: the rows of m weighted by u. */
  ghost function RowTimes(f: Field, u: Vector, m: seq<Vector>): (v: Vector)
    requires IsSquare(m) && |u| == |m|
    ensures |v| == |m|
  {
    Combination(f, m, u, |m|)
  }

  /** left times m equals right. */
  ghost predicate IsProduct(f: Field, left: seq<Vector>, m: seq<Vector>, right: seq<Vector>) {
    && IsSquare(left) && IsSquare(m) && IsSquare(right) && |left| == |m| == |right|
    && forall r :: 0 <= r < |m| ==> right[r] == RowTimes(f, left[r], m)
  }

  // --------------------------------------------------------------- linearity

  lemma {:induction false} CombinationAdd(f: Field, m: seq<Poly>, d: Vector, e: Vector, len: nat)
    requires f.Lawful() && |m| == |d| == |e| && forall j :: 0 <= j < |m| ==> |m[j]| == len
    ensures Combination(f, m, PolyAdd(d, e), len) == PolyAdd(Combination(f, m, d, len), Combination(f, m, e, len))
  {
    hide Add, Field.Lawful;
    if d == [] {
      AddZero(0);
    } else {
      var n := |d| - 1;
      CombinationAdd(f, m[..n], d[..n], e[..n], len);
      assert PolyAdd(d, e)[..n] == PolyAdd(d[..n], e[..n]);
      var p, q := Combination(f, m[..n], d[..n], len), Combination(f, m[..n], e[..n], len);
      forall i | 0 <= i < len
        ensures Combination(f, m, PolyAdd(d, e), len)[i]
                == Add(Combination(f, m, d, len)[i], Combination(f, m, e, len)[i])
      {
        var x := m[n][i];
        DistribRight(f, d[n], e[n], x);
        AddSwap(p[i], q[i], f.mul(d[n], x), f.mul(e[n], x));
      }
    }
  }

  lemma {:induction false} CombinationScale(f: Field, m: seq<Poly>, c: byte, d: Vector, len: nat)
    requires f.Lawful() && |m| == |d| && forall j :: 0 <= j < |m| ==> |m[j]| == len
    ensures Combination(f, m, Scale(f, c, d), len) == Scale(f, c, Combination(f, m, d, len))
  {
    hide Add, Field.Lawful;
    if d == [] {
      MulZero(f, c);
    } else {
      var n := |d| - 1;
      CombinationScale(f, m[..n], c, d[..n], len);
      assert Scale(f, c, d)[..n] == Scale(f, c, d[..n]);
      var p := Combination(f, m[..n], d[..n], len);
      forall i | 0 <= i < len
        ensures Combination(f, m, Scale(f, c, d), len)[i] == f.mul(c, Combination(f, m, d, len)[i])
      {
        var x := m[n][i];
        MulAssoc(f, c, d[n], x);
        Distrib(f, c, p[i], f.mul(d[n], x));
      }
    }
  }

  lemma {:induction false} CombinationUnit(f: Field, m: seq<Poly>, d: Vector, r: nat, len: nat)
    requires f.Lawful() && |m| == |d| && forall j :: 0 <= j < |m| ==> |m[j]| == len
    requires forall j :: 0 <= j < |d| ==> d[j] == if j == r then 1 else 0
    ensures Combination(f, m, d, len) == if r < |m| then m[r] else seq(len, _ => 0)
  {
    hide Add, Field.Lawful;
    if d == [] {
    } else {
      var n := |d| - 1;
      CombinationUnit(f, m[..n], d[..n], r, len);
      var p := Combination(f, m[..n], d[..n], len);
      forall i | 0 <= i < len
        ensures Combination(f, m, d, len)[i] == if r <= n then m[r][i] else 0
      {
        MulOne(f, m[n][i]);
        MulZero(f, m[n][i]);
        AddZero(m[n][i]);
        AddZero(p[i]);
      }
    }
  }

  lemma {:induction false} IdentityProduct(f: Field, m: seq<Vector>)
    requires f.Lawful() && IsSquare(m)
    ensures IsProduct(f, Identity(|m|), m, m)
  {
    hide Field.Lawful, Combination;
    forall r | 0 <= r < |m| ensures RowTimes(f, Identity(|m|)[r], m) == m[r] {
      CombinationUnit(f, m, Unit(|m|, r), r, |m|);
    }
  }

  // ---------------------------------------------------------- row operations

  ghost function SwappedRows(m: seq<Vector>, a: nat, b: nat): (r: seq<Vector>)
    requires a < |m| && b < |m|
    ensures |r| == |m|
  {
    m[a := m[b]][b := m[a]]
  }

  ghost function ScaledRow(f: Field, m: seq<Vector>, i: nat, c: byte): (r: seq<Vector>)
    requires i < |m|
    ensures |r| == |m|
  {
    m[i := Scale(f, c, m[i])]
  }

  /** Row b plus fac times row a. */
  ghost function AddedRow(f: Field, m: seq<Vector>, a: nat, b: nat, fac: byte): (r: seq<Vector>)
    requires a < |m| && b < |m| && |m[a]| == |m[b]|
    ensures |r| == |m|
  {
    m[b := PolyAdd(m[b], Scale(f, fac, m[a]))]
  }

  /** A row operation on both matrices keeps the product. */
  lemma {:induction false} RowOpsKeepProduct(f: Field, left: seq<Vector>, m: seq<Vector>, right: seq<Vector>, a: nat, b: nat, c: byte)
    requires f.Lawful() && IsProduct(f, left, m, right) && a < |m| && b < |m|
    ensures IsProduct(f, SwappedRows(left, a, b), m, SwappedRows(right, a, b))
    ensures IsProduct(f, ScaledRow(f, left, a, c), m, ScaledRow(f, right, a, c))
    ensures IsProduct(f, AddedRow(f, left, a, b, c), m, AddedRow(f, right, a, b, c))
  {
    hide Field.Lawful, Combination, Add;
    CombinationScale(f, m, c, left[a], |m|);
    CombinationAdd(f, m, left[b], Scale(f, c, left[a]), |m|);
  }

  // ------------------------------------------------- undoing row operations

  lemma {:induction false} AddCancelMiddle(p: byte, t: byte, s: byte)
    ensures Add(Add(p, t), Add(t, s)) == Add(p, s)
  {
  }

  lemma {:induction false} AddLast(p: byte, d: byte, t: byte)
    ensures Add(Add(p, d), t) == Add(Add(p, t), d)
  {
  }

  /** Changing one row and its weight changes the weighted sum by the two terms. */
  lemma {:induction false} ReplaceTerm(f: Field, m: seq<Poly>, u: Vector, j: nat, x: Poly, y: byte, len: nat, i: nat)
    requires |m| == |u| && (forall r :: 0 <= r < |m| ==> |m[r]| == len) && j < |m| && |x| == len && i < len
    ensures Combination(f, m[j := x], u[j := y], len)[i]
         == Add(Combination(f, m, u, len)[i], Add(f.mul(u[j], m[j][i]), f.mul(y, x[i])))
  {
    hide Add;
    var n := |u| - 1;
    var p := Combination(f, m[..n], u[..n], len)[i];
    var n', v' := m[j := x], u[j := y];
    if j == n {
      assert n'[..n] == m[..n] && v'[..n] == u[..n];
      AddCancelMiddle(p, f.mul(u[n], m[n][i]), f.mul(y, x[i]));
    } else {
      ReplaceTerm(f, m[..n], u[..n], j, x, y, len, i);
      assert n'[..n] == m[..n][j := x] && v'[..n] == u[..n][j := y];
      AddLast(p, Add(f.mul(u[j], m[j][i]), f.mul(y, x[i])), f.mul(u[n], m[n][i]));
    }
  }

  ghost predicate HasWidth(m: seq<Vector>, len: nat) { forall r :: 0 <= r < |m| ==> |m[r]| == len }

  lemma {:induction false} ScaleUndone(f: Field, u: Vector, m: seq<Vector>, a: nat, c: byte, d: byte, len: nat)
    requires f.Lawful() && HasWidth(m, len) && |u| == |m| && a < |m| && f.mul(d, c) == 1
    ensures var n := ScaledRow(f, m, a, c);
            HasWidth(n, len) && Combination(f, n, u[a := f.mul(u[a], d)], len) == Combination(f, m, u, len)
  {
    hide Field.Lawful, Combination, Add;
    var n := ScaledRow(f, m, a, c);
    var v := u[a := f.mul(u[a], d)];
    forall i | 0 <= i < len ensures Combination(f, n, v, len)[i] == Combination(f, m, u, len)[i] {
      var x := m[a][i];
      ReplaceTerm(f, m, u, a, Scale(f, c, m[a]), f.mul(u[a], d), len, i);
      MulAssoc(f, u[a], d, f.mul(c, x));
      MulAssoc(f, d, c, x);
      MulOne(f, x);
      MulComm(f, 1, x);
      AddSelf(f.mul(u[a], x));
      AddZero(Combination(f, m, u, len)[i]);
    }
  }

  lemma {:induction false} AddUndone(f: Field, u: Vector, m: seq<Vector>, a: nat, b: nat, c: byte, len: nat)
    requires f.Lawful() && HasWidth(m, len) && |u| == |m| && a < |m| && b < |m| && a != b
    ensures var n := AddedRow(f, m, a, b, c);
            HasWidth(n, len) && Combination(f, n, u[a := Add(u[a], f.mul(c, u[b]))], len) == Combination(f, m, u, len)
  {
    hide Field.Lawful, Combination, Add;
    var x := PolyAdd(m[b], Scale(f, c, m[a]));
    var y := Add(u[a], f.mul(c, u[b]));
    var mid, n, v := m[a := m[a]], m[b := x], u[a := y];
    assert mid == m && v[b := v[b]] == v && n == AddedRow(f, m, a, b, c);
    forall i | 0 <= i < len ensures Combination(f, n, v, len)[i] == Combination(f, m, u, len)[i] {
      ReplaceTerm(f, m, u, a, m[a], y, len, i);
      ReplaceTerm(f, m, v, b, x, v[b], len, i);
      AddTerms(f, Combination(f, m, u, len)[i], u[a], u[b], c, m[a][i], m[b][i]);
    }
  }

  lemma {:induction false} AddTerms(f: Field, p: byte, ua: byte, ub: byte, c: byte, xa: byte, xb: byte)
    requires f.Lawful()
    ensures var first := Add(p, Add(f.mul(ua, xa), f.mul(Add(ua, f.mul(c, ub)), xa)));
            Add(first, Add(f.mul(ub, xb), f.mul(ub, Add(xb, f.mul(c, xa))))) == p
  {
    hide Field.Lawful, Add;
    var s, t := f.mul(ua, xa), f.mul(f.mul(c, ub), xa);
    var z := f.mul(ub, xb);
    DistribRight(f, ua, f.mul(c, ub), xa);
    Distrib(f, ub, xb, f.mul(c, xa));
    MulAssoc(f, ub, c, xa);
    MulComm(f, ub, c);
    CancelAll(p, s, t, z);
  }

  lemma {:induction false} CancelAll(p: byte, s: byte, t: byte, z: byte)
    ensures Add(Add(p, Add(s, Add(s, t))), Add(z, Add(z, t))) == p
  {
  }

  lemma {:induction false} SwapUndone(f: Field, u: Vector, m: seq<Vector>, a: nat, b: nat, len: nat)
    requires f.Lawful() && HasWidth(m, len) && |u| == |m| && a < |m| && b < |m| && a != b
    ensures var n := SwappedRows(m, a, b);
            HasWidth(n, len) && Combination(f, n, u[a := u[b]][b := u[a]], len) == Combination(f, m, u, len)
  {
    hide Field.Lawful, Combination, Add;
    var mid, v := m[a := m[b]], u[a := u[b]];
    assert HasWidth(mid, len);
    forall i | 0 <= i < len
      ensures Combination(f, mid[b := m[a]], v[b := u[a]], len)[i] == Combination(f, m, u, len)[i]
    {
      ReplaceTerm(f, m, u, a, m[b], u[b], len, i);
      ReplaceTerm(f, mid, v, b, m[a], u[a], len, i);
      CancelSwap(Combination(f, m, u, len)[i], f.mul(u[a], m[a][i]), f.mul(u[b], m[b][i]));
    }
  }

  lemma {:induction false} CancelSwap(p: byte, s: byte, t: byte)
    ensures Add(Add(p, Add(s, t)), Add(t, s)) == p
  {
  }

  /** Applying the opposite column operation to the left factor and the row operation to the
      right factor keeps their product. */
  ghost function ColumnOp(left: seq<Vector>, op: Vector -> Vector): (r: seq<Vector>)
    ensures |r| == |left| && forall i :: 0 <= i < |r| ==> r[i] == op(left[i])
  {
    seq(|left|, i requires 0 <= i < |left| => op(left[i]))
  }

  ghost function SwapEntries(a: nat, b: nat): Vector -> Vector {
    u => if a < |u| && b < |u| then u[a := u[b]][b := u[a]] else u
  }

  ghost function ScaleEntry(f: Field, a: nat, d: byte): Vector -> Vector {
    u => if a < |u| then u[a := f.mul(u[a], d)] else u
  }

  ghost function AddEntries(f: Field, a: nat, b: nat, c: byte): Vector -> Vector {
    u => if a < |u| && b < |u| then u[a := Add(u[a], f.mul(c, u[b]))] else u
  }

  lemma {:induction false} OppositeOpsKeepProduct(
    f: Field, left: seq<Vector>, m: seq<Vector>, right: seq<Vector>, a: nat, b: nat, c: byte, d: byte)
    requires f.Lawful() && IsProduct(f, left, m, right) && a < |m| && b < |m|
    ensures a != b ==> IsProduct(f, ColumnOp(left, SwapEntries(a, b)), SwappedRows(m, a, b), right)
    ensures f.mul(d, c) == 1 ==> IsProduct(f, ColumnOp(left, ScaleEntry(f, a, d)), ScaledRow(f, m, a, c), right)
    ensures a != b ==> IsProduct(f, ColumnOp(left, AddEntries(f, a, b, c)), AddedRow(f, m, a, b, c), right)
  {
    hide Field.Lawful, Combination, Add, SwappedRows, ScaledRow, AddedRow;
    var k := |m|;
    if a != b { SwapUndone(f, left[a], m, a, b, k); AddUndone(f, left[a], m, a, b, c, k); }
    if f.mul(d, c) == 1 { ScaleUndone(f, left[a], m, a, c, d, k); }
    forall r | 0 <= r < |m|
      ensures a != b ==> RowTimes(f, SwapEntries(a, b)(left[r]), SwappedRows(m, a, b)) == right[r]
      ensures f.mul(d, c) == 1 ==> RowTimes(f, ScaleEntry(f, a, d)(left[r]), ScaledRow(f, m, a, c)) == right[r]
      ensures a != b ==> RowTimes(f, AddEntries(f, a, b, c)(left[r]), AddedRow(f, m, a, b, c)) == right[r]
    {
      if a != b { SwapUndone(f, left[r], m, a, b, k); AddUndone(f, left[r], m, a, b, c, k); }
      if f.mul(d, c) == 1 { ScaleUndone(f, left[r], m, a, c, d, k); }
    }
  }

  /** The weighted sum of rows, entry by entry, follows the columns. */
  lemma {:induction false} ColumnSame(f: Field, m: seq<Poly>, n: seq<Poly>, u: Vector, len: nat, i: nat, p: nat)
    requires |m| == |n| == |u| && i < len && p < len
    requires forall r :: 0 <= r < |m| ==> |m[r]| == len && |n[r]| == len && n[r][i] == m[r][p]
    ensures Combination(f, n, u, len)[i] == Combination(f, m, u, len)[p]
  {
    hide Add;
    if u == [] {
    } else {
      var k := |u| - 1;
      ColumnSame(f, m[..k], n[..k], u[..k], len, i, p);
    }
  }

  lemma {:induction false} ColumnScaled(f: Field, m: seq<Poly>, n: seq<Poly>, u: Vector, len: nat, i: nat, d: byte)
    requires f.Lawful() && |m| == |n| == |u| && i < len
    requires forall r :: 0 <= r < |m| ==> |m[r]| == len && |n[r]| == len && n[r][i] == f.mul(m[r][i], d)
    ensures Combination(f, n, u, len)[i] == f.mul(Combination(f, m, u, len)[i], d)
  {
    hide Add, Field.Lawful;
    if u == [] {
      MulZero(f, d);
    } else {
      var k := |u| - 1;
      ColumnScaled(f, m[..k], n[..k], u[..k], len, i, d);
      MulAssoc(f, u[k], m[k][i], d);
      DistribRight(f, Combination(f, m[..k], u[..k], len)[i], f.mul(u[k], m[k][i]), d);
    }
  }

  lemma {:induction false} ColumnAdded(f: Field, m: seq<Poly>, n: seq<Poly>, u: Vector, len: nat, a: nat, b: nat, c: byte)
    requires f.Lawful() && |m| == |n| == |u| && a < len && b < len
    requires forall r :: 0 <= r < |m| ==> |m[r]| == len && |n[r]| == len && n[r][a] == Add(m[r][a], f.mul(c, m[r][b]))
    ensures Combination(f, n, u, len)[a] == Add(Combination(f, m, u, len)[a], f.mul(c, Combination(f, m, u, len)[b]))
  {
    hide Add, Field.Lawful;
    if u == [] {
      MulZero(f, c);
      AddZero(0);
    } else {
      var k := |u| - 1;
      ColumnAdded(f, m[..k], n[..k], u[..k], len, a, b, c);
      var p, q := Combination(f, m[..k], u[..k], len)[a], Combination(f, m[..k], u[..k], len)[b];
      var x, y := m[k][a], m[k][b];
      Distrib(f, u[k], x, f.mul(c, y));
      MulSwap(f, u[k], c, y);
      Distrib(f, c, q, f.mul(u[k], y));
      AddSwap(p, f.mul(c, q), f.mul(u[k], x), f.mul(c, f.mul(u[k], y)));
    }
  }

  /** A column operation on the right factor is one on every row of the product. */
  lemma {:induction false} RowTimesColumnOp(f: Field, u: Vector, m: seq<Vector>, a: nat, b: nat, c: byte, d: byte)
    requires f.Lawful() && IsSquare(m) && |u| == |m| && a < |m| && b < |m|
    ensures IsSquare(ColumnOp(m, SwapEntries(a, b))) && IsSquare(ColumnOp(m, ScaleEntry(f, a, d)))
    ensures IsSquare(ColumnOp(m, AddEntries(f, a, b, c)))
    ensures RowTimes(f, u, ColumnOp(m, SwapEntries(a, b))) == SwapEntries(a, b)(RowTimes(f, u, m))
    ensures RowTimes(f, u, ColumnOp(m, ScaleEntry(f, a, d))) == ScaleEntry(f, a, d)(RowTimes(f, u, m))
    ensures RowTimes(f, u, ColumnOp(m, AddEntries(f, a, b, c))) == AddEntries(f, a, b, c)(RowTimes(f, u, m))
  {
    hide Field.Lawful, Combination, Add;
    var k := |m|;
    var s, t, v := ColumnOp(m, SwapEntries(a, b)), ColumnOp(m, ScaleEntry(f, a, d)), ColumnOp(m, AddEntries(f, a, b, c));
    ColumnScaled(f, m, t, u, k, a, d);
    ColumnAdded(f, m, v, u, k, a, b, c);
    forall i | 0 <= i < k
      ensures RowTimes(f, u, s)[i] == SwapEntries(a, b)(RowTimes(f, u, m))[i]
      ensures i != a ==> RowTimes(f, u, t)[i] == RowTimes(f, u, m)[i] && RowTimes(f, u, v)[i] == RowTimes(f, u, m)[i]
    {
      ColumnSame(f, m, s, u, k, i, if i == b then a else if i == a then b else i);
      if i != a {
        ColumnSame(f, m, t, u, k, i, i);
        ColumnSame(f, m, v, u, k, i, i);
      }
    }
  }

  /** Row operations on the left and the opposite column operations on the right keep the
      identity. */
  lemma {:induction false} OpsKeepIdentity(f: Field, left: seq<Vector>, right: seq<Vector>, k: nat, a: nat, b: nat, c: byte, d: byte)
    requires f.Lawful() && IsProduct(f, left, right, Identity(k)) && a < k && b < k
    ensures a != b ==> IsProduct(f, SwappedRows(left, a, b), ColumnOp(right, SwapEntries(a, b)), Identity(k))
    ensures f.mul(d, c) == 1 ==> IsProduct(f, ScaledRow(f, left, a, c), ColumnOp(right, ScaleEntry(f, a, d)), Identity(k))
    ensures a != b ==> IsProduct(f, AddedRow(f, left, a, b, c), ColumnOp(right, AddEntries(f, a, b, c)), Identity(k))
  {
    hide Field.Lawful, RowTimes, Add;
    var s, t, v := ColumnOp(right, SwapEntries(a, b)), ColumnOp(right, ScaleEntry(f, a, d)), ColumnOp(right, AddEntries(f, a, b, c));
    RowTimesColumnOp(f, left[a], right, a, b, c, d);
    forall r | 0 <= r < k
      ensures a != b ==> RowTimes(f, SwappedRows(left, a, b)[r], s) == Unit(k, r)
      ensures f.mul(d, c) == 1 ==> RowTimes(f, ScaledRow(f, left, a, c)[r], t) == Unit(k, r)
      ensures a != b ==> RowTimes(f, AddedRow(f, left, a, b, c)[r], v) == Unit(k, r)
    {
      RowTimesColumnOp(f, left[r], right, a, b, c, d);
      RowTimesColumnOp(f, left[b], right, a, b, c, d);
      RowOfIdentityOps(f, left, s, t, v, k, a, b, c, d, r);
    }
  }

  lemma {:induction false} RowOfIdentityOps(
    f: Field, left: seq<Vector>, s: seq<Vector>, t: seq<Vector>, v: seq<Vector>,
    k: nat, a: nat, b: nat, c: byte, d: byte, r: nat)
    requires f.Lawful() && IsSquare(left) && IsSquare(s) && IsSquare(t) && IsSquare(v)
    requires |left| == |s| == |t| == |v| == k && a < k && b < k && r < k
    requires forall q :: q in {a, b, r} ==>
               && RowTimes(f, left[q], s) == SwapEntries(a, b)(Unit(k, q))
               && RowTimes(f, left[q], t) == ScaleEntry(f, a, d)(Unit(k, q))
               && RowTimes(f, left[q], v) == AddEntries(f, a, b, c)(Unit(k, q))
    ensures a != b ==> RowTimes(f, SwappedRows(left, a, b)[r], s) == Unit(k, r)
    ensures f.mul(d, c) == 1 ==> RowTimes(f, ScaledRow(f, left, a, c)[r], t) == Unit(k, r)
    ensures a != b ==> RowTimes(f, AddedRow(f, left, a, b, c)[r], v) == Unit(k, r)
  {
    hide Field.Lawful, Combination, Add;
    MulZero(f, c);
    MulZero(f, d);
    AddZero(0);
    AddZero(1);
    CombinationScale(f, t, c, left[a], k);
    CombinationScale(f, v, c, left[a], k);
    CombinationAdd(f, v, left[b], Scale(f, c, left[a]), k);
    MulComm(f, d, c);
    MulOne(f, c);
    MulOne(f, d);
    AddSelf(c);
    AddZero(c);
    assert forall i :: 0 <= i < k ==> i != a && i != b ==> Unit(k, a)[i] == 0 && Unit(k, b)[i] == 0;
    if a != b {
      assert SwapEntries(a, b)(Unit(k, a)) == Unit(k, b);
      assert SwapEntries(a, b)(Unit(k, b)) == Unit(k, a);
      assert r != a && r != b ==> SwapEntries(a, b)(Unit(k, r)) == Unit(k, r);
      assert r != b ==> AddEntries(f, a, b, c)(Unit(k, r)) == Unit(k, r);
    }
  }

  /** What every row operation keeps: out times m is mx, and some matrix leads back, from mx
      to m and from out to the identity, on both sides. */
  ghost predicate Linked(f: Field, m: seq<Vector>, mx: seq<Vector>, out: seq<Vector>) {
    IsProduct(f, out, m, mx) && exists back :: LeadsBack(f, back, m, mx, out)
  }

  ghost predicate LeadsBack(f: Field, back: seq<Vector>, m: seq<Vector>, mx: seq<Vector>, out: seq<Vector>) {
    IsProduct(f, back, mx, m) && IsProduct(f, back, out, Identity(|m|)) && IsProduct(f, out, back, Identity(|m|))
  }

  lemma {:induction false} LinkedSwap(f: Field, m: seq<Vector>, mx: seq<Vector>, out: seq<Vector>, a: nat, b: nat)
    requires f.Lawful() && Linked(f, m, mx, out) && a < |m| && b < |m| && a != b
    requires |mx| == |out| == |m|
    ensures Linked(f, m, SwappedRows(mx, a, b), SwappedRows(out, a, b))
  {
    hide Field.Lawful, IsProduct, SwappedRows, Identity;
    RowOpsKeepProduct(f, out, m, mx, a, b, 0);
    var back :| LeadsBack(f, back, m, mx, out);
    OppositeOpsKeepProduct(f, back, mx, m, a, b, 0, 0);
    OppositeOpsKeepProduct(f, back, out, Identity(|m|), a, b, 0, 0);
    OpsKeepIdentity(f, out, back, |m|, a, b, 0, 0);
    assert LeadsBack(f, ColumnOp(back, SwapEntries(a, b)), m, SwappedRows(mx, a, b), SwappedRows(out, a, b));
  }

  lemma {:induction false} LinkedScale(f: Field, m: seq<Vector>, mx: seq<Vector>, out: seq<Vector>, a: nat, c: byte, d: byte)
    requires f.Lawful() && Linked(f, m, mx, out) && a < |m| && f.mul(d, c) == 1
    requires |mx| == |out| == |m|
    ensures Linked(f, m, ScaledRow(f, mx, a, c), ScaledRow(f, out, a, c))
  {
    hide Field.Lawful, IsProduct, ScaledRow, Identity;
    RowOpsKeepProduct(f, out, m, mx, a, a, c);
    var back :| LeadsBack(f, back, m, mx, out);
    OppositeOpsKeepProduct(f, back, mx, m, a, a, c, d);
    OppositeOpsKeepProduct(f, back, out, Identity(|m|), a, a, c, d);
    OpsKeepIdentity(f, out, back, |m|, a, a, c, d);
    assert LeadsBack(f, ColumnOp(back, ScaleEntry(f, a, d)), m, ScaledRow(f, mx, a, c), ScaledRow(f, out, a, c));
  }

  lemma {:induction false} LinkedAdd(f: Field, m: seq<Vector>, mx: seq<Vector>, out: seq<Vector>, a: nat, b: nat, c: byte)
    requires f.Lawful() && Linked(f, m, mx, out) && a < |m| && b < |m| && a != b
    requires |mx| == |out| == |m| && |mx[a]| == |mx[b]| && |out[a]| == |out[b]|
    ensures Linked(f, m, AddedRow(f, mx, a, b, c), AddedRow(f, out, a, b, c))
  {
    hide Field.Lawful, IsProduct, AddedRow, Identity;
    RowOpsKeepProduct(f, out, m, mx, a, b, c);
    var back :| LeadsBack(f, back, m, mx, out);
    OppositeOpsKeepProduct(f, back, mx, m, a, b, c, 0);
    OppositeOpsKeepProduct(f, back, out, Identity(|m|), a, b, c, 0);
    OpsKeepIdentity(f, out, back, |m|, a, b, c, 0);
    assert LeadsBack(f, ColumnOp(back, AddEntries(f, a, b, c)), m, AddedRow(f, mx, a, b, c), AddedRow(f, out, a, b, c));
  }

  lemma {:induction false} LinkedProduct(f: Field, m: seq<Vector>, mx: seq<Vector>, out: seq<Vector>)
    requires Linked(f, m, mx, out)
    ensures IsProduct(f, out, m, mx)
  {
  }

  lemma {:induction false} LinkedStart(f: Field, m: seq<Vector>)
    requires f.Lawful() && IsSquare(m)
    ensures Linked(f, m, m, Identity(|m|))
  {
    hide Field.Lawful, IsProduct, Identity;
    IdentityProduct(f, m);
    IdentityProduct(f, Identity(|m|));
    assert LeadsBack(f, Identity(|m|), m, m, Identity(|m|));
  }

  /** A row times the identity is the row. */
  lemma {:induction false} RowTimesIdentity(f: Field, u: Vector, k: nat)
    requires f.Lawful() && |u| == k
    ensures RowTimes(f, u, Identity(k)) == u
  {
    hide Field.Lawful, Add, Combination;
    forall i | 0 <= i < k ensures RowTimes(f, u, Identity(k))[i] == u[i] {
      UnitColumn(f, u, Identity(k), k, i);
    }
  }

  /** The part of a row that the first rows of the identity pick out. */
  lemma {:induction false} UnitColumn(f: Field, u: Vector, rows: seq<Vector>, k: nat, i: nat)
    requires f.Lawful() && |u| == |rows| <= k && i < k
    requires forall r :: 0 <= r < |rows| ==> rows[r] == Unit(k, r) && |rows[r]| == k
    ensures Combination(f, rows, u, k)[i] == if i < |u| then u[i] else 0
  {
    hide Field.Lawful, Add;
    if u == [] {
    } else {
      var n := |u| - 1;
      UnitColumn(f, u[..n], rows[..n], k, i);
      MulZero(f, u[n]);
      MulOne(f, u[n]);
      AddZero(if i < n then u[i] else 0);
      AddComm(0, u[n]);
      AddZero(u[n]);
    }
  }

  /** When mx has become the identity, out is the inverse of m on both sides. */
  lemma {:induction false} LinkedEnd(f: Field, m: seq<Vector>, out: seq<Vector>)
    requires f.Lawful() && Linked(f, m, Identity(|m|), out)
    ensures IsProduct(f, out, m, Identity(|m|)) && IsProduct(f, m, out, Identity(|m|))
  {
    hide Field.Lawful, RowTimes, Identity;
    var back :| LeadsBack(f, back, m, Identity(|m|), out);
    forall r | 0 <= r < |m| ensures back[r] == m[r] {
      RowTimesIdentity(f, back[r], |m|);
    }
    assert back == m;
  }

  // ------------------------------------------------------------- singularity

  lemma {:induction false} CombinationZero(f: Field, m: seq<Poly>, d: Vector, len: nat)
    requires f.Lawful() && |m| == |d| && forall j :: 0 <= j < |m| ==> |m[j]| == len
    requires forall j :: 0 <= j < |d| ==> d[j] == 0
    ensures Combination(f, m, d, len) == seq(len, _ => 0)
  {
    CombinationUnit(f, m, d, |m|, len);
  }

  /** A weighted sum of rows of a product is the weighted sum of rows, times the factor. */
  lemma {:induction false} CombinationAssoc(f: Field, u: Vector, rows: seq<Vector>, n: seq<Vector>, products: seq<Vector>)
    requires f.Lawful() && IsSquare(n) && |u| == |rows| == |products|
    requires forall r :: 0 <= r < |rows| ==> |rows[r]| == |products[r]| == |n| && products[r] == RowTimes(f, rows[r], n)
    ensures RowTimes(f, Combination(f, rows, u, |n|), n) == Combination(f, products, u, |n|)
  {
    hide Field.Lawful, Add;
    var k := |n|;
    if u == [] {
      CombinationZero(f, n, Combination(f, rows, u, k), k);
    } else {
      var l := |u| - 1;
      CombinationAssoc(f, u[..l], rows[..l], n, products[..l]);
      var p := Combination(f, rows[..l], u[..l], k);
      CombinationAdd(f, n, p, Scale(f, u[l], rows[l]), k);
      CombinationScale(f, n, u[l], rows[l], k);
    }
  }

  ghost predicate Invertible(f: Field, m: seq<Vector>) {
    exists n :: IsProduct(f, m, n, Identity(|m|))
  }

  ghost function ZeroVector(k: nat): (v: Vector)
    ensures |v| == k && forall i :: 0 <= i < k ==> v[i] == 0
  {
    seq(k, _ => 0)
  }

  lemma {:induction false} ZeroTimes(f: Field, u: Vector, m: seq<Vector>)
    requires f.Lawful() && IsSquare(m) && u == ZeroVector(|m|)
    ensures RowTimes(f, u, m) == ZeroVector(|m|)
  {
    hide Field.Lawful, Combination;
    CombinationZero(f, m, u, |m|);
  }

  /** With an inverse at hand, a zero row of out times m comes from a zero row of out. */
  lemma {:induction false} RowComesFromZero(f: Field, m: seq<Vector>, mx: seq<Vector>, out: seq<Vector>, n: seq<Vector>, c: nat)
    requires f.Lawful() && IsProduct(f, out, m, mx) && IsProduct(f, m, n, Identity(|m|))
    requires c < |m| && mx[c] == ZeroVector(|m|)
    ensures out[c] == ZeroVector(|m|)
  {
    hide Field.Lawful, Combination, Add;
    CombinationAssoc(f, out[c], m, n, Identity(|m|));
    RowTimesIdentity(f, out[c], |m|);
    ZeroTimes(f, mx[c], n);
  }

  lemma {:induction false} RowNotZero(f: Field, out: seq<Vector>, back: seq<Vector>, k: nat, c: nat)
    requires f.Lawful() && IsProduct(f, out, back, Identity(k)) && c < k
    ensures out[c] != ZeroVector(k)
  {
    hide Field.Lawful, RowTimes;
    OneIsNotZero();
    assert Unit(k, c)[c] == 1 && ZeroVector(k)[c] == 0;
    if out[c] == ZeroVector(k) {
      ZeroTimes(f, out[c], back);
    }
  }

  /** When a row of mx has become zero, the matrix it came from has no inverse. */
  lemma {:induction false} ZeroRowMeansSingular(f: Field, m: seq<Vector>, mx: seq<Vector>, out: seq<Vector>, c: nat)
    requires f.Lawful() && Linked(f, m, mx, out) && c < |m| == |mx| && mx[c] == ZeroVector(|m|)
    ensures !Invertible(f, m)
  {
    hide Field.Lawful, IsProduct, Identity, ZeroVector;
    var back :| LeadsBack(f, back, m, mx, out);
    SizeOfProduct(f, out, m, mx);
    forall n | IsProduct(f, m, n, Identity(|m|)) ensures out[c] == ZeroVector(|m|) {
      RowComesFromZero(f, m, mx, out, n, c);
    }
    RowNotZero(f, out, back, |m|, c);
  }

  lemma {:induction false} SizeOfProduct(f: Field, left: seq<Vector>, m: seq<Vector>, right: seq<Vector>)
    requires IsProduct(f, left, m, right)
    ensures |left| == |m| == |right|
  {
  }

  // ------------------------------------------------------------- elimination

  /** The first n columns are zero below the diagonal, and zero or one on it. */
  ghost predicate IsLower(m: seq<Vector>, n: nat) {
    && IsSquare(m) && n <= |m|
    && (forall c, r :: 0 <= c < n && c < r < |m| ==> m[r][c] == 0)
    && (forall c :: 0 <= c < n ==> m[c][c] == 0 || m[c][c] == 1)
  }

  /** Column c has been cleared in the rows below i up to j. */
  ghost predicate IsCleared(m: seq<Vector>, i: nat, j: nat) {
    IsSquare(m) && i < |m| && m[i][i] == 1 && forall r :: i < r < j && r < |m| ==> m[r][i] == 0
  }

  lemma {:induction false} PivotStep(f: Field, m: seq<Vector>, i: nat, p: nat)
    requires f.Lawful() && IsLower(m, i) && i <= p < |m| && m[p][i] != 0
    ensures var s := SwappedRows(m, i, p);
            IsSquare(s) && s[i][i] == m[p][i]
    ensures var t := ScaledRow(f, SwappedRows(m, i, p), i, f.inv(m[p][i]));
            IsLower(t, i) && IsCleared(t, i, i + 1)
  {
    hide Field.Lawful;
    MulInv(f, m[p][i]);
    MulZero(f, f.inv(m[p][i]));
  }

  lemma {:induction false} ClearStep(f: Field, m: seq<Vector>, i: nat, j: nat)
    requires f.Lawful() && IsLower(m, i) && i < j < |m| && IsCleared(m, i, j)
    ensures var t := AddedRow(f, m, i, j, m[j][i]);
            IsLower(t, i) && IsCleared(t, i, j + 1)
  {
    hide Add, Field.Lawful;
    var fac := m[j][i];
    MulOne(f, fac);
    AddSelf(fac);
    MulZero(f, fac);
    AddZero(0);
  }

  /** The columns from n on that have a diagonal one are zero above it. */
  ghost predicate IsUpperCleared(m: seq<Vector>, n: nat) {
    IsSquare(m) && forall c, r :: n <= c < |m| && 0 <= r < c && m[c][c] == 1 ==> m[r][c] == 0
  }

  ghost predicate FullDiagonal(m: seq<Vector>) {
    IsSquare(m) && forall c :: 0 <= c < |m| ==> m[c][c] == 1
  }

  /** Clearing one entry above the diagonal changes no other entry that matters. */
  lemma {:induction false} BackStep(f: Field, m: seq<Vector>, i: nat, j: nat)
    requires f.Lawful() && IsLower(m, |m|) && j < i < |m|
    ensures var t := AddedRow(f, m, i, j, m[j][i]);
            && IsLower(t, |m|)
            && (IsUpperCleared(m, i + 1) ==> IsUpperCleared(t, i + 1))
            && (m[i][i] == 1 ==> t[j][i] == 0)
            && (forall r :: 0 <= r < |m| && r != j ==> t[r] == m[r])
  {
    hide Add, Field.Lawful;
    var fac := m[j][i];
    MulOne(f, fac);
    AddSelf(fac);
    MulZero(f, fac);
    var t := AddedRow(f, m, i, j, fac);
    forall c | 0 <= c < |m| ensures m[i][c] == 0 ==> t[j][c] == m[j][c] {
      AddZero(m[j][c]);
    }
    assert m[i][j] == 0;
    assert forall c :: 0 <= c < |m| ==> t[c][c] == m[c][c];
  }

  /** In the last row without a pivot nothing is left. */
  lemma {:induction false} ZeroRow(m: seq<Vector>, c: nat)
    requires IsLower(m, |m|) && IsUpperCleared(m, 0) && c < |m| && m[c][c] != 1
    requires forall i :: c < i < |m| ==> m[i][i] == 1
    ensures m[c] == ZeroVector(|m|)
  {
    forall i | 0 <= i < |m| ensures m[c][i] == 0 {
      if c < i { assert m[i][i] == 1; }
    }
  }

  lemma {:induction false} LastWithoutPivot(m: seq<Vector>) returns (c: nat)
    requires IsSquare(m) && !FullDiagonal(m)
    ensures c < |m| && m[c][c] != 1 && forall i :: c < i < |m| ==> m[i][i] == 1
  {
    var n: nat := |m|;
    while n > 0 && m[n - 1][n - 1] == 1
      invariant n <= |m| && forall i :: n <= i < |m| ==> m[i][i] == 1
    {
      n := n - 1;
    }
    c := n - 1;
  }

  lemma {:induction false} TriangularIsIdentity(m: seq<Vector>)
    requires IsLower(m, |m|) && FullDiagonal(m) && IsUpperCleared(m, 0)
    ensures m == Identity(|m|)
  {
    forall r, c | 0 <= r < |m| && 0 <= c < |m| ensures m[r][c] == Unit(|m|, r)[c] {
      assert m[c][c] == 1;
    }
    forall r | 0 <= r < |m| ensures m[r] == Unit(|m|, r) {
    }
  }

  // -------------------------------------------------------------- in place

  ghost function Rows(a: array2<byte>): (m: seq<Vector>)
    reads a
    ensures |m| == a.Length0 && forall r :: 0 <= r < |m| ==> |m[r]| == a.Length1
    ensures forall r, c :: 0 <= r < a.Length0 && 0 <= c < a.Length1 ==> m[r][c] == a[r, c]
  {
    seq(a.Length0, r requires 0 <= r < a.Length0 reads a => Row(a, r))
  }

  lemma {:induction false} SameRows(a: array2<byte>, m: seq<Vector>)
    requires |m| == a.Length0 && forall r :: 0 <= r < |m| ==> |m[r]| == a.Length1
    requires forall r, c :: 0 <= r < a.Length0 && 0 <= c < a.Length1 ==> m[r][c] == a[r, c]
    ensures Rows(a) == m
  {
    forall r | 0 <= r < |m| ensures Rows(a)[r] == m[r] {
    }
  }

  method SwapRows(mx: array2<byte>, a: nat, b: nat)
    requires a < b < mx.Length0
    modifies mx
    ensures Rows(mx) == SwappedRows(old(Rows(mx)), a, b)
  {
    ghost var was := Rows(mx);
    for c := 0 to mx.Length1
      invariant forall r, j :: 0 <= r < mx.Length0 && 0 <= j < mx.Length1 ==>
                  mx[r, j] == if j < c && r == a then was[b][j] else if j < c && r == b then was[a][j] else was[r][j]
    {
      mx[a, c], mx[b, c] := mx[b, c], mx[a, c];
    }
    SameRows(mx, SwappedRows(was, a, b));
  }

  method ScaleRow(f: Field, mx: array2<byte>, i: nat, factor: byte)
    requires i < mx.Length0
    modifies mx
    ensures Rows(mx) == ScaledRow(f, old(Rows(mx)), i, factor)
  {
    ghost var was := Rows(mx);
    for c := 0 to mx.Length1
      invariant forall r, j :: 0 <= r < mx.Length0 && 0 <= j < mx.Length1 ==>
                  mx[r, j] == if j < c && r == i then f.mul(factor, was[r][j]) else was[r][j]
    {
      mx[i, c] := f.mul(factor, mx[i, c]);
    }
    SameRows(mx, ScaledRow(f, was, i, factor));
  }

  method AddMulRows(f: Field, mx: array2<byte>, a: nat, b: nat, fac: byte)
    requires a < mx.Length0 && b < mx.Length0 && a != b
    modifies mx
    ensures Rows(mx) == AddedRow(f, old(Rows(mx)), a, b, fac)
  {
    hide Add;
    ghost var was := Rows(mx);
    for c := 0 to mx.Length1
      invariant forall r, j :: 0 <= r < mx.Length0 && 0 <= j < mx.Length1 ==>
                  mx[r, j] == if j < c && r == b then Add(was[r][j], f.mul(fac, was[a][j])) else was[r][j]
    {
      mx[b, c] := Add(mx[b, c], f.mul(fac, mx[a, c]));
    }
    SameRows(mx, AddedRow(f, was, a, b, fac));
  }

  /** The first row from i on with a non-zero entry in column i. */
  method FindPivot(mx: array2<byte>, i: nat) returns (p: nat)
    requires i < mx.Length0 <= mx.Length1
    ensures i <= p <= mx.Length0
    ensures p < mx.Length0 ==> Rows(mx)[p][i] != 0
    ensures forall r :: i <= r < p ==> Rows(mx)[r][i] == 0
  {
    p := i;
    while p < mx.Length0 && mx[p, i] == 0
      invariant i <= p <= mx.Length0
      invariant forall r :: i <= r < p ==> mx[r, i] == 0
    {
      p := p + 1;
    }
  }

  /** Makes column i zero below a diagonal one, or leaves the matrices alone when it is zero from the
      diagonal down. */
  method ForwardColumn(f: Field, mx: array2<byte>, out: array2<byte>, i: nat, ghost m: seq<Vector>)
    requires f.Lawful() && mx != out && mx.Length0 == mx.Length1 == out.Length0 == out.Length1 == |m| && i < |m|
    requires IsLower(Rows(mx), i) && Linked(f, m, Rows(mx), Rows(out))
    modifies mx, out
    ensures IsLower(Rows(mx), i + 1) && Linked(f, m, Rows(mx), Rows(out))
  {
    hide Add, Field.Lawful, Linked, Rows;
    var k := mx.Length0;
    var p := FindPivot(mx, i);
    if p == k {
      return;
    }
    PivotStep(f, Rows(mx), i, p);
    if p != i {
      LinkedSwap(f, m, Rows(mx), Rows(out), i, p);
      SwapRows(mx, i, p);
      SwapRows(out, i, p);
    }
    var inv := f.inv(mx[i, i]);
    MulInv(f, mx[i, i]);
    LinkedScale(f, m, Rows(mx), Rows(out), i, inv, mx[i, i]);
    ScaleRow(f, mx, i, inv);
    ScaleRow(f, out, i, inv);
    for j := i + 1 to k
      invariant IsLower(Rows(mx), i) && IsCleared(Rows(mx), i, j)
      invariant Linked(f, m, Rows(mx), Rows(out))
    {
      var fac := mx[j, i];
      ClearStep(f, Rows(mx), i, j);
      LinkedAdd(f, m, Rows(mx), Rows(out), i, j, fac);
      AddMulRows(f, mx, i, j, fac);
      AddMulRows(f, out, i, j, fac);
    }
  }

  /** Clears column i above the diagonal. */
  method BackwardColumn(f: Field, mx: array2<byte>, out: array2<byte>, i: nat, ghost m: seq<Vector>)
    requires f.Lawful() && mx != out && mx.Length0 == mx.Length1 == out.Length0 == out.Length1 == |m| && i < |m|
    requires IsLower(Rows(mx), |m|) && Linked(f, m, Rows(mx), Rows(out))
    requires IsUpperCleared(Rows(mx), i + 1)
    modifies mx, out
    ensures IsLower(Rows(mx), |m|) && Linked(f, m, Rows(mx), Rows(out))
    ensures IsUpperCleared(Rows(mx), i)
  {
    hide Add, Field.Lawful, Linked, Rows;
    for j := i downto 0
      invariant IsLower(Rows(mx), |m|) && Linked(f, m, Rows(mx), Rows(out))
      invariant IsUpperCleared(Rows(mx), i + 1)
      invariant Rows(mx)[i][i] == 1 ==> forall r :: j <= r < i ==> Rows(mx)[r][i] == 0
    {
      var fac := mx[j, i];
      BackStep(f, Rows(mx), i, j);
      LinkedAdd(f, m, Rows(mx), Rows(out), i, j, fac);
      AddMulRows(f, mx, i, j, fac);
      AddMulRows(f, out, i, j, fac);
    }
  }

  /** Starting from m and the identity: out times m equals mx throughout, and when every column found a
      pivot, which shows as a diagonal of ones, mx is the identity and out the inverse of m. */
  method InvertMatrixWith(f: Field, mx: array2<byte>, out: array2<byte>, ghost m: seq<Vector>)
    requires f.Lawful() && mx != out && mx.Length0 == mx.Length1 == out.Length0 == out.Length1 == |m|
    requires Rows(mx) == m && Rows(out) == Identity(|m|)
    modifies mx, out
    ensures IsProduct(f, Rows(out), m, Rows(mx))
    ensures (forall i :: 0 <= i < |m| ==> mx[i, i] == 1) ==>
              && Rows(mx) == Identity(|m|)
              && IsProduct(f, Rows(out), m, Identity(|m|)) && IsProduct(f, m, Rows(out), Identity(|m|))
    ensures (forall i :: 0 <= i < |m| ==> mx[i, i] == 1) <==> Invertible(f, m)
  {
    hide Add, Field.Lawful, Linked, Rows;
    LinkedStart(f, m);
    for i := 0 to mx.Length0
      invariant IsLower(Rows(mx), i) && Linked(f, m, Rows(mx), Rows(out))
    {
      ForwardColumn(f, mx, out, i, m);
    }
    for i := mx.Length0 downto 0
      invariant IsLower(Rows(mx), |m|) && Linked(f, m, Rows(mx), Rows(out))
      invariant IsUpperCleared(Rows(mx), i)
    {
      BackwardColumn(f, mx, out, i, m);
    }
    if forall i :: 0 <= i < |m| ==> mx[i, i] == 1 {
      TriangularIsIdentity(Rows(mx));
      LinkedEnd(f, m, Rows(out));
    } else {
      ghost var c := LastWithoutPivot(Rows(mx));
      ZeroRow(Rows(mx), c);
      ZeroRowMeansSingular(f, m, Rows(mx), Rows(out), c);
    }
    LinkedProduct(f, m, Rows(mx), Rows(out));
  }
}
