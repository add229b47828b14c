/** The check that decoding makes of received shares before anything is corrected: a parity matrix
    is derived from the columns of the shares that are present, and the shares are consistent when
    it takes them to zero. */
module Syndrome {
  import opened Lists
  import opened Field
  import opened Vandermonde
  import opened Fec
  import opened MatrixInverse

  // ------------------------------------------------------------ row equivalence

  /** Some weights give the same sum of the rows of n as u does of those of m, and are not all zero
      unless u is. */
  ghost predicate Covered(f: Field, m: seq<Vector>, n: seq<Vector>, len: nat, u: Vector)
    requires HasWidth(m, len) && HasWidth(n, len) && |u| == |m| == |n|
  {
    exists v: Vector :: |v| == |n| && Combination(f, n, v, len) == Combination(f, m, u, len) && (Zero(v) ==> Zero(u))
  }

  ghost predicate Covers(f: Field, m: seq<Vector>, n: seq<Vector>, len: nat) {
    && HasWidth(m, len) && HasWidth(n, len) && |m| == |n|
    && forall u: Vector :: |u| == |m| ==> Covered(f, m, n, len, u)
  }

  /** The rows of both matrices have the same weighted sums. */
  ghost predicate Equivalent(f: Field, m: seq<Vector>, n: seq<Vector>, len: nat) {
    Covers(f, m, n, len) && Covers(f, n, m, len)
  }

  lemma {:induction false} CoversSelf(f: Field, m: seq<Vector>, len: nat)
    requires HasWidth(m, len)
    ensures Equivalent(f, m, m, len)
  {
    hide Combination;
  }

  lemma {:induction false} WeightsOf(f: Field, m: seq<Vector>, n: seq<Vector>, len: nat, u: Vector)
    requires Covers(f, m, n, len) && |u| == |m|
    ensures HasWidth(m, len) && HasWidth(n, len) && |m| == |n| && Covered(f, m, n, len, u)
  {
  }

  lemma {:induction false} CoveredBoth(f: Field, m: seq<Vector>, n: seq<Vector>, p: seq<Vector>, len: nat, u: Vector)
    requires Covers(f, m, n, len) && Covers(f, n, p, len) && |u| == |m|
    ensures HasWidth(m, len) && HasWidth(p, len) && |m| == |p| && Covered(f, m, p, len, u)
  {
    hide Combination, Zero, Covers;
    WeightsOf(f, m, n, len, u);
    var v: Vector :| |v| == |n| && Combination(f, n, v, len) == Combination(f, m, u, len) && (Zero(v) ==> Zero(u));
    WeightsOf(f, n, p, len, v);
  }

  lemma {:induction false} CoversBoth(f: Field, m: seq<Vector>, n: seq<Vector>, p: seq<Vector>, len: nat)
    requires Covers(f, m, n, len) && Covers(f, n, p, len)
    ensures Covers(f, m, p, len)
  {
    hide Covered;
    forall u: Vector | |u| == |m| ensures Covered(f, m, p, len, u) {
      CoveredBoth(f, m, n, p, len, u);
    }
  }

  lemma {:induction false} EquivalentBoth(f: Field, m: seq<Vector>, n: seq<Vector>, p: seq<Vector>, len: nat)
    requires Equivalent(f, m, n, len) && Equivalent(f, n, p, len)
    ensures Equivalent(f, m, p, len)
  {
    hide Covers;
    CoversBoth(f, m, n, p, len);
    CoversBoth(f, p, n, m, len);
  }

  lemma {:induction false} SwapCovers(f: Field, m: seq<Vector>, a: nat, b: nat, len: nat)
    requires f.Lawful() && HasWidth(m, len) && a < |m| && b < |m| && a != b
    ensures Covers(f, m, SwappedRows(m, a, b), len)
  {
    hide Combination, Field.Lawful, SwappedRows;
    SwapUndone(f, ZeroVector(|m|), m, a, b, len);
    forall u: Vector | |u| == |m| ensures Covered(f, m, SwappedRows(m, a, b), len, u) {
      SwapUndone(f, u, m, a, b, len);
      var v := u[a := u[b]][b := u[a]];
      if Zero(v) {
        assert v[a] == u[b] && v[b] == u[a] && forall i :: 0 <= i < |u| && i != a && i != b ==> v[i] == u[i];
      }
    }
  }

  lemma {:induction false} ScaleCovers(f: Field, m: seq<Vector>, a: nat, c: byte, d: byte, len: nat)
    requires f.Lawful() && HasWidth(m, len) && a < |m| && f.mul(d, c) == 1
    ensures Covers(f, m, ScaledRow(f, m, a, c), len)
  {
    hide Combination, Field.Lawful, ScaledRow;
    ScaleUndone(f, ZeroVector(|m|), m, a, c, d, len);
    forall u: Vector | |u| == |m| ensures Covered(f, m, ScaledRow(f, m, a, c), len, u) {
      ScaleUndone(f, u, m, a, c, d, len);
      var v := u[a := f.mul(u[a], d)];
      if Zero(v) {
        assert v[a] == f.mul(u[a], d) == 0;
        FactorIsZero(f, u[a], d, c);
        assert forall i :: 0 <= i < |u| && i != a ==> v[i] == u[i];
      }
    }
  }

  lemma {:induction false} FactorIsZero(f: Field, x: byte, d: byte, c: byte)
    requires f.Lawful() && f.mul(x, d) == 0 && f.mul(d, c) == 1
    ensures x == 0
  {
    hide Field.Lawful;
    MulAssoc(f, x, d, c);
    MulOne(f, x);
    MulZero(f, c);
  }

  lemma {:induction false} AddCovers(f: Field, m: seq<Vector>, a: nat, b: nat, c: byte, len: nat)
    requires f.Lawful() && HasWidth(m, len) && a < |m| && b < |m| && a != b
    ensures Covers(f, m, AddedRow(f, m, a, b, c), len)
  {
    hide Combination, Field.Lawful, AddedRow, Add;
    AddUndone(f, ZeroVector(|m|), m, a, b, c, len);
    MulZero(f, c);
    forall u: Vector | |u| == |m| ensures Covered(f, m, AddedRow(f, m, a, b, c), len, u) {
      AddUndone(f, u, m, a, b, c, len);
      var v := u[a := Add(u[a], f.mul(c, u[b]))];
      if Zero(v) {
        assert v[b] == u[b] == 0;
        assert v[a] == Add(u[a], f.mul(c, u[b])) == 0;
        AddZero(u[a]);
        assert forall i :: 0 <= i < |u| && i != a ==> v[i] == u[i];
      }
    }
  }

  lemma {:induction false} SwapEquivalent(f: Field, m: seq<Vector>, a: nat, b: nat, len: nat)
    requires f.Lawful() && HasWidth(m, len) && a < |m| && b < |m| && a != b
    ensures Equivalent(f, m, SwappedRows(m, a, b), len)
  {
    hide Field.Lawful, Covers;
    SwapCovers(f, m, a, b, len);
    SwapCovers(f, SwappedRows(m, a, b), a, b, len);
    assert SwappedRows(SwappedRows(m, a, b), a, b) == m;
  }

  lemma {:induction false} ScaleEquivalent(f: Field, m: seq<Vector>, a: nat, c: byte, d: byte, len: nat)
    requires f.Lawful() && HasWidth(m, len) && a < |m| && f.mul(d, c) == 1
    ensures Equivalent(f, m, ScaledRow(f, m, a, c), len)
  {
    hide Field.Lawful, Covers;
    var n := ScaledRow(f, m, a, c);
    MulComm(f, d, c);
    ScaleCovers(f, m, a, c, d, len);
    ScaleCovers(f, n, a, d, c, len);
    forall i | 0 <= i < len ensures Scale(f, d, Scale(f, c, m[a]))[i] == m[a][i] {
      MulAssoc(f, d, c, m[a][i]);
      MulOne(f, m[a][i]);
    }
    assert Scale(f, d, Scale(f, c, m[a])) == m[a];
    assert ScaledRow(f, n, a, d) == m;
  }

  lemma {:induction false} AddEquivalent(f: Field, m: seq<Vector>, a: nat, b: nat, c: byte, len: nat)
    requires f.Lawful() && HasWidth(m, len) && a < |m| && b < |m| && a != b
    ensures Equivalent(f, m, AddedRow(f, m, a, b, c), len)
  {
    hide Field.Lawful, Covers, Add;
    var n := AddedRow(f, m, a, b, c);
    AddCovers(f, m, a, b, c, len);
    AddCovers(f, n, a, b, c, len);
    forall i | 0 <= i < len ensures PolyAdd(n[b], Scale(f, c, n[a]))[i] == m[b][i] {
      AddCancel(m[b][i], f.mul(c, m[a][i]));
    }
    assert PolyAdd(n[b], Scale(f, c, n[a])) == m[b];
    assert AddedRow(f, n, a, b, c) == m;
  }

  // ------------------------------------------------------------ standardising

  /** The square block in the first columns. */
  ghost function Lead(m: seq<Vector>, len: nat): (l: seq<Vector>)
    requires HasWidth(m, len) && |m| <= len
    ensures |l| == |m| && IsSquare(l) && forall r, c :: 0 <= r < |m| && 0 <= c < |m| ==> l[r][c] == m[r][c]
  {
    seq(|m|, r requires 0 <= r < |m| => m[r][..|m|])
  }

  lemma {:induction false} SameLead(m: seq<Vector>, len: nat, l: seq<Vector>)
    requires HasWidth(m, len) && |m| <= len && |l| == |m| && IsSquare(l)
    requires forall r, c :: 0 <= r < |m| && 0 <= c < |m| ==> l[r][c] == m[r][c]
    ensures Lead(m, len) == l
  {
    forall r | 0 <= r < |m| ensures Lead(m, len)[r] == l[r] {
    }
  }

  lemma {:induction false} LeadSwap(m: seq<Vector>, len: nat, a: nat, b: nat)
    requires HasWidth(m, len) && |m| <= len && a < |m| && b < |m|
    ensures HasWidth(SwappedRows(m, a, b), len)
    ensures Lead(SwappedRows(m, a, b), len) == SwappedRows(Lead(m, len), a, b)
  {
    hide Lead;
    SameLead(SwappedRows(m, a, b), len, SwappedRows(Lead(m, len), a, b));
  }

  lemma {:induction false} LeadScale(f: Field, m: seq<Vector>, len: nat, a: nat, c: byte)
    requires HasWidth(m, len) && |m| <= len && a < |m|
    ensures HasWidth(ScaledRow(f, m, a, c), len)
    ensures Lead(ScaledRow(f, m, a, c), len) == ScaledRow(f, Lead(m, len), a, c)
  {
    hide Lead;
    SameLead(ScaledRow(f, m, a, c), len, ScaledRow(f, Lead(m, len), a, c));
  }

  lemma {:induction false} LeadAdd(f: Field, m: seq<Vector>, len: nat, a: nat, b: nat, c: byte)
    requires HasWidth(m, len) && |m| <= len && a < |m| && b < |m|
    ensures HasWidth(AddedRow(f, m, a, b, c), len)
    ensures Lead(AddedRow(f, m, a, b, c), len) == AddedRow(f, Lead(m, len), a, b, c)
  {
    hide Lead, Add;
    SameLead(AddedRow(f, m, a, b, c), len, AddedRow(f, Lead(m, len), a, b, c));
  }

  lemma {:induction false} RowsWide(a: array2<byte>)
    ensures HasWidth(Rows(a), a.Length1) && |Rows(a)| == a.Length0
    ensures forall r, c :: 0 <= r < a.Length0 && 0 <= c < a.Length1 ==> Rows(a)[r][c] == a[r, c]
  {
  }

  /** What elimination keeps of a wide matrix. */
  ghost predicate Reduced(f: Field, was: seq<Vector>, m: seq<Vector>, len: nat, n: nat) {
    && Equivalent(f, was, m, len) && |m| <= len && IsLower(Lead(m, len), n)
  }

  /** Makes column i zero below a diagonal one, or leaves the matrix alone when it is zero from the
      diagonal down. */
  method StandardizeForward(f: Field, mx: array2<byte>, i: nat, ghost was: seq<Vector>)
    requires f.Lawful() && i < mx.Length0 <= mx.Length1 && Reduced(f, was, Rows(mx), mx.Length1, i)
    modifies mx
    ensures Reduced(f, was, Rows(mx), mx.Length1, i + 1)
  {
    hide Add, Field.Lawful, Equivalent, Rows, Lead;
    var k, len := mx.Length0, mx.Length1;
    RowsWide(mx);
    var p := FindPivot(mx, i);
    if p == k {
      return;
    }
    PivotStep(f, Lead(Rows(mx), len), i, p);
    if p != i {
      SwapEquivalent(f, Rows(mx), i, p, len);
      EquivalentBoth(f, was, Rows(mx), SwappedRows(Rows(mx), i, p), len);
      LeadSwap(Rows(mx), len, i, p);
      SwapRows(mx, i, p);
      RowsWide(mx);
    }
    var inv := f.inv(mx[i, i]);
    MulInv(f, mx[i, i]);
    ScaleEquivalent(f, Rows(mx), i, inv, mx[i, i], len);
    EquivalentBoth(f, was, Rows(mx), ScaledRow(f, Rows(mx), i, inv), len);
    LeadScale(f, Rows(mx), len, i, inv);
    ScaleRow(f, mx, i, inv);
    for j := i + 1 to k
      invariant Reduced(f, was, Rows(mx), len, i) && IsCleared(Lead(Rows(mx), len), i, j)
    {
      RowsWide(mx);
      var fac := mx[j, i];
      ClearStep(f, Lead(Rows(mx), len), i, j);
      AddEquivalent(f, Rows(mx), i, j, fac, len);
      EquivalentBoth(f, was, Rows(mx), AddedRow(f, Rows(mx), i, j, fac), len);
      LeadAdd(f, Rows(mx), len, i, j, fac);
      AddMulRows(f, mx, i, j, fac);
    }
  }

  /** Clears column i above the diagonal. */
  method StandardizeBackward(f: Field, mx: array2<byte>, i: nat, ghost was: seq<Vector>)
    requires f.Lawful() && i < mx.Length0 <= mx.Length1 && Reduced(f, was, Rows(mx), mx.Length1, mx.Length0)
    requires IsUpperCleared(Lead(Rows(mx), mx.Length1), i + 1)
    modifies mx
    ensures Reduced(f, was, Rows(mx), mx.Length1, mx.Length0) && IsUpperCleared(Lead(Rows(mx), mx.Length1), i)
  {
    hide Add, Field.Lawful, Equivalent, Rows, Lead;
    var k, len := mx.Length0, mx.Length1;
    RowsWide(mx);
    for j := i downto 0
      invariant Reduced(f, was, Rows(mx), len, k) && IsUpperCleared(Lead(Rows(mx), len), i + 1)
      invariant Lead(Rows(mx), len)[i][i] == 1 ==> forall r :: j <= r < i ==> Lead(Rows(mx), len)[r][i] == 0
    {
      RowsWide(mx);
      var fac := mx[j, i];
      BackStep(f, Lead(Rows(mx), len), i, j);
      AddEquivalent(f, Rows(mx), i, j, fac, len);
      EquivalentBoth(f, was, Rows(mx), AddedRow(f, Rows(mx), i, j, fac), len);
      LeadAdd(f, Rows(mx), len, i, j, fac);
      AddMulRows(f, mx, i, j, fac);
    }
  }

  /** No weights but zero take the first columns to zero. */
  ghost predicate LeadIndependent(f: Field, m: seq<Vector>, len: nat)
    requires HasWidth(m, len) && |m| <= len
  {
    forall u: Vector :: |u| == |m| && (forall i :: 0 <= i < |m| ==> Combination(f, m, u, len)[i] == 0) ==> Zero(u)
  }

  lemma {:induction false} UnitSum(f: Field, m: seq<Vector>, c: nat, len: nat)
    requires f.Lawful() && HasWidth(m, len) && c < |m|
    ensures Combination(f, m, Unit(|m|, c), len) == m[c]
  {
    CombinationUnit(f, m, Unit(|m|, c), c, len);
  }

  /** With independent first columns no row of an equivalent matrix begins with zeros alone. */
  lemma {:induction false} RowBegins(f: Field, was: seq<Vector>, m: seq<Vector>, len: nat, c: nat)
    requires f.Lawful() && Covers(f, m, was, len) && |was| <= len && LeadIndependent(f, was, len) && c < |m|
    ensures exists i :: 0 <= i < |m| && m[c][i] != 0
  {
    hide Field.Lawful, Combination, Covers, LeadIndependent;
    var u := Unit(|m|, c);
    WeightsOf(f, m, was, len, u);
    UnitSum(f, m, c, len);
    var v: Vector :| |v| == |was| && Combination(f, was, v, len) == Combination(f, m, u, len) && (Zero(v) ==> Zero(u));
    OneIsNotZero();
    assert u[c] == 1;
    if forall i :: 0 <= i < |m| ==> m[c][i] == 0 {
      WeightsAreZero(f, was, len, v);
    }
  }

  lemma {:induction false} WeightsAreZero(f: Field, m: seq<Vector>, len: nat, u: Vector)
    requires HasWidth(m, len) && |m| <= len && LeadIndependent(f, m, len) && |u| == |m|
    requires forall i :: 0 <= i < |m| ==> Combination(f, m, u, len)[i] == 0
    ensures Zero(u)
  {
  }

  /** With independent first columns every pivot was found. */
  lemma {:induction false} PivotsFound(f: Field, was: seq<Vector>, m: seq<Vector>, len: nat)
    requires f.Lawful() && Reduced(f, was, m, len, |m|) && IsUpperCleared(Lead(m, len), 0)
    requires |was| <= len && HasWidth(was, len) && LeadIndependent(f, was, len)
    ensures Lead(m, len) == Identity(|m|)
  {
    var l := Lead(m, len);
    hide Field.Lawful, Combination, Identity, Covers, LeadIndependent, Lead;
    if FullDiagonal(l) {
      TriangularIsIdentity(l);
    } else {
      var c := LastWithoutPivot(l);
      ZeroRow(l, c);
      forall i | 0 <= i < |m| ensures m[c][i] == 0 { assert l[c][i] == m[c][i]; }
      RowBegins(f, was, m, len, c);
    }
  }

  /** `standardize_matrix`: the same weighted sums of rows, and, when the first columns are independent, the
      identity in front. */
  method StandardizeMatrix(f: Field, mx: array2<byte>)
    requires f.Lawful() && mx.Length0 <= mx.Length1
    modifies mx
    ensures Equivalent(f, old(Rows(mx)), Rows(mx), mx.Length1)
    ensures old(LeadIndependent(f, Rows(mx), mx.Length1)) ==> Lead(Rows(mx), mx.Length1) == Identity(mx.Length0)
  {
    hide Add, Field.Lawful, Equivalent, Rows, Lead, LeadIndependent;
    ghost var was := Rows(mx);
    RowsWide(mx);
    CoversSelf(f, was, mx.Length1);
    for i := 0 to mx.Length0
      invariant Reduced(f, was, Rows(mx), mx.Length1, i)
    {
      StandardizeForward(f, mx, i, was);
    }
    for i := mx.Length0 downto 0
      invariant Reduced(f, was, Rows(mx), mx.Length1, mx.Length0)
      invariant IsUpperCleared(Lead(Rows(mx), mx.Length1), i)
    {
      StandardizeBackward(f, mx, i, was);
    }
    RowsWide(mx);
    if LeadIndependent(f, was, mx.Length1) {
      PivotsFound(f, was, Rows(mx), mx.Length1);
    }
  }

  // ------------------------------------------------------------------- parity

  ghost function Col(m: seq<Vector>, c: nat): (v: Vector)
    requires forall r :: 0 <= r < |m| ==> c < |m[r]|
    ensures |v| == |m| && forall r :: 0 <= r < |m| ==> v[r] == m[r][c]
  {
    seq(|m|, r requires 0 <= r < |m| => m[r][c])
  }

  /** Row i of the parity matrix: column |m| + i of m, then a row of the identity. */
  ghost function ParityRow(m: seq<Vector>, len: nat, i: nat): (v: Vector)
    requires HasWidth(m, len) && |m| + i < len
    ensures |v| == len
  {
    Col(m, |m| + i) + Unit(len - |m|, i)
  }

  ghost predicate IsParity(m: seq<Vector>, len: nat, h: seq<Vector>) {
    HasWidth(m, len) && |m| + |h| == len && forall i :: 0 <= i < |h| ==> h[i] == ParityRow(m, len, i)
  }

  /** `parity_matrix`, on a zeroed result. */
  method ParityMatrix(mx: array2<byte>, out: array2<byte>)
    requires mx != out && mx.Length0 <= mx.Length1 == out.Length1 && out.Length0 == mx.Length1 - mx.Length0
    requires forall i, j :: 0 <= i < out.Length0 && 0 <= j < out.Length1 ==> out[i, j] == 0
    modifies out
    ensures IsParity(Rows(mx), mx.Length1, Rows(out))
  {
    var r := mx.Length0;
    for i := 0 to out.Length0
      invariant forall k, j :: 0 <= k < out.Length0 && 0 <= j < out.Length1 ==>
                  out[k, j] == if k < i && j == k + r then 1 else 0
    {
      out[i, i + r] := 1;
    }
    for i := 0 to out.Length0
      invariant forall k, j :: 0 <= k < out.Length0 && 0 <= j < out.Length1 ==>
                  out[k, j] == if j == k + r then 1 else if k < i && j < r then mx[j, k + r] else 0
    {
      for l := 0 to r
        invariant forall k, j :: 0 <= k < out.Length0 && 0 <= j < out.Length1 ==>
                    out[k, j] == if j == k + r then 1
                                 else if j < r && (k < i || (k == i && j < l)) then mx[j, k + r] else 0
      {
        out[i, l] := mx[l, i + r];
      }
    }
    RowsWide(mx);
    RowsWide(out);
    forall i | 0 <= i < out.Length0 ensures Rows(out)[i] == ParityRow(Rows(mx), mx.Length1, i) {
    }
  }

  lemma {:induction false} CombinationEntry(f: Field, m: seq<Vector>, u: Vector, len: nat, k: nat)
    requires f.Lawful() && HasWidth(m, len) && |u| == |m| && k < len
    ensures Combination(f, m, u, len)[k] == Dot(f, Col(m, k), u)
  {
    hide Add, Field.Lawful;
    if u == [] {
    } else {
      var n := |u| - 1;
      CombinationEntry(f, m[..n], u[..n], len, k);
      assert Col(m, k)[..n] == Col(m[..n], k);
      MulComm(f, u[n], m[n][k]);
    }
  }

  lemma {:induction false} DotAppend(f: Field, a: Vector, b: Vector, u: Vector, v: Vector)
    requires |a| == |u| && |b| == |v|
    ensures Dot(f, a + b, u + v) == Add(Dot(f, a, u), Dot(f, b, v))
    decreases |b|
  {
    hide Add;
    if b == [] {
      assert a + b == a && u + v == u;
      AddZero(Dot(f, a, u));
    } else {
      var n := |b| - 1;
      DotAppend(f, a, b[..n], u, v[..n]);
      assert (a + b)[..|a + b| - 1] == a + b[..n] && (u + v)[..|u + v| - 1] == u + v[..n];
      AddAssoc(Dot(f, a, u), Dot(f, b[..n], v[..n]), f.mul(b[n], v[n]));
    }
  }

  /** A parity row adds the received symbol to the one that the first symbols imply. */
  lemma {:induction false} ParityDot(f: Field, m: seq<Vector>, len: nat, i: nat, s: Vector)
    requires f.Lawful() && HasWidth(m, len) && |m| + i < len == |s|
    ensures Dot(f, ParityRow(m, len, i), s) == Add(Combination(f, m, s[..|m|], len)[|m| + i], s[|m| + i])
  {
    hide Add, Field.Lawful, Dot, Combination;
    var k := |m|;
    assert s == s[..k] + s[k..];
    DotAppend(f, Col(m, k + i), Unit(len - k, i), s[..k], s[k..]);
    DotUnit(f, Unit(len - k, i), s[k..], i);
    CombinationEntry(f, m, s[..k], len, k + i);
  }

  /** With the identity in front, the weights of a sum of rows are its first symbols. */
  lemma {:induction false} WeightsInFront(f: Field, m: seq<Vector>, u: Vector, len: nat, k: nat)
    requires f.Lawful() && HasWidth(m, len) && |m| <= len && Lead(m, len) == Identity(|m|) && |u| == |m| && k < |m|
    ensures Combination(f, m, u, len)[k] == u[k]
  {
    hide Add, Field.Lawful, Dot, Combination, Lead, Identity;
    CombinationEntry(f, m, u, len, k);
    forall r | 0 <= r < |m| ensures Col(m, k)[r] == if r == k then 1 else 0 {
      assert Lead(m, len)[r][k] == m[r][k];
      IdentityAt(|m|, r, k);
    }
    DotUnit(f, Col(m, k), u, k);
  }

  lemma {:induction false} IdentityAt(k: nat, r: nat, c: nat)
    requires r < k && c < k
    ensures Identity(k)[r][c] == if c == r then 1 else 0
  {
  }

  ghost predicate InSpan(f: Field, m: seq<Vector>, s: Vector, len: nat)
    requires HasWidth(m, len)
  {
    exists u: Vector :: |u| == |m| && Combination(f, m, u, len) == s
  }

  ghost predicate Annihilated(f: Field, h: seq<Vector>, s: Vector)
    requires HasWidth(h, |s|)
  {
    forall i :: 0 <= i < |h| ==> Dot(f, h[i], s) == 0
  }

  /** The parity matrix of a standardised matrix takes exactly the sums of its rows to zero. */
  lemma {:induction false} ParityAnnihilates(f: Field, m: seq<Vector>, len: nat, h: seq<Vector>, s: Vector)
    requires f.Lawful() && IsParity(m, len, h) && Lead(m, len) == Identity(|m|) && |s| == len
    ensures HasWidth(h, len)
    ensures Annihilated(f, h, s) <==> InSpan(f, m, s, len)
  {
    hide Add, Field.Lawful, Dot, Combination, Lead, Identity, ParityRow;
    var k, u := |m|, s[..|m|];
    assert HasWidth(h, len) by {
      forall i | 0 <= i < |h| ensures |h[i]| == len { assert h[i] == ParityRow(m, len, i); }
    }
    forall i | 0 <= i < |h|
      ensures Dot(f, h[i], s) == 0 <==> Combination(f, m, u, len)[k + i] == s[k + i]
    {
      ParityDot(f, m, len, i, s);
      AddCancel(Combination(f, m, u, len)[k + i], s[k + i]);
    }
    if Annihilated(f, h, s) {
      var t := Combination(f, m, u, len);
      forall c | 0 <= c < len ensures t[c] == s[c] {
        if c < k {
          WeightsInFront(f, m, u, len, c);
        } else {
          assert Dot(f, h[c - k], s) == 0;
        }
      }
      assert t == s;
    }
    if InSpan(f, m, s, len) {
      var w: Vector :| |w| == k && Combination(f, m, w, len) == s;
      forall c | 0 <= c < k ensures w[c] == u[c] {
        WeightsInFront(f, m, w, len, c);
      }
      assert w == u;
    }
  }

  lemma {:induction false} SpanCovered(f: Field, m: seq<Vector>, n: seq<Vector>, len: nat, s: Vector)
    requires Covers(f, m, n, len) && HasWidth(m, len) && HasWidth(n, len) && InSpan(f, m, s, len)
    ensures InSpan(f, n, s, len)
  {
    hide Combination, Zero, Covers;
    var u: Vector :| |u| == |m| && Combination(f, m, u, len) == s;
    WeightsOf(f, m, n, len, u);
  }

  lemma {:induction false} SameSpan(f: Field, m: seq<Vector>, n: seq<Vector>, len: nat, s: Vector)
    requires Equivalent(f, m, n, len) && HasWidth(m, len) && HasWidth(n, len)
    ensures InSpan(f, m, s, len) <==> InSpan(f, n, s, len)
  {
    hide Covers, InSpan;
    if InSpan(f, m, s, len) { SpanCovered(f, m, n, len, s); }
    if InSpan(f, n, s, len) { SpanCovered(f, n, m, len, s); }
  }

  // ---------------------------------------------------------- received shares

  /** The received symbols are those of one codeword, at these share numbers. */
  ghost predicate Agrees(f: Field, exp: seq<byte>, required: nat, total: nat, numbers: seq<nat>, s: Vector)
    requires |exp| == 510 && total <= 256
  {
    && |s| == |numbers|
    && exists word: Vector :: |word| == total && required <= total && IsCodeword(f, exp, required, word[..required], word)
         && forall j :: 0 <= j < |numbers| ==> numbers[j] < total && s[j] == word[numbers[j]]
  }

  ghost predicate Increasing(numbers: seq<nat>, total: nat) {
    && (forall j :: 0 <= j < |numbers| ==> numbers[j] < total)
    && forall i, j :: 0 <= i < j < |numbers| ==> numbers[i] < numbers[j]
  }

  /** The points of the received shares. */
  ghost function PointsOf(exp: seq<byte>, total: nat, numbers: seq<nat>): (xs: seq<byte>)
    requires |exp| == 510 && total <= 256 && Increasing(numbers, total)
    ensures |xs| == |numbers| && forall j :: 0 <= j < |xs| ==> xs[j] == Points(exp, total)[numbers[j]]
  {
    seq(|numbers|, j requires 0 <= j < |numbers| => Points(exp, total)[numbers[j]])
  }

  /** The symbols are the values of a polynomial of degree below `required`. */
  ghost predicate FromPoly(f: Field, required: nat, xs: seq<byte>, s: Vector) {
    exists p: Poly :: |p| == required && Takes(f, p, xs, s)
  }

  ghost predicate Takes(f: Field, p: Poly, xs: seq<byte>, s: Vector) {
    |s| == |xs| && forall j :: 0 <= j < |xs| ==> s[j] == Eval(f, p, xs[j])
  }

  /** A codeword is the values of one polynomial at all points. */
  lemma {:induction false} CodewordIsValues(f: Field, exp: seq<byte>, required: nat, total: nat, word: Vector, p: Poly)
    requires f.Lawful() && IsExpTable(f, exp) && 0 < required <= total <= 256 && |word| == total && |p| == required
    requires forall j :: 0 <= j < required ==> Eval(f, p, Points(exp, total)[j]) == word[j]
    ensures IsCodeword(f, exp, required, word[..required], word) <==> Takes(f, p, Points(exp, total), word)
  {
    hide Field.Lawful, Eval, IsExpTable;
    var pts, d := Points(exp, required), word[..required];
    assert forall j :: 0 <= j < required ==> pts[j] == Points(exp, total)[j];
    assert IsInterpolant(f, pts, d, p);
    PointsDistinct(f, exp, required);
    forall q | IsInterpolant(f, pts, d, q) ensures q == p {
      Interpolation(f, q, p, pts);
    }
    assert forall r :: required <= r < total ==> Points(exp, total)[r] == exp[r];
  }

  lemma {:induction false} InterpolantExists(f: Field, exp: seq<byte>, required: nat, d: Vector) returns (p: Poly)
    requires f.Lawful() && IsExpTable(f, exp) && 0 < required <= 256 && |d| == required
    ensures IsInterpolant(f, Points(exp, required), d, p)
  {
    hide Field.Lawful, Eval, IsExpTable, Combination;
    PointsDistinct(f, exp, required);
    var basis := BasisExists(f, Points(exp, required));
    CombinationInterpolates(f, Points(exp, required), basis, d);
    p := Combination(f, basis, d, required);
  }

  lemma {:induction false} AgreesIsFromPoly(f: Field, exp: seq<byte>, required: nat, total: nat, numbers: seq<nat>, s: Vector)
    requires f.Lawful() && IsExpTable(f, exp) && 0 < required <= total <= 256 && Increasing(numbers, total) && |s| == |numbers|
    ensures Agrees(f, exp, required, total, numbers, s) <==> FromPoly(f, required, PointsOf(exp, total, numbers), s)
  {
    hide Field.Lawful, Eval, IsExpTable, IsCodeword;
    var pts, xs := Points(exp, total), PointsOf(exp, total, numbers);
    if Agrees(f, exp, required, total, numbers, s) {
      var word: Vector :| |word| == total && IsCodeword(f, exp, required, word[..required], word)
                          && forall j :: 0 <= j < |numbers| ==> numbers[j] < total && s[j] == word[numbers[j]];
      var p := InterpolantExists(f, exp, required, word[..required]);
      assert forall j :: 0 <= j < required ==> Points(exp, required)[j] == pts[j];
      CodewordIsValues(f, exp, required, total, word, p);
      assert Takes(f, p, xs, s);
    }
    if FromPoly(f, required, xs, s) {
      var p: Poly :| |p| == required && Takes(f, p, xs, s);
      var word := seq(total, c requires 0 <= c < total => Eval(f, p, pts[c]));
      CodewordIsValues(f, exp, required, total, word, p);
    }
  }

  // ------------------------------------------------------- the derived matrix

  /** The columns of the Vandermonde matrix at the given numbers. */
  ghost predicate IsSelected(f: Field, exp: seq<byte>, required: nat, total: nat, numbers: seq<nat>, m: seq<Vector>)
    requires |exp| == 510 && total <= 256 && required <= total && Increasing(numbers, total)
  {
    && |m| == required && HasWidth(m, |numbers|)
    && forall i, j :: 0 <= i < required && 0 <= j < |numbers| ==>
         f.mul(exp[i], m[i][j]) == Pow(f, PointsOf(exp, total, numbers)[j], i)
  }

  /** The sum of a column's entries, weighted, is the value of the polynomial with the scaled weights. */
  lemma {:induction false} ColumnIsValue(f: Field, exp: seq<byte>, col: Vector, u: Vector, p: Poly, x: byte)
    requires f.Lawful() && |col| == |u| == |p| <= |exp|
    requires forall i :: 0 <= i < |col| ==> f.mul(exp[i], col[i]) == Pow(f, x, i) && f.mul(p[i], exp[i]) == u[i]
    ensures Dot(f, col, u) == PowerSum(f, p, x)
  {
    hide Field.Lawful, Add, Pow;
    if p == [] {
    } else {
      var n := |p| - 1;
      ColumnIsValue(f, exp, col[..n], u[..n], p[..n], x);
      MulAssoc(f, p[n], exp[n], col[n]);
      MulComm(f, col[n], u[n]);
    }
  }

  lemma {:induction false} SumIsValue(f: Field, exp: seq<byte>, required: nat, total: nat, numbers: seq<nat>, m: seq<Vector>,
                                      u: Vector, p: Poly, j: nat)
    requires f.Lawful() && |exp| == 510 && required <= total <= 256 && Increasing(numbers, total)
    requires IsSelected(f, exp, required, total, numbers, m) && |u| == |p| == required && j < |numbers|
    requires forall i :: 0 <= i < required ==> f.mul(p[i], exp[i]) == u[i]
    ensures Combination(f, m, u, |numbers|)[j] == Eval(f, p, PointsOf(exp, total, numbers)[j])
  {
    hide Field.Lawful, Add, Pow, Combination, Dot, Eval, PowerSum;
    var x := PointsOf(exp, total, numbers)[j];
    CombinationEntry(f, m, u, |numbers|, j);
    ColumnIsValue(f, exp, Col(m, j), u, p, x);
    PowerSumIsEval(f, p, x);
  }

  /** Weights for coefficients, and coefficients for weights. */
  lemma {:induction false} ScaledWeights(f: Field, exp: seq<byte>, u: Vector) returns (p: Poly)
    requires f.Lawful() && IsExpTable(f, exp) && |u| <= 256
    ensures |p| == |u| && forall i :: 0 <= i < |u| ==> f.mul(p[i], exp[i]) == u[i] && (p[i] == 0 <==> u[i] == 0)
  {
    hide Field.Lawful;
    p := seq(|u|, i requires 0 <= i < |u| => f.mul(u[i], f.inv(exp[i])));
    forall i | 0 <= i < |u| ensures f.mul(p[i], exp[i]) == u[i] && (p[i] == 0 <==> u[i] == 0) {
      ExpNotZero(f, exp, i);
      MulAssoc(f, u[i], f.inv(exp[i]), exp[i]);
      MulInv(f, exp[i]);
      MulOne(f, u[i]);
      MulZero(f, f.inv(exp[i]));
      MulZero(f, exp[i]);
    }
  }

  lemma {:induction false} ExpNotZero(f: Field, exp: seq<byte>, i: nat)
    requires f.Lawful() && IsExpTable(f, exp) && i < 510
    ensures exp[i] != 0
  {
    hide Field.Lawful, Pow;
    if exp[1] == 0 {
      PowOfZero(f, 255);
      OneIsNotZero();
    } else {
      PowNonZero(f, exp[1], i);
    }
  }

  lemma {:induction false} PowOfZero(f: Field, n: nat)
    requires f.Lawful() && 0 < n
    ensures Pow(f, 0, n) == 0
  {
    hide Field.Lawful;
    MulZero(f, Pow(f, 0, n - 1));
  }

  /** The sums of the selected rows are the values of the polynomials of degree below `required`. */
  lemma {:induction false} SpanIsValues(f: Field, exp: seq<byte>, required: nat, total: nat, numbers: seq<nat>, m: seq<Vector>, s: Vector)
    requires f.Lawful() && IsExpTable(f, exp) && required <= total <= 256 && Increasing(numbers, total)
    requires IsSelected(f, exp, required, total, numbers, m) && |s| == |numbers|
    ensures InSpan(f, m, s, |numbers|) <==> FromPoly(f, required, PointsOf(exp, total, numbers), s)
  {
    hide Field.Lawful, Add, Pow, Combination, Eval, IsExpTable, IsSelected;
    var len, xs := |numbers|, PointsOf(exp, total, numbers);
    SelectedWidth(f, exp, required, total, numbers, m);
    if InSpan(f, m, s, len) {
      var u: Vector :| |u| == |m| && Combination(f, m, u, len) == s;
      var p := ScaledWeights(f, exp, u);
      forall j | 0 <= j < len ensures s[j] == Eval(f, p, xs[j]) {
        SumIsValue(f, exp, required, total, numbers, m, u, p, j);
      }
      assert Takes(f, p, xs, s);
    }
    if FromPoly(f, required, xs, s) {
      var p: Poly :| |p| == required && Takes(f, p, xs, s);
      var u: Vector := seq(required, i requires 0 <= i < required => f.mul(p[i], exp[i]));
      var t := Combination(f, m, u, len);
      forall j | 0 <= j < len ensures s[j] == t[j] {
        SumIsValue(f, exp, required, total, numbers, m, u, p, j);
      }
      assert t == s;
    }
  }

  lemma {:induction false} SelectedWidth(f: Field, exp: seq<byte>, required: nat, total: nat, numbers: seq<nat>, m: seq<Vector>)
    requires |exp| == 510 && required <= total <= 256 && Increasing(numbers, total)
    requires IsSelected(f, exp, required, total, numbers, m)
    ensures |m| == required && HasWidth(m, |numbers|)
  {
  }

  lemma {:induction false} PointsOfDistinct(f: Field, exp: seq<byte>, total: nat, numbers: seq<nat>)
    requires f.Lawful() && IsExpTable(f, exp) && total <= 256 && Increasing(numbers, total)
    ensures Distinct(PointsOf(exp, total, numbers))
  {
    hide Field.Lawful, IsExpTable;
    PointsDistinct(f, exp, total);
  }

  /** A polynomial of degree below `required` with as many roots is zero. */
  lemma {:induction false} SelectedIndependent(f: Field, exp: seq<byte>, required: nat, total: nat, numbers: seq<nat>, m: seq<Vector>)
    requires f.Lawful() && IsExpTable(f, exp) && required <= total <= 256 && Increasing(numbers, total)
    requires IsSelected(f, exp, required, total, numbers, m) && required <= |numbers|
    ensures |m| == required && HasWidth(m, |numbers|) && LeadIndependent(f, m, |numbers|)
  {
    hide Field.Lawful, Add, Pow, Combination, Eval, IsExpTable, IsSelected;
    var len, xs := |numbers|, PointsOf(exp, total, numbers);
    SelectedWidth(f, exp, required, total, numbers, m);
    PointsOfDistinct(f, exp, total, numbers);
    forall u: Vector | |u| == |m| && (forall i :: 0 <= i < |m| ==> Combination(f, m, u, len)[i] == 0) ensures Zero(u) {
      var p := ScaledWeights(f, exp, u);
      forall i | 0 <= i < required ensures Eval(f, p, xs[..required][i]) == 0 {
        SumIsValue(f, exp, required, total, numbers, m, u, p, i);
      }
      TooManyRoots(f, p, xs[..required]);
    }
  }

  /** The columns of vand whose number is present, in order. */
  method SelectColumns(vand: array2<byte>, numbers: seq<nat>) returns (out: array2<byte>)
    requires Increasing(numbers, vand.Length1)
    ensures fresh(out) && out.Length0 == vand.Length0 && out.Length1 == |numbers|
    ensures forall i, j :: 0 <= i < out.Length0 && 0 <= j < |numbers| ==> out[i, j] == vand[i, numbers[j]]
  {
    var present := new bool[vand.Length1](c => false);
    for j := 0 to |numbers|
      invariant forall c :: 0 <= c < present.Length ==> (present[c] <==> c in numbers[..j])
    {
      present[numbers[j]] := true;
      assert numbers[..j + 1] == numbers[..j] + [numbers[j]];
    }
    assert numbers[..|numbers|] == numbers;
    out := new byte[vand.Length0, |numbers|]((i, j) => 0);
    for row := 0 to vand.Length0
      invariant forall c :: 0 <= c < present.Length ==> (present[c] <==> c in numbers)
      invariant forall i, j :: 0 <= i < row && 0 <= j < |numbers| ==> out[i, j] == vand[i, numbers[j]]
    {
      SelectRow(vand, numbers, present, row, out);
    }
  }

  method SelectRow(vand: array2<byte>, numbers: seq<nat>, present: array<bool>, row: nat, out: array2<byte>)
    requires Increasing(numbers, vand.Length1) && out != vand && row < out.Length0 == vand.Length0 && out.Length1 == |numbers|
    requires present.Length == vand.Length1 && forall c :: 0 <= c < present.Length ==> (present[c] <==> c in numbers)
    modifies out
    ensures forall j :: 0 <= j < |numbers| ==> out[row, j] == vand[row, numbers[j]]
    ensures forall i, j :: 0 <= i < out.Length0 && i != row && 0 <= j < |numbers| ==> out[i, j] == old(out[i, j])
  {
    hide Passed;
    NonePassed(numbers);
    var skipped: nat := 0;
    for col := 0 to vand.Length1
      invariant skipped <= col && col - skipped <= |numbers| && Passed(numbers, col, col - skipped)
      invariant forall j :: 0 <= j < col - skipped ==> out[row, j] == vand[row, numbers[j]]
      invariant forall i, j :: 0 <= i < out.Length0 && i != row && 0 <= j < |numbers| ==> out[i, j] == old(out[i, j])
    {
      PassOne(numbers, col, col - skipped);
      if !present[col] {
        skipped := skipped + 1;
      } else {
        out[row, col - skipped] := vand[row, col];
      }
    }
    AllPassed(numbers, vand.Length1, vand.Length1 - skipped);
  }

  lemma {:induction false} NonePassed(numbers: seq<nat>)
    ensures Passed(numbers, 0, 0)
  {
  }

  /** Exactly the first j numbers are below col. */
  ghost predicate Passed(numbers: seq<nat>, col: nat, j: nat) {
    j <= |numbers| && forall i :: 0 <= i < |numbers| ==> (numbers[i] < col <==> i < j)
  }

  lemma {:induction false} PassOne(numbers: seq<nat>, col: nat, j: nat)
    requires Passed(numbers, col, j) && forall a, b :: 0 <= a < b < |numbers| ==> numbers[a] < numbers[b]
    ensures col in numbers ==> j < |numbers| && numbers[j] == col && Passed(numbers, col + 1, j + 1)
    ensures col !in numbers ==> Passed(numbers, col + 1, j)
  {
    if col in numbers {
      var i :| 0 <= i < |numbers| && numbers[i] == col;
    }
  }

  lemma {:induction false} AllPassed(numbers: seq<nat>, total: nat, j: nat)
    requires Passed(numbers, total, j) && Increasing(numbers, total)
    ensures j == |numbers|
  {
    assert numbers == [] || numbers[|numbers| - 1] < total;
  }

  /** `syndrome_matrix`: the columns of the shares that are present, standardised, and the parity matrix of
      that. It takes the received symbols to zero if and only if they are those of one codeword. */
  method SyndromeMatrix(f: Field, ghost exp: seq<byte>, vand: array2<byte>, required: nat, total: nat, numbers: seq<nat>)
    returns (parity: array2<byte>)
    requires f.Lawful() && IsExpTable(f, exp) && 0 < required <= total <= 256 && IsVandMatrix(f, exp, required, total, vand)
    requires Increasing(numbers, total) && required <= |numbers|
    ensures fresh(parity) && parity.Length0 == |numbers| - required && parity.Length1 == |numbers|
    ensures HasWidth(Rows(parity), |numbers|)
    ensures forall s: Vector :: |s| == |numbers| ==>
              (Annihilated(f, Rows(parity), s) <==> Agrees(f, exp, required, total, numbers, s))
  {
    hide Field.Lawful, IsExpTable, Equivalent, LeadIndependent, Lead, Identity, InSpan, Annihilated, Agrees, Pow, IsParity, Rows;
    var mx := SelectColumns(vand, numbers);
    ghost var m := Rows(mx);
    RowsWide(mx);
    assert IsSelected(f, exp, required, total, numbers, m);
    SelectedIndependent(f, exp, required, total, numbers, m);
    StandardizeMatrix(f, mx);
    ghost var n := Rows(mx);
    RowsWide(mx);
    parity := new byte[|numbers| - required, |numbers|]((i, j) => 0);
    ParityMatrix(mx, parity);
    RowsWide(parity);
    forall s: Vector | |s| == |numbers|
      ensures Annihilated(f, Rows(parity), s) <==> Agrees(f, exp, required, total, numbers, s)
    {
      ParityAnnihilates(f, n, |numbers|, Rows(parity), s);
      SameSpan(f, m, n, |numbers|, s);
      SpanIsValues(f, exp, required, total, numbers, m, s);
      AgreesIsFromPoly(f, exp, required, total, numbers, s);
    }
  }

  /** Byte b of every share. */
  ghost function ShareColumn(shares: seq<Vector>, size: nat, b: nat): (s: Vector)
    requires HasWidth(shares, size) && b < size
    ensures |s| == |shares| && forall j :: 0 <= j < |s| ==> s[j] == shares[j][b]
  {
    seq(|shares|, j requires 0 <= j < |shares| => shares[j][b])
  }

  /** The sum of the first j shares, scaled by the entries of a parity row. */
  ghost function PartialSyndrome(f: Field, row: Vector, shares: seq<Vector>, size: nat, j: nat): (v: Vector)
    requires HasWidth(shares, size) && j <= |shares| == |row|
    ensures |v| == size
  {
    seq(size, b requires 0 <= b < size => Dot(f, row[..j], ShareColumn(shares, size, b)[..j]))
  }

  lemma {:induction false} PartialStart(f: Field, row: Vector, shares: seq<Vector>, size: nat)
    requires HasWidth(shares, size) && |shares| == |row|
    ensures forall b :: 0 <= b < size ==> PartialSyndrome(f, row, shares, size, 0)[b] == 0
  {
  }

  lemma {:induction false} PartialStep(f: Field, row: Vector, shares: seq<Vector>, size: nat, j: nat)
    requires HasWidth(shares, size) && j < |shares| == |row|
    ensures forall b :: 0 <= b < size ==>
              PartialSyndrome(f, row, shares, size, j + 1)[b]
              == Add(PartialSyndrome(f, row, shares, size, j)[b], f.mul(row[j], shares[j][b]))
  {
    hide Add;
    forall b | 0 <= b < size
      ensures PartialSyndrome(f, row, shares, size, j + 1)[b]
           == Add(PartialSyndrome(f, row, shares, size, j)[b], f.mul(row[j], shares[j][b]))
    {
      var u, v := row[..j + 1], ShareColumn(shares, size, b)[..j + 1];
      assert u[..j] == row[..j] && v[..j] == ShareColumn(shares, size, b)[..j];
    }
  }

  lemma {:induction false} PartialEnd(f: Field, row: Vector, shares: seq<Vector>, size: nat)
    requires HasWidth(shares, size) && |shares| == |row|
    ensures forall b :: 0 <= b < size ==>
              PartialSyndrome(f, row, shares, size, |shares|)[b] == Dot(f, row, ShareColumn(shares, size, b))
  {
    hide Dot;
    forall b | 0 <= b < size
      ensures PartialSyndrome(f, row, shares, size, |shares|)[b] == Dot(f, row, ShareColumn(shares, size, b))
    {
      var u, v := row, ShareColumn(shares, size, b);
      assert u[..|shares|] == u && v[..|shares|] == v;
    }
  }

  /** One syndrome for all bytes of the shares: the sum of the shares, scaled by a parity row. */
  method SyndromeOf(f: Field, parity: array2<byte>, i: nat, shares: seq<Vector>, size: nat, buf: array<byte>)
    requires i < parity.Length0 && parity.Length1 == |shares| && HasWidth(shares, size) && buf.Length == size
    modifies buf
    ensures forall b :: 0 <= b < size ==> buf[b] == Dot(f, Rows(parity)[i], ShareColumn(shares, size, b))
  {
    hide Add, Dot, PartialSyndrome, Rows, ShareColumn;
    RowsWide(parity);
    ghost var row := Rows(parity)[i];
    for b := 0 to size
      invariant forall c :: 0 <= c < b ==> buf[c] == 0
    {
      buf[b] := 0;
    }
    PartialStart(f, row, shares, size);
    for j := 0 to |shares|
      invariant forall b :: 0 <= b < size ==> buf[b] == PartialSyndrome(f, row, shares, size, j)[b]
    {
      MulSliceXor(f, parity[i, j], shares[j], buf, 0);
      PartialStep(f, row, shares, size, j);
    }
    PartialEnd(f, row, shares, size);
  }

  /** What `correct` looks for before it changes anything: it finds nothing if and only if every byte column
      of the received shares is that of one codeword. */
  method NothingToCorrect(f: Field, ghost exp: seq<byte>, vand: array2<byte>, required: nat, total: nat,
                          numbers: seq<nat>, shares: seq<Vector>, size: nat) returns (clean: bool)
    requires f.Lawful() && IsExpTable(f, exp) && 0 < required <= total <= 256 && IsVandMatrix(f, exp, required, total, vand)
    requires Increasing(numbers, total) && required <= |numbers| == |shares| && HasWidth(shares, size)
    ensures clean <==> forall b :: 0 <= b < size ==> Agrees(f, exp, required, total, numbers, ShareColumn(shares, size, b))
  {
    hide Field.Lawful, IsExpTable, IsVandMatrix, Agrees, Rows, Dot, Annihilated;
    var parity := SyndromeMatrix(f, exp, vand, required, total, numbers);
    RowsWide(parity);
    var buf := new byte[size];
    ghost var h := Rows(parity);
    clean := true;
    for i := 0 to parity.Length0
      invariant Rows(parity) == h
      invariant clean <==> forall k, b :: 0 <= k < i && 0 <= b < size ==> Dot(f, h[k], ShareColumn(shares, size, b)) == 0
    {
      SyndromeOf(f, parity, i, shares, size, buf);
      for b := 0 to size
        invariant Rows(parity) == h
        invariant clean <==>
                    && (forall k, c :: 0 <= k < i && 0 <= c < size ==> Dot(f, h[k], ShareColumn(shares, size, c)) == 0)
                    && (forall c :: 0 <= c < b ==> buf[c] == 0)
      {
        if buf[b] != 0 {
          clean := false;
        }
      }
    }
    forall b | 0 <= b < size
      ensures Annihilated(f, h, ShareColumn(shares, size, b))
              <==> forall k :: 0 <= k < |h| ==> Dot(f, h[k], ShareColumn(shares, size, b)) == 0
    {
      AnnihilatedIs(f, h, ShareColumn(shares, size, b));
    }
  }

  lemma {:induction false} AnnihilatedIs(f: Field, h: seq<Vector>, s: Vector)
    requires HasWidth(h, |s|)
    ensures Annihilated(f, h, s) <==> forall k :: 0 <= k < |h| ==> Dot(f, h[k], s) == 0
  {
  }
}
