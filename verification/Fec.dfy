/** The systematic Reed-Solomon code: shares are values of one polynomial at distinct points, and
    any `required` of them determine the data. */
module Fec {
  import opened Lists
  import opened Arithmetic
  import opened Field
  import opened Vandermonde

  // ------------------------------------------------------------ exponentials

  /** `exp` lists the powers of a generator of order 255. */
  ghost predicate IsExpTable(f: Field, exp: seq<byte>)
    ensures IsExpTable(f, exp) ==> |exp| == 510
  {
    && |exp| == 510
    && (forall n :: 0 <= n < |exp| ==> exp[n] == Pow(f, exp[1], n))
    && Pow(f, exp[1], 255) == 1
    && (forall n :: 0 < n < 255 ==> Pow(f, exp[1], n) != 1)
  }

  lemma {:induction false} PowOfOne(f: Field, n: nat)
    requires f.Lawful()
    ensures Pow(f, 1, n) == 1
  {
    hide Field.Lawful;
    if n == 0 {
    } else {
      PowOfOne(f, n - 1);
      MulOne(f, 1);
    }
  }

  lemma {:induction false} PowPeriod(f: Field, g: byte, n: nat)
    requires f.Lawful() && Pow(f, g, 255) == 1
    ensures Pow(f, g, n % 255) == Pow(f, g, n)
  {
    hide Field.Lawful, Pow;
    var q, m := n / 255, n % 255;
    PowMul(f, g, 255, q);
    PowOfOne(f, q);
    PowAdd(f, g, 255 * q, m);
    MulOne(f, Pow(f, g, m));
    assert n == 255 * q + m;
  }

  /** The table entry at (r c) mod 255 is the c-th power of the entry at r. */
  lemma {:induction false} ExpProduct(f: Field, exp: seq<byte>, r: nat, c: nat)
    requires f.Lawful() && IsExpTable(f, exp) && r < 256
    ensures exp[(r * c) % 255] == Pow(f, exp[r], c)
  {
    hide Field.Lawful, Pow;
    ProductNonNegative(r, c);
    PowPeriod(f, exp[1], r * c);
    PowMul(f, exp[1], r, c);
  }

  /** The points of all 256 possible shares are distinct. */
  lemma {:induction false} PointsDistinct(f: Field, exp: seq<byte>, k: nat)
    requires f.Lawful() && IsExpTable(f, exp) && k <= 256
    ensures Distinct(Points(exp, k))
  {
    hide Field.Lawful, Pow;
    var g := exp[1];
    OneIsNotZero();
    if g == 0 {
      PowStep(f, g, 254);
      MulZero(f, Pow(f, g, 254));
    }
    forall i, j | 0 <= i < j < k ensures Points(exp, k)[i] != Points(exp, k)[j] {
      PowNonZero(f, g, i);
      PowNonZero(f, g, j);
      if i > 0 && Pow(f, g, i) == Pow(f, g, j) {
        PowAdd(f, g, i, j - i);
        CancelLeft(f, Pow(f, g, i), Pow(f, g, j - i));
      }
    }
  }

  lemma {:induction false} PowStep(f: Field, x: byte, n: nat)
    ensures Pow(f, x, n + 1) == f.mul(x, Pow(f, x, n))
  {
  }

  lemma {:induction false} CancelLeft(f: Field, a: byte, b: byte)
    requires f.Lawful() && a != 0 && a == f.mul(a, b)
    ensures b == 1
  {
    hide Field.Lawful;
    MulInv(f, a);
    MulAssoc(f, f.inv(a), a, b);
    MulOne(f, b);
  }

  // ----------------------------------------------------------- interpolation

  /** Sum of products, in index order. */
  ghost function Dot(f: Field, u: seq<byte>, v: seq<byte>): byte
    requires |u| == |v|
  {
    if u == [] then 0 else Add(Dot(f, u[..|u| - 1], v[..|u| - 1]), f.mul(u[|u| - 1], v[|u| - 1]))
  }

  /** The polynomial takes the values d at the points. */
  ghost predicate IsInterpolant(f: Field, pts: seq<byte>, d: seq<byte>, p: Poly) {
    |p| == |d| == |pts| && forall j :: 0 <= j < |pts| ==> Eval(f, p, pts[j]) == d[j]
  }

  ghost function Values(f: Field, basis: seq<Poly>, x: byte): (r: seq<byte>)
    ensures |r| == |basis| && forall j :: 0 <= j < |basis| ==> r[j] == Eval(f, basis[j], x)
  {
    seq(|basis|, j requires 0 <= j < |basis| => Eval(f, basis[j], x))
  }

  /** The sum of the first n basis polynomials, each scaled by its datum. */
  ghost function Combination(f: Field, basis: seq<Poly>, d: seq<byte>, len: nat): (p: Poly)
    requires |basis| == |d| && forall j :: 0 <= j < |basis| ==> |basis[j]| == len
    ensures |p| == len
  {
    if d == [] then seq(len, _ => 0)
    else
      var n := |d| - 1;
      PolyAdd(Combination(f, basis[..n], d[..n], len), Scale(f, d[n], basis[n]))
  }

  lemma {:induction false} EvalCombination(f: Field, basis: seq<Poly>, d: seq<byte>, len: nat, x: byte)
    requires f.Lawful() && |basis| == |d| && forall j :: 0 <= j < |basis| ==> |basis[j]| == len
    ensures Eval(f, Combination(f, basis, d, len), x) == Dot(f, Values(f, basis, x), d)
  {
    hide Add, Eval, Field.Lawful;
    if d == [] {
      EvalZero(f, seq(len, _ => 0), x);
    } else {
      var n := |d| - 1;
      EvalCombination(f, basis[..n], d[..n], len, x);
      assert Values(f, basis, x)[..n] == Values(f, basis[..n], x);
      EvalAdd(f, Combination(f, basis[..n], d[..n], len), Scale(f, d[n], basis[n]), x);
      EvalScale(f, d[n], basis[n], x);
      MulComm(f, d[n], Eval(f, basis[n], x));
    }
  }

  /** A row of the identity picks one datum. */
  lemma {:induction false} DotUnit(f: Field, u: seq<byte>, d: seq<byte>, j: nat)
    requires f.Lawful() && |u| == |d| && forall i :: 0 <= i < |u| ==> u[i] == if i == j then 1 else 0
    ensures Dot(f, u, d) == if j < |d| then d[j] else 0
  {
    hide Add, Field.Lawful;
    if u == [] {
    } else {
      var n := |u| - 1;
      DotUnit(f, u[..n], d[..n], j);
      MulOne(f, d[n]);
      MulZero(f, d[n]);
      AddZero(d[n]);
      AddZero(Dot(f, u[..n], d[..n]));
    }
  }

  /** The combination of the basis is the interpolant, so the value of the interpolant anywhere is
      the product of the basis values with the data. */
  lemma {:induction false} InterpolantValue(f: Field, pts: seq<byte>, basis: seq<Poly>, d: seq<byte>, p: Poly, x: byte)
    requires f.Lawful() && Distinct(pts) && IsBasis(f, pts, basis) && IsInterpolant(f, pts, d, p)
    ensures Eval(f, p, x) == Dot(f, Values(f, basis, x), d)
  {
    hide Add, Eval, Dot, Combination, Field.Lawful;
    CombinationInterpolates(f, pts, basis, d);
    Interpolation(f, p, Combination(f, basis, d, |pts|), pts);
    EvalCombination(f, basis, d, |pts|, x);
  }

  lemma {:induction false} CombinationInterpolates(f: Field, pts: seq<byte>, basis: seq<Poly>, d: seq<byte>)
    requires f.Lawful() && IsBasis(f, pts, basis) && |d| == |pts|
    ensures IsInterpolant(f, pts, d, Combination(f, basis, d, |pts|))
  {
    hide Add, Eval, Dot, Combination, Field.Lawful;
    forall j | 0 <= j < |pts| ensures Eval(f, Combination(f, basis, d, |pts|), pts[j]) == d[j] {
      EvalCombination(f, basis, d, |pts|, pts[j]);
      DotUnit(f, Values(f, basis, pts[j]), d, j);
    }
  }

  // ---------------------------------------------------------------- the code

  /** The shares of one byte column: data bytes first, then parity bytes. */
  ghost predicate IsCodeword(f: Field, exp: seq<byte>, required: nat, d: seq<byte>, shares: seq<byte>)
    requires |exp| == 510
  {
    && |d| == required <= |shares| <= 256
    && (forall j :: 0 <= j < required ==> shares[j] == d[j])
    && forall p, r :: IsInterpolant(f, Points(exp, required), d, p) && required <= r < |shares| ==> shares[r] == Eval(f, p, exp[r])
  }

  /** Two columns whose shares agree in `required` distinct places are equal. */
  lemma {:induction false} SharesDetermineData(f: Field, exp: seq<byte>, required: nat,
                                               d: seq<byte>, e: seq<byte>, s: seq<byte>, t: seq<byte>, places: seq<nat>)
    requires f.Lawful() && IsExpTable(f, exp) && 0 < required <= |s| == |t| <= 256
    requires IsCodeword(f, exp, required, d, s) && IsCodeword(f, exp, required, e, t)
    requires |places| == required
    requires forall i :: 0 <= i < |places| ==> places[i] < |s| && s[places[i]] == t[places[i]]
    requires forall i, j :: 0 <= i < j < |places| ==> places[i] != places[j]
    ensures d == e
  {
    hide Add, Eval, Pow, Combination, Field.Lawful, IsExpTable;
    var pts, all := Points(exp, required), Points(exp, 256);
    PointsDistinct(f, exp, required);
    var basis := BasisExists(f, pts);
    var p, q := Combination(f, basis, d, required), Combination(f, basis, e, required);
    CombinationInterpolates(f, pts, basis, d);
    CombinationInterpolates(f, pts, basis, e);
    PointsDistinct(f, exp, 256);
    var xs := seq(required, i requires 0 <= i < required => all[places[i]]);
    forall i | 0 <= i < required ensures Eval(f, p, xs[i]) == Eval(f, q, xs[i]) {
      var r := places[i];
      assert r < required ==> pts[r] == all[r];
      assert s[r] == Eval(f, p, all[r]);
      assert t[r] == Eval(f, q, all[r]);
    }
    Interpolation(f, p, q, xs);
  }

  // -------------------------------------------------------------- the object

  datatype EncodeResult = Encoded | InvalidDataLength | InvalidParityLength | PanicZeroBlock

  /** Row r of the encoding matrix. */
  ghost function Row(m: array2<byte>, r: nat): (row: seq<byte>)
    reads m
    requires r < m.Length0
    ensures |row| == m.Length1 && forall j :: 0 <= j < m.Length1 ==> row[j] == m[r, j]
  {
    seq(m.Length1, j requires 0 <= j < m.Length1 reads m => m[r, j])
  }

  /** The lower rows of the extended matrix: row r holds the powers of point r. */
  method FillPowers(f: Field, exp: seq<byte>, m: array2<byte>, from: nat)
    requires f.Lawful() && IsExpTable(f, exp) && from <= m.Length0 <= 256
    modifies m
    ensures forall r, c :: 0 <= r < from && 0 <= c < m.Length1 ==> m[r, c] == old(m[r, c])
    ensures forall r, c :: from <= r < m.Length0 && 0 <= c < m.Length1 ==> m[r, c] == Pow(f, exp[r], c)
  {
    hide Pow, IsExpTable, Field.Lawful;
    for r := from to m.Length0
      invariant forall i, c :: 0 <= i < from && 0 <= c < m.Length1 ==> m[i, c] == old(m[i, c])
      invariant forall i, c :: from <= i < r && 0 <= c < m.Length1 ==> m[i, c] == Pow(f, exp[i], c)
    {
      for c := 0 to m.Length1
        invariant forall i, j :: 0 <= i < from && 0 <= j < m.Length1 ==> m[i, j] == old(m[i, j])
        invariant forall i, j :: from <= i < r && 0 <= j < m.Length1 ==> m[i, j] == Pow(f, exp[i], j)
        invariant forall j :: 0 <= j < c ==> m[r, j] == Pow(f, exp[r], j)
      {
        ExpProduct(f, exp, r, c);
        m[r, c] := exp[(r * c) % 255];
      }
    }
  }

  /** The product of row `row` with column `col`: the value of the column's polynomial at point `row`. */
  method RowTimesColumn(f: Field, m: array2<byte>, row: nat, col: nat, x: byte, ghost p: Poly) returns (acc: byte)
    requires f.Lawful() && m.Length1 <= row < m.Length0 && col < m.Length1
    requires |p| == m.Length1 && forall i :: 0 <= i < |p| ==> m[i, col] == p[i]
    requires forall i :: 0 <= i < m.Length1 ==> m[row, i] == Pow(f, x, i)
    ensures acc == Eval(f, p, x)
  {
    hide Add, Pow, Eval, Field.Lawful;
    acc := 0;
    for i := 0 to m.Length1
      invariant acc == PowerSum(f, p[..i], x)
    {
      assert p[..i + 1][..i] == p[..i];
      MulComm(f, m[row, i], m[i, col]);
      acc := Add(acc, f.mul(m[row, i], m[i, col]));
    }
    assert p[..|p|] == p;
    PowerSumIsEval(f, p, x);
  }

  /** Entry (r, j) of the encoding matrix is the value of Lagrange polynomial j at point r. */
  ghost predicate IsEncMatrix(f: Field, exp: seq<byte>, required: nat, total: nat, m: array2<byte>)
    reads m
    requires |exp| == 510
  {
    && 0 < required < total <= 256 && m.Length0 == total && m.Length1 == required
    && (forall i, j :: 0 <= i < required && 0 <= j < required ==> m[i, j] == if i == j then 1 else 0)
    && forall r, j, p :: required <= r < total && 0 <= j < required && IsLagrange(f, Points(exp, required), j, p) ==>
         m[r, j] == Eval(f, p, exp[r])
  }

  lemma {:induction false} LagrangeUnique(f: Field, pts: seq<byte>, j: nat, p: Poly, q: Poly)
    requires f.Lawful() && Distinct(pts) && IsLagrange(f, pts, j, p) && IsLagrange(f, pts, j, q)
    ensures p == q
  {
    hide Eval, Field.Lawful;
    Interpolation(f, p, q, pts);
  }

  /** Row `row` of the encoding matrix: the value of each basis polynomial at x. */
  method FillRow(f: Field, m: array2<byte>, enc: array2<byte>, row: nat, x: byte, ghost basis: seq<Poly>)
    requires f.Lawful() && enc != m && m.Length0 == enc.Length0 && m.Length1 == enc.Length1 <= row < m.Length0
    requires |basis| == m.Length1 && forall j :: 0 <= j < |basis| ==> |basis[j]| == |basis|
    requires forall i, j :: 0 <= i < |basis| && 0 <= j < |basis| ==> m[i, j] == basis[j][i]
    requires forall j :: 0 <= j < |basis| ==> m[row, j] == Pow(f, x, j)
    modifies enc
    ensures forall j :: 0 <= j < |basis| ==> enc[row, j] == Eval(f, basis[j], x)
    ensures forall i, j :: 0 <= i < enc.Length0 && i != row && 0 <= j < enc.Length1 ==> enc[i, j] == old(enc[i, j])
  {
    hide Add, Pow, Eval, Field.Lawful;
    for col := 0 to m.Length1
      invariant forall j :: 0 <= j < col ==> enc[row, j] == Eval(f, basis[j], x)
      invariant forall i, j :: 0 <= i < enc.Length0 && i != row && 0 <= j < enc.Length1 ==> enc[i, j] == old(enc[i, j])
    {
      var acc := RowTimesColumn(f, m, row, col, x, basis[col]);
      enc[row, col] := acc;
    }
  }

  method EncodingMatrix(f: Field, exp: seq<byte>, required: nat, total: nat) returns (enc: array2<byte>)
    requires f.Lawful() && IsExpTable(f, exp) && 0 < required < total <= 256
    ensures fresh(enc) && IsEncMatrix(f, exp, required, total, enc)
  {
    hide Add, Pow, Eval, Field.Lawful, IsExpTable, IsLagrange;
    ghost var pts := Points(exp, required);
    PointsDistinct(f, exp, required);
    var m := new byte[total, required];
    CreateInvertedVdm(f, exp, m, required);
    ghost var basis := seq(required, j requires 0 <= j < required reads m => Column(m, required, j));
    FillPowers(f, exp, m, required);
    assert forall i, j :: 0 <= i < required && 0 <= j < required ==> m[i, j] == basis[j][i];
    enc := new byte[total, required]((i, j) => if i == j then 1 else 0);
    for row := required to total
      invariant forall i, j :: 0 <= i < required && 0 <= j < required ==> enc[i, j] == if i == j then 1 else 0
      invariant forall r, j :: required <= r < row && 0 <= j < required ==> enc[r, j] == Eval(f, basis[j], exp[r])
      invariant forall i, j :: 0 <= i < required && 0 <= j < required ==> m[i, j] == basis[j][i]
      invariant forall r, j :: required <= r < total && 0 <= j < required ==> m[r, j] == Pow(f, exp[r], j)
    {
      FillRow(f, m, enc, row, exp[row], basis);
    }
    forall r, j, p | required <= r < total && 0 <= j < required && IsLagrange(f, pts, j, p)
      ensures enc[r, j] == Eval(f, p, exp[r])
    {
      LagrangeUnique(f, pts, j, p, basis[j]);
    }
  }

  /** Row i is, but for the factor g^i, the values of X^i at all points: a matrix whose rows span the
      codewords. */
  ghost predicate IsVandMatrix(f: Field, exp: seq<byte>, required: nat, total: nat, m: array2<byte>)
    reads m
    requires |exp| == 510 && required <= total <= 256
  {
    && m.Length0 == required && m.Length1 == total
    && forall i, c :: 0 <= i < required && 0 <= c < total ==> f.mul(exp[i], m[i, c]) == Pow(f, Points(exp, total)[c], i)
  }

  lemma {:induction false} VandEntry(f: Field, exp: seq<byte>, i: nat, c: nat, a: byte)
    requires f.Lawful() && IsExpTable(f, exp) && i < 256 && c < 256
    requires a == if c == 0 then (if i == 0 then 1 else 0) else Pow(f, exp[i], c - 1)
    ensures f.mul(exp[i], a) == Pow(f, Points(exp, c + 1)[c], i)
  {
    hide Field.Lawful;
    if c == 0 {
      MulOne(f, exp[0]);
      MulZero(f, exp[i]);
      MulZero(f, Pow(f, 0, if i == 0 then 0 else i - 1));
    } else {
      PowSwap(f, exp[1], i, c);
    }
  }

  /** (x^i)^c == (x^c)^i */
  lemma {:induction false} PowSwap(f: Field, x: byte, i: nat, c: nat)
    requires f.Lawful()
    ensures Pow(f, Pow(f, x, i), c) == Pow(f, Pow(f, x, c), i)
  {
    hide Field.Lawful, Pow;
    PowMul(f, x, i, c);
    PowMul(f, x, c, i);
    assert i * c == c * i;
  }

  /** The matrix for error correction, by running powers. */
  method VandermondeMatrix(f: Field, exp: seq<byte>, required: nat, total: nat) returns (m: array2<byte>)
    requires f.Lawful() && IsExpTable(f, exp) && 0 < required < total <= 256
    ensures fresh(m) && IsVandMatrix(f, exp, required, total, m)
  {
    hide Pow, IsExpTable, Field.Lawful;
    m := new byte[required, total]((i, c) => 0);
    m[0, 0] := 1;
    var g: byte := 1;
    ExpStart(f, exp);
    for i := 0 to required
      invariant g == exp[i]
      invariant forall j :: 0 <= j < required ==> m[j, 0] == if j == 0 then 1 else 0
      invariant forall j, c :: 0 <= j < i && 1 <= c < total ==> m[j, c] == Pow(f, exp[j], c - 1)
    {
      var a: byte := 1;
      PowStart(f, exp[i]);
      for c := 1 to total
        invariant a == Pow(f, exp[i], c - 1)
        invariant forall j :: 0 <= j < required ==> m[j, 0] == if j == 0 then 1 else 0
        invariant forall j, k :: 0 <= j < i && 1 <= k < total ==> m[j, k] == Pow(f, exp[j], k - 1)
        invariant forall k :: 1 <= k < c ==> m[i, k] == Pow(f, exp[i], k - 1)
      {
        m[i, c] := a;
        PowNext(f, exp[i], c - 1);
        a := f.mul(g, a);
      }
      ExpNext(f, exp, i);
      g := f.mul(exp[1], g);
    }
    forall i, c | 0 <= i < required && 0 <= c < total
      ensures f.mul(exp[i], m[i, c]) == Pow(f, Points(exp, total)[c], i)
    {
      VandEntry(f, exp, i, c, m[i, c]);
    }
  }

  lemma {:induction false} PowStart(f: Field, x: byte)
    ensures Pow(f, x, 0) == 1
  {
  }

  lemma {:induction false} PowNext(f: Field, x: byte, n: nat)
    ensures Pow(f, x, n + 1) == f.mul(x, Pow(f, x, n))
  {
  }

  lemma {:induction false} ExpStart(f: Field, exp: seq<byte>)
    requires IsExpTable(f, exp)
    ensures exp[0] == 1
  {
  }

  lemma {:induction false} ExpNext(f: Field, exp: seq<byte>, i: nat)
    requires IsExpTable(f, exp) && i < 509
    ensures exp[i + 1] == f.mul(exp[1], exp[i])
  {
    assert exp[i + 1] == Pow(f, exp[1], i + 1);
  }

  // ---------------------------------------------------------------- encoding

  /** Block j of the data. */
  function Chunk(data: seq<byte>, size: nat, j: nat): (c: seq<byte>)
    requires j * size + size <= |data|
    ensures |c| == size
  {
    ProductNonNegative(j, size);
    data[j * size..j * size + size]
  }

  ghost predicate Blocks(data: seq<byte>, size: nat, count: nat) { |data| == count * size }

  lemma {:induction false} ChunkFits(size: nat, j: nat, count: nat)
    requires j < count
    ensures 0 <= j * size && j * size + size <= count * size
  {
    ProductNonNegative(j, size);
    MulStep(size, j, count);
  }

  /** Byte s of the first n blocks. */
  ghost function DataColumn(data: seq<byte>, size: nat, count: nat, s: nat, n: nat): (d: seq<byte>)
    requires Blocks(data, size, count) && n <= count && s < size
    ensures |d| == n
  {
    if n == 0 then []
    else
      ChunkFits(size, n - 1, count);
      DataColumn(data, size, count, s, n - 1) + [Chunk(data, size, n - 1)[s]]
  }

  lemma {:induction false} DataColumnAt(data: seq<byte>, size: nat, count: nat, s: nat, n: nat, j: nat)
    requires Blocks(data, size, count) && j < n <= count && s < size
    ensures 0 <= j * size && j * size + size <= |data| && DataColumn(data, size, count, s, n)[j] == data[j * size + s]
  {
    ChunkFits(size, j, count);
    if j < n - 1 { DataColumnAt(data, size, count, s, n - 1, j); }
  }

  /** A parity block after the first n data blocks were added in. */
  ghost function ParityBlock(f: Field, row: seq<byte>, data: seq<byte>, size: nat, n: nat): (b: seq<byte>)
    requires Blocks(data, size, |row|) && n <= |row|
    ensures |b| == size
    ensures forall s :: 0 <= s < size ==> b[s] == Dot(f, row[..n], DataColumn(data, size, |row|, s, n))
  {
    seq(size, s requires 0 <= s < size => Dot(f, row[..n], DataColumn(data, size, |row|, s, n)))
  }

  /** Adding one more block. */
  lemma {:induction false} ParityStep(f: Field, row: seq<byte>, data: seq<byte>, size: nat, n: nat, s: nat)
    requires Blocks(data, size, |row|) && n < |row| && s < size
    ensures n * size + size <= |data|
    ensures ParityBlock(f, row, data, size, n + 1)[s]
            == Add(ParityBlock(f, row, data, size, n)[s], f.mul(row[n], Chunk(data, size, n)[s]))
  {
    hide Add;
    ChunkFits(size, n, |row|);
    var u, d := row[..n + 1], DataColumn(data, size, |row|, s, n + 1);
    assert u[..n] == row[..n];
    assert d[..n] == DataColumn(data, size, |row|, s, n);
  }

  /** `out ^= c * input`, on the segment of `out` from `at`. */
  method MulSliceXor(f: Field, c: byte, input: seq<byte>, out: array<byte>, at: nat)
    requires at + |input| <= out.Length
    modifies out
    ensures forall i :: 0 <= i < out.Length ==>
              out[i] == if at <= i < at + |input| then Add(old(out[i]), f.mul(c, input[i - at])) else old(out[i])
  {
    hide Add;
    for s := 0 to |input|
      invariant forall i :: 0 <= i < out.Length ==>
                  out[i] == if at <= i < at + s then Add(old(out[i]), f.mul(c, input[i - at])) else old(out[i])
    {
      out[at + s] := Add(out[at + s], f.mul(c, input[s]));
    }
  }

  /** Adds all data blocks, scaled by a matrix row, into the zeroed parity block at `at`. */
  method EncodeBlock(f: Field, m: array2<byte>, r: nat, data: seq<byte>, size: nat, parity: array<byte>, at: nat)
    requires r < m.Length0 && Blocks(data, size, m.Length1) && at + size <= parity.Length
    requires forall i :: at <= i < at + size ==> parity[i] == 0
    modifies parity
    ensures parity[at..at + size] == ParityBlock(f, Row(m, r), data, size, m.Length1)
    ensures forall i :: 0 <= i < parity.Length && !(at <= i < at + size) ==> parity[i] == old(parity[i])
  {
    hide Add, Dot, DataColumn, Blocks, Chunk;
    ghost var row := Row(m, r);
    StartBlock(f, row, data, size);
    assert parity[at..at + size] == ParityBlock(f, row, data, size, 0);
    for j := 0 to m.Length1
      invariant parity[at..at + size] == ParityBlock(f, row, data, size, j)
      invariant forall i :: 0 <= i < parity.Length && !(at <= i < at + size) ==> parity[i] == old(parity[i])
    {
      BlockFits(data, size, j, m.Length1);
      ghost var was := parity[at..at + size];
      MulSliceXor(f, m[r, j], Chunk(data, size, j), parity, at);
      ghost var now, next := parity[at..at + size], ParityBlock(f, row, data, size, j + 1);
      forall s | 0 <= s < size
        ensures now[s] == next[s]
      {
        ParityStep(f, row, data, size, j, s);
        assert was[s] == ParityBlock(f, row, data, size, j)[s];
      }
    }
  }

  lemma {:induction false} StartBlock(f: Field, row: seq<byte>, data: seq<byte>, size: nat)
    requires Blocks(data, size, |row|)
    ensures forall s :: 0 <= s < size ==> ParityBlock(f, row, data, size, 0)[s] == 0
  {
  }

  lemma {:induction false} BlockFits(data: seq<byte>, size: nat, j: nat, count: nat)
    requires Blocks(data, size, count) && j < count
    ensures 0 <= j * size && j * size + size <= |data|
  {
    ChunkFits(size, j, count);
  }

  function BlockSize(n: nat, required: nat): nat
    requires 0 < required
  {
    n / required
  }

  ghost predicate WholeBlocks(n: nat, required: nat)
    requires 0 < required
  {
    n % required == 0
  }

  lemma {:induction false} WholeIffProduct(n: nat, required: nat)
    requires 0 < required
    ensures WholeBlocks(n, required) <==> required * BlockSize(n, required) == n
    ensures n == 0 ==> BlockSize(n, required) == 0
    ensures required * BlockSize(n, required) == n && 0 < n ==> 0 < BlockSize(n, required)
  {
    if n == 0 {
      ModUnique(0, required, 0, 0);
    }
  }

  class Fec {
    const f: Field
    ghost const exp: seq<byte>
    const required: nat
    const total: nat
    const encMatrix: array2<byte>
    const vandMatrix: array2<byte>

    ghost predicate Valid()
      reads encMatrix
    {
      f.Lawful() && IsExpTable(f, exp) && IsEncMatrix(f, exp, required, total, encMatrix)
    }

    constructor (f: Field, exp: seq<byte>, required: nat, total: nat)
      requires f.Lawful() && IsExpTable(f, exp) && 0 < required < total <= 256
      ensures Valid() && fresh(encMatrix)
      ensures fresh(vandMatrix) && IsVandMatrix(f, exp, required, total, vandMatrix)
      ensures this.f == f && this.exp == exp && this.required == required && this.total == total
    {
      this.f, this.exp, this.required, this.total := f, exp, required, total;
      var m := EncodingMatrix(f, exp, required, total);
      var v := VandermondeMatrix(f, exp, required, total);
      this.encMatrix, this.vandMatrix := m, v;
    }

    /** Every parity block in order, for the blocks from `required` up to r. */
    ghost function ParityBytes(data: seq<byte>, size: nat, r: nat): (p: seq<byte>)
      reads encMatrix
      requires Valid() && Blocks(data, size, required) && required <= r <= total
      ensures |p| == (r - required) * size
      decreases r
    {
      if r == required then []
      else
        assert (r - required) * size == (r - 1 - required) * size + size;
        ParityBytes(data, size, r - 1) + ParityBlock(f, Row(encMatrix, r - 1), data, size, required)
    }

    method EncodeBlocks(data: seq<byte>, size: nat, parity: array<byte>)
      requires Valid() && Blocks(data, size, required) && parity.Length == (total - required) * size
      requires forall i :: 0 <= i < parity.Length ==> parity[i] == 0
      modifies parity
      ensures parity[..] == ParityBytes(data, size, total)
    {
      hide Blocks, IsExpTable, IsEncMatrix, Field.Lawful, ParityBytes, ParityBlock;
      var at: nat := 0;
      EncMatrixShape(f, exp, required, total, encMatrix);
      ParityStart(data, size);
      for r := required to total
        invariant at == |ParityBytes(data, size, r)| <= parity.Length
        invariant parity[..at] == ParityBytes(data, size, r)
        invariant forall i :: at <= i < parity.Length ==> parity[i] == 0
      {
        ParityGrows(data, size, r);
        ghost var done := parity[..at];
        EncodeBlock(f, encMatrix, r, data, size, parity, at);
        assert parity[..at] == done;
        assert parity[..at + size] == parity[..at] + parity[at..at + size];
        at := at + size;
      }
      assert parity[..at] == parity[..];
    }

    lemma {:induction false} ParityStart(data: seq<byte>, size: nat)
      requires Valid() && Blocks(data, size, required)
      ensures ParityBytes(data, size, required) == []
    {
    }

    lemma {:induction false} ParityGrows(data: seq<byte>, size: nat, r: nat)
      requires Valid() && Blocks(data, size, required) && required <= r < total
      ensures ParityBytes(data, size, r + 1) ==
                ParityBytes(data, size, r) + ParityBlock(f, Row(encMatrix, r), data, size, required)
      ensures |ParityBytes(data, size, r)| + size <= (total - required) * size
    {
      ChunkFits(size, r - required, total - required);
    }

    method Encode(data: seq<byte>, parity: array<byte>) returns (result: EncodeResult)
      requires Valid()
      modifies parity
      ensures result == InvalidDataLength <==> !WholeBlocks(|data|, required)
      ensures result == InvalidParityLength <==>
                WholeBlocks(|data|, required) && parity.Length != (total - required) * BlockSize(|data|, required)
      ensures result == PanicZeroBlock <==> |data| == 0 && parity.Length == 0
      ensures result != Encoded ==> parity[..] == old(parity[..])
      ensures result == Encoded ==>
                && Blocks(data, BlockSize(|data|, required), required)
                && parity[..] == ParityBytes(data, BlockSize(|data|, required), total)
    {
      hide WholeBlocks, BlockSize, IsExpTable, Field.Lawful;
      var size := BlockSize(|data|, required);
      WholeIffProduct(|data|, required);
      if required * size != |data| {
        return InvalidDataLength;
      }
      if (total - required) * size != parity.Length {
        return InvalidParityLength;
      }
      if size == 0 {
        return PanicZeroBlock;
      }
      for i := 0 to parity.Length
        invariant forall j :: 0 <= j < i ==> parity[j] == 0
      {
        parity[i] := 0;
      }
      EncodeBlocks(data, size, parity);
      return Encoded;
    }

    /** The shares of byte column s: the data bytes, then one byte of every parity block. */
    ghost function SharesOf(data: seq<byte>, size: nat, s: nat): (shares: seq<byte>)
      reads encMatrix
      requires Valid() && Blocks(data, size, required) && s < size
      ensures |shares| == total
      ensures forall j :: 0 <= j < required ==> shares[j] == DataColumn(data, size, required, s, required)[j]
      ensures forall r :: required <= r < total ==> shares[r] == ParityBlock(f, Row(encMatrix, r), data, size, required)[s]
    {
      var d := DataColumn(data, size, required, s, required);
      seq(total, r requires 0 <= r < total reads encMatrix =>
        if r < required then d[r] else ParityBlock(f, Row(encMatrix, r), data, size, required)[s])
    }

    /** Every byte column of the encoded blocks is a codeword: parity byte r is the value at point r of
        the polynomial that takes the data values at the data points. */
    lemma {:induction false} ParityIsCodeword(data: seq<byte>, size: nat, s: nat)
      requires Valid() && Blocks(data, size, required) && s < size
      ensures IsCodeword(f, exp, required, DataColumn(data, size, required, s, required), SharesOf(data, size, s))
    {
      hide Add, Dot, Eval, DataColumn, Blocks, IsExpTable, Field.Lawful;
      var pts, d, shares := Points(exp, required), DataColumn(data, size, required, s, required), SharesOf(data, size, s);
      PointsDistinct(f, exp, required);
      var basis := BasisExists(f, pts);
      forall p, r | IsInterpolant(f, pts, d, p) && required <= r < total
        ensures shares[r] == Eval(f, p, exp[r])
      {
        InterpolantValue(f, pts, basis, d, p, exp[r]);
        assert Row(encMatrix, r)[..required] == Values(f, basis, exp[r]);
      }
    }

    /** Where each parity byte lies and what it is: byte s of parity block r is the value at the r-th point of the polynomial that
        takes, at the points of the data blocks, their bytes s. */
    lemma {:induction false} ParityAt(data: seq<byte>, size: nat, r: nat, s: nat, p: Poly)
      requires Valid() && Blocks(data, size, required) && s < size && 0 < required <= r < total && |p| == required
      requires forall j :: 0 <= j < required ==>
                 0 <= j * size + s < |data| && Eval(f, p, if j == 0 then 0 else exp[j]) == data[j * size + s]
      ensures var at := (r - required) * size + s;
              0 <= at < |ParityBytes(data, size, total)| && ParityBytes(data, size, total)[at] == Eval(f, p, exp[r])
    {
      hide Dot, Eval, DataColumn, Blocks, IsExpTable, IsEncMatrix, Field.Lawful, ParityBytes, ParityBlock;
      var d := DataColumn(data, size, required, s, required);
      forall j | 0 <= j < required ensures d[j] == data[j * size + s] {
        DataColumnAt(data, size, required, s, required, j);
      }
      EncMatrixShape(f, exp, required, total, encMatrix);
      assert IsInterpolant(f, Points(exp, required), d, p);
      ParityIsCodeword(data, size, s);
      ParityBytesAt(data, size, total, r, s);
    }

    lemma {:induction false} ParityBytesAt(data: seq<byte>, size: nat, upTo: nat, r: nat, s: nat)
      requires Valid() && Blocks(data, size, required) && s < size && required <= r < upTo <= total
      ensures var at := (r - required) * size + s;
              && 0 <= at < |ParityBytes(data, size, upTo)|
              && ParityBytes(data, size, upTo)[at] == ParityBlock(f, Row(encMatrix, r), data, size, required)[s]
    {
      hide Dot, DataColumn, IsExpTable, IsEncMatrix, Field.Lawful, ParityBlock;
      ChunkFits(size, r - required, upTo - required);
      ParityGrows(data, size, upTo - 1);
      if r < upTo - 1 {
        ParityBytesAt(data, size, upTo - 1, r, s);
      }
      hide ParityBytes;
    }

    /** Two data vectors whose shares agree at `required` distinct places, in byte column s, have the
        same column s: any `required` shares determine the data. */
    lemma {:induction false} AnySharesDetermineData(data: seq<byte>, other: seq<byte>, size: nat, s: nat, places: seq<nat>)
      requires Valid() && Blocks(data, size, required) && Blocks(other, size, required) && s < size
      requires |places| == required && forall i, j :: 0 <= i < j < |places| ==> places[i] != places[j]
      requires forall i :: 0 <= i < |places| ==>
                 places[i] < total && SharesOf(data, size, s)[places[i]] == SharesOf(other, size, s)[places[i]]
      ensures DataColumn(data, size, required, s, required) == DataColumn(other, size, required, s, required)
    {
      hide Dot, Eval, DataColumn, Blocks, IsCodeword, IsExpTable, Field.Lawful;
      ParityIsCodeword(data, size, s);
      ParityIsCodeword(other, size, s);
      SharesDetermineData(f, exp, required, DataColumn(data, size, required, s, required),
                          DataColumn(other, size, required, s, required),
                          SharesOf(data, size, s), SharesOf(other, size, s), places);
    }

    /** The same for whole blocks: when all columns agree at those places, the data is the same. */
    lemma {:induction false} AnySharesDetermineBlocks(data: seq<byte>, other: seq<byte>, size: nat, places: seq<nat>)
      requires Valid() && Blocks(data, size, required) && Blocks(other, size, required)
      requires |places| == required && forall i, j :: 0 <= i < j < |places| ==> places[i] != places[j]
      requires forall i :: 0 <= i < |places| ==> places[i] < total
      requires forall s: nat, i :: s < size && 0 <= i < |places| ==>
                 SharesOf(data, size, s)[places[i]] == SharesOf(other, size, s)[places[i]]
      ensures data == other
    {
      hide DataColumn, IsExpTable, IsEncMatrix, Field.Lawful, SharesOf;
      forall s: nat | s < size
        ensures DataColumn(data, size, required, s, required) == DataColumn(other, size, required, s, required)
      {
        AnySharesDetermineData(data, other, size, s, places);
      }
      ColumnsDetermineData(data, other, size, required);
    }
  }

  lemma {:induction false} ColumnAt(data: seq<byte>, size: nat, count: nat, s: nat, n: nat, j: nat)
    requires Blocks(data, size, count) && j < n <= count && s < size
    ensures 0 <= j * size && j * size + s < |data|
    ensures DataColumn(data, size, count, s, n)[j] == data[j * size + s]
  {
    ChunkFits(size, j, count);
    if j == n - 1 {
    } else {
      ColumnAt(data, size, count, s, n - 1, j);
    }
  }

  /** The blocks are the columns read across. */
  lemma {:induction false} ColumnsDetermineData(data: seq<byte>, other: seq<byte>, size: nat, count: nat)
    requires Blocks(data, size, count) && Blocks(other, size, count)
    requires forall s: nat :: s < size ==> DataColumn(data, size, count, s, count) == DataColumn(other, size, count, s, count)
    ensures data == other
  {
    hide DataColumn;
    forall i | 0 <= i < |data| ensures data[i] == other[i] {
      var j, s := PlaceOf(i, size, count);
      ColumnAt(data, size, count, s, count, j);
      ColumnAt(other, size, count, s, count, j);
    }
  }

  lemma {:induction false} PlaceOf(i: nat, size: nat, count: nat) returns (j: nat, s: nat)
    requires i < count * size
    ensures j < count && s < size && i == j * size + s
    decreases count
  {
    if i < (count - 1) * size {
      j, s := PlaceOf(i, size, count - 1);
    } else {
      j, s := count - 1, i - (count - 1) * size;
    }
  }

  lemma {:induction false} EncMatrixShape(f: Field, exp: seq<byte>, required: nat, total: nat, m: array2<byte>)
    requires IsExpTable(f, exp) && IsEncMatrix(f, exp, required, total, m)
    ensures 0 < required < total <= 256 && m.Length0 == total && m.Length1 == required
  {
  }
}
