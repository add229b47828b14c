/** Facts about multiplication, division and remainder that the solver does not find alone. */
module Arithmetic {

  function Min(a: nat, b: nat): (m: nat)
    ensures m <= a && m <= b && (m == a || m == b)
  {
    if a < b then a else b
  }

  lemma {:induction false} MulStep(p: nat, a: nat, b: nat)
    ensures a < b ==> p * a + p <= p * b
  {
    if a < b {
      var d := b - a - 1;
      ProductNonNegative(p, d);
      assert p * b == p * (a + 1 + d);
    }
  }

  lemma {:induction false} ModUnique(d: nat, m: nat, k: nat, r: nat)
    requires r < m && d == m * k + r
    ensures d % m == r && d / m == k
  {
    assert m * (d / m) + d % m == m * k + r;
    MulStep(m, d / m, k);
    MulStep(m, k, d / m);
  }

  lemma {:induction false} ProductNonNegative(a: nat, b: nat)
    ensures 0 <= a * b
  {
  }

  /** Two multiples of w that differ are at least w apart, and their difference is one too. */
  lemma {:induction false} Multiples(w: nat, a: nat, b: nat)
    requires 0 < w && a % w == 0 && b % w == 0 && a <= b
    ensures a == b || a + w <= b
    ensures (b - a) % w == 0
  {
    var i, j := a / w, b / w;
    assert a == w * i && b == w * j;
    MulStep(w, i, j);
    MulStep(w, j, i);
    if i <= j {
      assert b - a == w * (j - i);
      ModUnique(b - a, w, j - i, 0);
    }
  }
}
