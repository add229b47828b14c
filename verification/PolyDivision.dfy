/** Polynomials in fixed buffers of 256 coefficients, and their division with remainder. */
module PolyDivision {
  import opened Wrappers
  import opened Field

  const CAPACITY := 256

  /** A buffer and the number of coefficients in use. */
  datatype PolyBuf = PolyBuf(data: seq<byte>, len: nat)

  ghost predicate IsBuf(p: PolyBuf) { |p.data| == CAPACITY && p.len <= CAPACITY }

  function Slice(p: PolyBuf): Poly
    requires p.len <= |p.data|
  {
    p.data[..p.len]
  }

  /** The coefficients a division works with: at least one, whatever the length says. */
  function Coefs(p: PolyBuf): (c: Poly)
    requires p.len <= |p.data| && 0 < |p.data|
    ensures c != []
  {
    p.data[..if p.len == 0 then 1 else p.len]
  }

  /** Without its trailing zeros, but at least one coefficient. */
  ghost function Trimmed(p: Poly): (t: Poly)
    requires p != []
    ensures 1 <= |t| <= |p| && t == p[..|t|]
    ensures |t| > 1 ==> t[|t| - 1] != 0
  {
    if |p| > 1 && p[|p| - 1] == 0 then Trimmed(p[..|p| - 1]) else p
  }

  lemma {:induction false} DropTopZero(f: Field, p: Poly, x: byte)
    requires f.Lawful() && p != [] && p[|p| - 1] == 0
    ensures Eval(f, p[..|p| - 1], x) == Eval(f, p, x)
  {
    hide Add, Eval, Pow, Field.Lawful;
    var init := p[..|p| - 1];
    EvalSnoc(f, init, 0, x);
    assert p == init + [0];
    MulZero(f, Pow(f, x, |init|));
    AddZero(Eval(f, init, x));
  }

  method Sanitize(p: PolyBuf) returns (r: PolyBuf)
    requires IsBuf(p)
    ensures IsBuf(r) && r.data == p.data && 1 <= r.len
    ensures Slice(r) == Trimmed(Coefs(p))
  {
    hide Trimmed;
    var len := p.len;
    while len > 0 && p.data[len - 1] == 0
      invariant 0 <= len <= p.len
      invariant Trimmed(p.data[..if len == 0 then 1 else len]) == Trimmed(Coefs(p))
    {
      TrimmedStep(p.data, len);
      len := len - 1;
    }
    r := p.(len := if len == 0 then 1 else len);
    TrimmedStep(p.data, r.len);
  }

  lemma {:induction false} TrimmedStep(data: seq<byte>, len: nat)
    requires 1 <= len <= |data|
    ensures Trimmed(data[..len]) == if len > 1 && data[len - 1] == 0 then Trimmed(data[..len - 1]) else data[..len]
  {
    assert len > 1 ==> data[..len][..len - 1] == data[..len - 1];
  }

  // -------------------------------------------------------------- operations

  /** Appends a coefficient, or fails when the buffer is full. */
  function Push(p: PolyBuf, x: byte): (r: Option<PolyBuf>)
    requires IsBuf(p)
    ensures r.None? <==> p.len == CAPACITY
    ensures r.Some? ==> IsBuf(r.value) && Slice(r.value) == Slice(p) + [x]
  {
    if p.len < |p.data| then Some(PolyBuf(p.data[p.len := x], p.len + 1)) else None
  }

  /** The buffer of a sequence of at most 256 coefficients. */
  function FromSeq(s: Poly): (r: PolyBuf)
    requires |s| <= CAPACITY
    ensures IsBuf(r) && Slice(r) == s
  {
    PolyBuf(s + seq(CAPACITY - |s|, _ => 0), |s|)
  }

  /** Adds the overlapping coefficients. */
  function AddTo(p: PolyBuf, q: Poly): (r: PolyBuf)
    requires IsBuf(p) && |q| == p.len
    ensures IsBuf(r) && r.len == p.len && Slice(r) == PolyAdd(Slice(p), q)
  {
    var sum := seq(p.len, i requires 0 <= i < p.len => Add(p.data[i], q[i]));
    PolyBuf(sum + p.data[p.len..], p.len)
  }

  ghost function Zeros(n: nat): (z: Poly)
    ensures |z| == n && Zero(z)
  {
    seq(n, _ => 0)
  }

  // ------------------------------------------------------------ coefficients

  /** A coefficient, zero beyond the stored ones. */
  ghost function Coef(p: Poly, n: nat): byte { if n < |p| then p[n] else 0 }

  /** Coefficient n of the product: the sum of q[i] b[n - i]. */
  ghost function Product(f: Field, q: Poly, b: Poly, n: nat): byte
    decreases |q|
  {
    if q == [] then 0
    else Add(f.mul(q[0], Coef(b, n)), if n == 0 then 0 else Product(f, q[1..], b, n - 1))
  }

  lemma {:induction false} ProductStep(f: Field, c: byte, q: Poly, b: Poly, n: nat)
    ensures Product(f, [c] + q, b, n) == Add(f.mul(c, Coef(b, n)), if n == 0 then 0 else Product(f, q, b, n - 1))
  {
    hide Add;
    assert ([c] + q)[1..] == q;
  }

  lemma {:induction false} ProductOfZero(f: Field, q: Poly, b: Poly, n: nat)
    requires f.Lawful() && Zero(q)
    ensures Product(f, q, b, n) == 0
    decreases |q|
  {
    hide Add, Field.Lawful;
    if q == [] {
    } else {
      MulZero(f, Coef(b, n));
      AddZero(0);
      if n != 0 { ProductOfZero(f, q[1..], b, n - 1); }
    }
  }

  lemma {:induction false} CoefTrimmed(p: Poly, n: nat)
    requires p != []
    ensures Coef(Trimmed(p), n) == Coef(p, n)
  {
    if |p| == 1 || p[|p| - 1] != 0 {
    } else {
      CoefTrimmed(p[..|p| - 1], n);
    }
  }

  /** The product depends on the coefficients alone, not on how many are stored. */
  lemma {:induction false} ProductSame(f: Field, q: Poly, q': Poly, b: Poly, b': Poly, n: nat)
    requires f.Lawful()
    requires (forall i: nat :: Coef(q, i) == Coef(q', i)) && (forall i: nat :: Coef(b, i) == Coef(b', i))
    ensures Product(f, q, b, n) == Product(f, q', b', n)
    decreases |q|
  {
    hide Add, Field.Lawful;
    assert Coef(b, n) == Coef(b', n);
    if q == [] {
      forall i | 0 <= i < |q'| ensures q'[i] == 0 { assert Coef(q, i) == Coef(q', i); }
      ProductOfZero(f, q', b', n);
    } else if q' == [] {
      forall i | 0 <= i < |q| ensures q[i] == 0 { assert Coef(q, i) == Coef(q', i); }
      ProductOfZero(f, q, b, n);
    } else {
      assert Coef(q, 0) == Coef(q', 0);
      forall i: nat ensures Coef(q[1..], i) == Coef(q'[1..], i) {
        assert Coef(q, i + 1) == Coef(q', i + 1);
      }
      if n != 0 { ProductSame(f, q[1..], q'[1..], b, b', n - 1); }
    }
  }

  lemma {:induction false} ProductTrimmed(f: Field, q: Poly, b: Poly, n: nat)
    requires f.Lawful() && q != [] && b != []
    ensures Product(f, Trimmed(q), b, n) == Product(f, q, Trimmed(b), n)
  {
    hide Product, Trimmed, Field.Lawful;
    forall i: nat ensures Coef(Trimmed(q), i) == Coef(q, i) && Coef(b, i) == Coef(Trimmed(b), i) {
      CoefTrimmed(q, i);
      CoefTrimmed(b, i);
    }
    ProductSame(f, Trimmed(q), q, b, Trimmed(b), n);
  }

  // ---------------------------------------------------------------- division

  datatype DivResult = Divided(q: PolyBuf, r: PolyBuf) | DivisionByZero | Panicked

  /** Coefficient n of X^s q b. */
  ghost function ShiftedProduct(f: Field, s: nat, q: Poly, b: Poly, n: nat): byte {
    if n < s then 0 else Product(f, q, b, n - s)
  }

  /** a == X^s q b + p, coefficient by coefficient. */
  ghost predicate Splits(f: Field, a: Poly, s: nat, q: Poly, b: Poly, p: Poly) {
    forall n: nat :: Coef(a, n) == Add(ShiftedProduct(f, s, q, b, n), Coef(p, n))
  }

  /** The chosen multiple cancels the leading coefficient. */
  lemma {:induction false} LeadCancels(f: Field, lp: byte, lb: byte)
    requires f.Lawful() && lb != 0
    ensures Add(lp, f.mul(f.mul(lp, f.inv(lb)), lb)) == 0
  {
    hide *;
    MulAssoc(f, lp, f.inv(lb), lb);
    MulInv(f, lb);
    MulOne(f, lp);
    AddSelf(lp);
  }

  ghost function Reversed(s: Poly): (r: Poly)
    ensures |r| == |s|
  {
    if s == [] then [] else Reversed(s[1..]) + [s[0]]
  }

  lemma {:induction false} ReversedSnoc(s: Poly, c: byte)
    ensures Reversed(s + [c]) == [c] + Reversed(s)
  {
    if s == [] {
    } else {
      ReversedSnoc(s[1..], c);
      assert (s + [c])[1..] == s[1..] + [c];
    }
  }

  /** How many multiples of b are still to be subtracted from p. */
  ghost function Steps(p: nat, b: nat): nat {
    if b <= p then p + 1 - b else 0
  }

  lemma {:induction false} SplitStart(f: Field, a: Poly, s: nat, b: Poly)
    requires f.Lawful()
    ensures Splits(f, a, s, [0], b, a)
  {
    hide Add, Field.Lawful;
    forall n: nat ensures Coef(a, n) == Add(ShiftedProduct(f, s, [0], b, n), Coef(a, n)) {
      if s <= n { ProductOfZero(f, [0], b, n - s); }
      AddZero(Coef(a, n));
    }
  }

  /** The buffer after one round: the multiple added, the cancelled coefficient dropped. */
  lemma {:induction false} SplitStep(f: Field, a: Poly, s: nat, q: Poly, b: Poly, p: Poly, c: byte, p': Poly)
    requires f.Lawful() && b != [] && |p| == s + |b| && Splits(f, a, s + 1, q, b, p)
    requires b[|b| - 1] != 0 && c == f.mul(p[|p| - 1], f.inv(b[|b| - 1]))
    requires p' == PolyAdd(p, Zeros(s) + Scale(f, c, b))[..|p| - 1]
    ensures Splits(f, a, s, [c] + q, b, p')
  {
    hide Add, Field.Lawful, Product;
    var sum := PolyAdd(p, Zeros(s) + Scale(f, c, b));
    LeadCancels(f, p[|p| - 1], b[|b| - 1]);
    assert sum[|p| - 1] == 0;
    forall n: nat ensures Coef(a, n) == Add(ShiftedProduct(f, s, [c] + q, b, n), Coef(p', n)) {
      assert Coef(a, n) == Add(ShiftedProduct(f, s + 1, q, b, n), Coef(p, n));
      assert Coef(p', n) == Coef(sum, n);
      MulZero(f, c);
      AddZero(0);
      AddZero(Coef(p, n));
      if s <= n {
        ProductStep(f, c, q, b, n - s);
        var t := f.mul(c, Coef(b, n - s));
        assert Coef(sum, n) == Add(Coef(p, n), t);
        CancelShape(t, ShiftedProduct(f, s + 1, q, b, n), Coef(p, n));
      }
    }
  }

  lemma {:induction false} CancelShape(u: byte, v: byte, p: byte)
    ensures Add(v, p) == Add(Add(u, v), Add(p, u))
  {
  }

  /** What `div` promises of a quotient and a remainder: a = q b + r, coefficient by
      coefficient, and a remainder that is zero or shorter than the divisor's true length. */
  ghost predicate IsDivision(f: Field, a: Poly, b: Poly, q: Poly, r: Poly)
    requires b != []
  {
    && (Zero(r) || |r| < |Trimmed(b)|)
    && forall n: nat :: Coef(a, n) == Add(Product(f, q, b, n), Coef(r, n))
  }

  lemma {:induction false} SplitEnd(f: Field, a: Poly, a': Poly, q: Poly, b: Poly, b': Poly, p: Poly, r: Poly, q': Poly)
    requires f.Lawful() && Splits(f, a, 0, q, b, p) && |p| < |b|
    requires a' != [] && a == Trimmed(a') && b' != [] && b == Trimmed(b')
    requires q != [] && q' == Trimmed(q) && (if p == [] then r == [0] else r == Trimmed(p))
    ensures IsDivision(f, a', b', q', r)
  {
    hide Add, Field.Lawful, Product, Trimmed;
    forall n: nat ensures Coef(a', n) == Add(Product(f, q', b', n), Coef(r, n)) {
      assert Coef(a, n) == Add(ShiftedProduct(f, 0, q, b, n), Coef(p, n));
      CoefTrimmed(a', n);
      if p != [] { CoefTrimmed(p, n); }
      ProductTrimmed(f, q, b', n);
    }
  }

  /** One round: one more coefficient of the quotient, one less of the rest. */
  method DivideRound(f: Field, ghost a: Poly, b: PolyBuf, q: PolyBuf, p: PolyBuf) returns (q': PolyBuf, p': PolyBuf)
    requires f.Lawful() && IsBuf(b) && IsBuf(q) && IsBuf(p)
    requires 1 <= b.len <= p.len < CAPACITY && q.len < CAPACITY && b.data[b.len - 1] != 0
    requires Splits(f, a, p.len - b.len + 1, Reversed(Slice(q)), Slice(b), Slice(p))
    ensures IsBuf(q') && q'.len == q.len + 1 && IsBuf(p') && p'.len == p.len - 1 && p'.data[p'.len] == 0
    ensures Splits(f, a, p.len - b.len, Reversed(Slice(q')), Slice(b), Slice(p'))
  {
    hide Add, Field.Lawful, Splits, Reversed;
    var s := p.len - b.len;
    var coef := f.mul(p.data[p.len - 1], f.inv(b.data[b.len - 1]));
    ReversedSnoc(Slice(q), coef);
    q' := Push(q, coef).value;
    var padded := seq(s, _ => 0) + seq(b.len, i requires 0 <= i < b.len => f.mul(coef, b.data[i]));
    assert padded == Zeros(s) + Scale(f, coef, Slice(b));
    var sum := AddTo(p, padded);
    LeadCancels(f, p.data[p.len - 1], b.data[b.len - 1]);
    assert Slice(sum)[p.len - 1] == 0;
    p' := sum.(len := p.len - 1);
    assert Slice(p') == Slice(sum)[..p.len - 1];
    SplitStep(f, a, s, Reversed(Slice(q)), Slice(b), Slice(p), coef, Slice(p'));
  }

  /** The long division loop on sanitized operands. It reports a panic when a buffer of full length
      has to be popped. */
  method DivideLoop(f: Field, a: PolyBuf, b: PolyBuf) returns (q: PolyBuf, p: PolyBuf, panicked: bool)
    requires f.Lawful() && IsBuf(a) && IsBuf(b) && 1 <= a.len && 1 <= b.len && b.data[b.len - 1] != 0
    ensures panicked <==> a.len == CAPACITY
    ensures !panicked ==> IsBuf(q) && IsBuf(p) && 1 <= q.len && p.len < b.len && (p.len == 0 ==> p.data[0] == 0)
    ensures !panicked ==> Splits(f, Slice(a), 0, Reversed(Slice(q)), Slice(b), Slice(p))
  {
    hide Add, Field.Lawful, Splits;
    q, p, panicked := FromSeq([0]), a, false;
    SplitStart(f, Slice(a), Steps(a.len, b.len), Slice(b));
    assert Reversed([0]) == [0];
    while b.len <= p.len
      invariant IsBuf(q) && IsBuf(p) && p.len <= a.len && q.len == 1 + (a.len - p.len)
      invariant a.len == CAPACITY ==> p.len == CAPACITY
      invariant p.len == 0 ==> p.data[0] == 0
      invariant Splits(f, Slice(a), Steps(p.len, b.len), Reversed(Slice(q)), Slice(b), Slice(p))
      decreases p.len
    {
      if p.len == CAPACITY {
        panicked := true;
        return;
      }
      q, p := DivideRound(f, Slice(a), b, q, p);
    }
  }

  method ReverseSlice(q: PolyBuf) returns (r: PolyBuf)
    requires IsBuf(q)
    ensures IsBuf(r) && r.len == q.len && Slice(r) == Reversed(Slice(q))
  {
    var s: Poly := [];
    for i := q.len downto 0
      invariant s == Reversed(q.data[i..q.len])
    {
      s := s + [q.data[i]];
      assert q.data[i..q.len][1..] == q.data[i + 1..q.len];
    }
    assert q.data[0..q.len] == Slice(q);
    r := PolyBuf(s + q.data[q.len..], q.len);
  }

  /** Division with remainder, for every pair of buffers. */
  method Div(f: Field, a: PolyBuf, b: PolyBuf) returns (res: DivResult)
    requires f.Lawful() && IsBuf(a) && IsBuf(b)
    ensures res == DivisionByZero <==> Zero(Coefs(b))
    ensures res == Panicked <==> !Zero(Coefs(b)) && |Trimmed(Coefs(a))| == CAPACITY
    ensures res.Divided? ==> IsBuf(res.q) && IsBuf(res.r) && IsDivision(f, Coefs(a), Coefs(b), Slice(res.q), Slice(res.r))
  {
    hide Add, Field.Lawful, Splits, IsDivision;
    var p := Sanitize(a);
    var d := Sanitize(b);
    ZeroTrimmed(Coefs(b));
    if d.data[d.len - 1] == 0 {
      return DivisionByZero;
    }
    var q, r, panicked := DivideLoop(f, p, d);
    if panicked {
      return Panicked;
    }
    var reversed := ReverseSlice(q);
    var remainder := Sanitize(r);
    var quotient := Sanitize(reversed);
    SplitEnd(f, Slice(p), Coefs(a), Slice(reversed), Slice(d), Coefs(b), Slice(r), Slice(remainder), Slice(quotient));
    res := Divided(quotient, remainder);
  }

  lemma {:induction false} ZeroTrimmed(p: Poly)
    requires p != []
    ensures Zero(p) <==> Trimmed(p)[|Trimmed(p)| - 1] == 0
    ensures Zero(p) ==> |Trimmed(p)| == 1
  {
    if |p| == 1 || p[|p| - 1] != 0 {
    } else {
      ZeroTrimmed(p[..|p| - 1]);
      assert Zero(p) <==> Zero(p[..|p| - 1]);
    }
  }

  // -------------------------------------------------------------- uniqueness

  ghost function Padded(p: Poly, n: nat): (r: Poly)
    requires |p| <= n
    ensures |r| == n && forall i: nat :: Coef(r, i) == Coef(p, i)
  {
    p + Zeros(n - |p|)
  }

  lemma {:induction false} ProductAdd(f: Field, p: Poly, q: Poly, b: Poly, n: nat)
    requires f.Lawful() && |p| == |q|
    ensures Product(f, PolyAdd(p, q), b, n) == Add(Product(f, p, b, n), Product(f, q, b, n))
    decreases |p|
  {
    hide Add, Field.Lawful;
    AddZero(0);
    if p == [] {
    } else {
      var c := Coef(b, n);
      DistribRight(f, p[0], q[0], c);
      assert PolyAdd(p, q)[1..] == PolyAdd(p[1..], q[1..]);
      if n != 0 { ProductAdd(f, p[1..], q[1..], b, n - 1); }
      AddSwap(f.mul(p[0], c), f.mul(q[0], c),
              if n == 0 then 0 else Product(f, p[1..], b, n - 1), if n == 0 then 0 else Product(f, q[1..], b, n - 1));
    }
  }

  /** The leading coefficient of a product is the product of the leading coefficients. */
  lemma {:induction false} ProductTop(f: Field, d: Poly, b: Poly, m: nat)
    requires f.Lawful() && d != [] && forall i: nat :: m < i ==> Coef(b, i) == 0
    ensures Product(f, d, b, |d| - 1 + m) == f.mul(d[|d| - 1], Coef(b, m))
    decreases |d|
  {
    hide Add, Field.Lawful;
    var n: nat := |d| - 1 + m;
    if |d| == 1 {
      AddZero(f.mul(d[0], Coef(b, m)));
    } else {
      assert Coef(b, n) == 0;
      MulZero(f, d[0]);
      ProductTop(f, d[1..], b, m);
      AddZero(Product(f, d[1..], b, n - 1));
    }
  }

  /** Nothing but zero times b stays below b's leading coefficient. */
  lemma {:induction false} ShortMultipleIsZero(f: Field, d: Poly, b: Poly)
    requires f.Lawful() && d != [] && b != [] && !Zero(b)
    requires forall n: nat :: |Trimmed(b)| <= n + 1 ==> Product(f, d, b, n) == 0
    ensures Zero(d)
  {
    hide Add, Field.Lawful, Product, Trimmed;
    var t, m: nat := Trimmed(d), |Trimmed(b)| - 1;
    ZeroTrimmed(b);
    ZeroTrimmed(d);
    forall i: nat ensures Coef(t, i) == Coef(d, i) && Coef(Trimmed(b), i) == Coef(b, i) {
      CoefTrimmed(d, i);
      CoefTrimmed(b, i);
    }
    ProductTop(f, t, b, m);
    ProductSame(f, t, d, b, b, |t| - 1 + m);
    NoZeroDivisors(f, t[|t| - 1], Coef(b, m));
  }

  /** A quotient and remainder with the promised identity and bound are the only ones. */
  lemma {:induction false} DivisionIsUnique(f: Field, a: Poly, b: Poly, q: Poly, r: Poly, q': Poly, r': Poly, n: nat)
    requires f.Lawful() && b != [] && !Zero(b)
    requires IsDivision(f, a, b, q, r) && IsDivision(f, a, b, q', r')
    ensures Coef(q, n) == Coef(q', n) && Coef(r, n) == Coef(r', n)
  {
    hide Add, Field.Lawful, Product, Trimmed;
    var k: nat := 1 + |q| + |q'|;
    var u, v := Padded(q, k), Padded(q', k);
    var d := PolyAdd(u, v);
    forall i: nat ensures Product(f, d, b, i) == Add(Coef(r, i), Coef(r', i)) {
      assert Coef(a, i) == Add(Product(f, q, b, i), Coef(r, i));
      assert Coef(a, i) == Add(Product(f, q', b, i), Coef(r', i));
      ProductSame(f, u, q, b, b, i);
      ProductSame(f, v, q', b, b, i);
      ProductAdd(f, u, v, b, i);
      DifferenceShape(Product(f, q, b, i), Product(f, q', b, i), Coef(r, i), Coef(r', i));
    }
    AddZero(0);
    forall i: nat | |Trimmed(b)| <= i + 1 ensures Product(f, d, b, i) == 0 {
      assert Coef(r, i) == 0 && Coef(r', i) == 0;
    }
    ShortMultipleIsZero(f, d, b);
    ProductOfZero(f, d, b, n);
    AddCancel(Coef(r, n), Coef(r', n));
    if n < k {
      assert d[n] == 0;
      AddCancel(u[n], v[n]);
      assert Coef(u, n) == Coef(v, n);
    }
  }

  lemma {:induction false} DifferenceShape(p: byte, p': byte, r: byte, r': byte)
    requires Add(p, r) == Add(p', r')
    ensures Add(p, p') == Add(r, r')
  {
  }

  // ------------------------------------------------------------------ values

  /** The coefficients of q b, enough of them. */
  ghost function ProductPoly(f: Field, q: Poly, b: Poly): (p: Poly)
    ensures |p| == |q| + |b|
  {
    if q == [] then Zeros(|b|)
    else PolyAdd(Scale(f, q[0], b) + Zeros(|q|), [0] + ProductPoly(f, q[1..], b))
  }

  lemma {:induction false} CoefAdd(p: Poly, q: Poly, n: nat)
    requires |p| == |q|
    ensures Coef(PolyAdd(p, q), n) == Add(Coef(p, n), Coef(q, n))
  {
    hide Add;
    AddZero(0);
  }

  lemma {:induction false} CoefScaled(f: Field, c: byte, b: Poly, k: nat, n: nat)
    requires f.Lawful()
    ensures Coef(Scale(f, c, b) + Zeros(k), n) == f.mul(c, Coef(b, n))
  {
    hide Add, Field.Lawful;
    MulZero(f, c);
  }

  lemma {:induction false} ProductPolyAt(f: Field, q: Poly, b: Poly, n: nat)
    requires f.Lawful()
    ensures Coef(ProductPoly(f, q, b), n) == Product(f, q, b, n)
    decreases |q|
  {
    hide Add, Field.Lawful;
    if q == [] {
    } else {
      var scaled, shifted := Scale(f, q[0], b) + Zeros(|q|), [0] + ProductPoly(f, q[1..], b);
      hide PolyAdd, Scale;
      if n != 0 { ProductPolyAt(f, q[1..], b, n - 1); }
      CoefAdd(scaled, shifted, n);
      CoefScaled(f, q[0], b, |q|, n);
    }
  }

  lemma {:induction false} EvalPadded(f: Field, p: Poly, n: nat, x: byte)
    requires f.Lawful()
    ensures Eval(f, p + Zeros(n), x) == Eval(f, p, x)
    decreases n
  {
    hide Add, Eval, Field.Lawful;
    if n == 0 {
      assert p + Zeros(0) == p;
    } else {
      EvalPadded(f, p, n - 1, x);
      assert (p + Zeros(n))[..|p| + n - 1] == p + Zeros(n - 1);
      DropTopZero(f, p + Zeros(n), x);
    }
  }

  lemma {:induction false} EvalProduct(f: Field, q: Poly, b: Poly, x: byte)
    requires f.Lawful()
    ensures Eval(f, ProductPoly(f, q, b), x) == f.mul(Eval(f, q, x), Eval(f, b, x))
    decreases |q|
  {
    hide Add, Field.Lawful, Pow;
    if q == [] {
      EvalZero(f, Zeros(|b|), x);
      MulZero(f, Eval(f, b, x));
    } else {
      var rest := ProductPoly(f, q[1..], b);
      EvalProduct(f, q[1..], b, x);
      EvalAdd(f, Scale(f, q[0], b) + Zeros(|q|), [0] + rest, x);
      EvalPadded(f, Scale(f, q[0], b), |q|, x);
      EvalScale(f, q[0], b, x);
      assert ([0] + rest)[1..] == rest;
      AddZero(f.mul(x, Eval(f, rest, x)));
      MulAssoc(f, x, Eval(f, q[1..], x), Eval(f, b, x));
      DistribRight(f, q[0], f.mul(x, Eval(f, q[1..], x)), Eval(f, b, x));
    }
  }

  /** Equal coefficients, equal values. */
  lemma {:induction false} EvalSame(f: Field, p: Poly, q: Poly, x: byte)
    requires f.Lawful() && forall i: nat :: Coef(p, i) == Coef(q, i)
    ensures Eval(f, p, x) == Eval(f, q, x)
  {
    hide Add, Eval, Field.Lawful;
    var k := |p| + |q|;
    EvalPadded(f, p, |q|, x);
    EvalPadded(f, q, |p|, x);
    var u, v := p + Zeros(|q|), q + Zeros(|p|);
    forall i | 0 <= i < k ensures u[i] == v[i] { assert Coef(p, i) == Coef(q, i); }
    assert u == v;
  }

  /** The identity of coefficients holds at every point. */
  lemma {:induction false} DivisionEvaluates(f: Field, a: Poly, b: Poly, q: Poly, r: Poly, x: byte)
    requires f.Lawful() && b != [] && IsDivision(f, a, b, q, r)
    ensures Eval(f, a, x) == Add(f.mul(Eval(f, q, x), Eval(f, b, x)), Eval(f, r, x))
  {
    hide Add, Eval, Field.Lawful, Product, ProductPoly, Trimmed;
    var p := ProductPoly(f, q, b);
    var k := |p| + |r|;
    var u, v := Padded(p, k), Padded(r, k);
    forall i: nat ensures Coef(PolyAdd(u, v), i) == Coef(a, i) {
      ProductPolyAt(f, q, b, i);
      assert Coef(u, i) == Coef(p, i) && Coef(v, i) == Coef(r, i);
      AddZero(0);
    }
    EvalSame(f, PolyAdd(u, v), a, x);
    EvalAdd(f, u, v, x);
    EvalSame(f, u, p, x);
    EvalSame(f, v, r, x);
    EvalProduct(f, q, b, x);
  }

  /** `Poly::eval`: the sum of coefficients times powers is the polynomial's value. */
  method EvalPoly(f: Field, p: PolyBuf, x: byte) returns (v: byte)
    requires f.Lawful() && IsBuf(p)
    ensures v == Eval(f, Slice(p), x)
  {
    hide Add, Eval, Field.Lawful;
    v := 0;
    var power: byte := 1;
    for i := 0 to p.len
      invariant v == PowerSum(f, p.data[..i], x) && power == Pow(f, x, i)
    {
      assert p.data[..i + 1][..i] == p.data[..i];
      v := Add(v, f.mul(p.data[i], power));
      power := f.mul(x, power);
    }
    PowerSumIsEval(f, Slice(p), x);
  }
}
