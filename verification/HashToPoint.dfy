/** Falcon's hash-to-point step: a stream of 16-bit samples is turned into n
    residues modulo q = 12289.

    The variable-time routine is plain rejection sampling. The constant-time routine
    reads a fixed number of samples, marks the rejected ones, and then moves the kept
    ones to the front with a network of masked swaps. This module models both and
    proves exactly when they agree.

    Machine words are integers with explicit wrap-around. A mask is a word that is all
    zeros or all ones; the operations on masks require that, so it is checked at each use. */
module HashToPoint {
  import opened Arithmetic

  const Q := 12289
  const ACCEPT_BOUND := 61445
  const WORD := 0x1_0000_0000
  const ALL_ONES := 0xFFFF_FFFF
  const REJECTED := 0xFFFF
  const TT2_LENGTH := 63

  // ------------------------------------------------------------------ masks

  /** `a.wrapping_sub(b)` on 32-bit words. */
  function Sub32(a: nat, b: nat): nat
    requires a < WORD && b < WORD
  {
    if a >= b then a - b else a + WORD - b
  }

  predicate IsMask(m: nat) { m == 0 || m == ALL_ONES }

  /** `c & m` for a mask m. */
  function AndMask(c: nat, m: nat): nat
    requires IsMask(m)
  {
    if m == 0 then 0 else c
  }

  /** `c | m` for a mask m, on 32-bit words. */
  function OrMask(c: nat, m: nat): nat
    requires IsMask(m)
  {
    if m == 0 then c else ALL_ONES
  }

  /** `a ^ (m & (a ^ b))` for a mask m: a where m is clear, b where it is set. */
  function Select(a: nat, b: nat, m: nat): nat
    requires IsMask(m)
  {
    if m == 0 then a else b
  }

  /** `((w - bound) >> 31) - 1`: all ones exactly when w >= bound. */
  function AtLeastMask(w: nat, bound: nat): (m: nat)
    requires w < 0x8000_0000 && bound < 0x8000_0000
    ensures IsMask(m)
    ensures m == ALL_ONES <==> bound <= w
  {
    Sub32(Sub32(w, bound) / 0x8000_0000, 1)
  }

  /** `j & p` for a power of two p. */
  function AndBit(j: nat, p: nat): nat
    requires 0 < p
  {
    (j / p) % 2 * p
  }

  // ------------------------------------------------------ rejection sampling

  predicate IsSample(w: nat) { w <= 0xFFFF }

  predicate Accepted(w: nat) { w < ACCEPT_BOUND }

  ghost predicate IsSampleSeq(ws: seq<nat>) { forall i :: 0 <= i < |ws| ==> IsSample(ws[i]) }

  /** The residues of the accepted samples, in stream order. */
  ghost function Sampled(ws: seq<nat>): (r: seq<nat>)
    ensures |r| <= |ws|
    ensures forall i :: 0 <= i < |r| ==> r[i] < Q
  {
    if ws == [] then []
    else
      var init, last := ws[..|ws| - 1], ws[|ws| - 1];
      Sampled(init) + if Accepted(last) then [last % Q] else []
  }

  lemma {:induction false} SampledPrefix(ws: seq<nat>, k: nat)
    requires k <= |ws|
    ensures Sampled(ws[..k]) <= Sampled(ws)
  {
    if k == |ws| {
      assert ws[..k] == ws;
    } else {
      SampledPrefix(ws[..|ws| - 1], k);
      assert ws[..|ws| - 1][..k] == ws[..k];
    }
  }

  /** Rejection sampling is unbiased: every residue comes from exactly five of the accepted samples. They are taken
      in stream order. */
  lemma {:induction false} SamplingLaw(r: nat, w: nat, xs: seq<nat>, ys: seq<nat>)
    requires r < 12289
    ensures w < 61445 && w % 12289 == r <==> w in {r, r + 12289, r + 24578, r + 36867, r + 49156}
    ensures Sampled([w]) == if w < 61445 then [w % 12289] else []
    ensures Sampled(xs + ys) == Sampled(xs) + Sampled(ys)
  {
    assert w < 61445 ==> w / 12289 < 5;
    assert [w][..0] == [];
    SampledConcat(xs, ys);
  }

  lemma {:induction false} SampledConcat(xs: seq<nat>, ys: seq<nat>)
    ensures Sampled(xs + ys) == Sampled(xs) + Sampled(ys)
    decreases |ys|
  {
    if ys == [] {
      assert xs + ys == xs;
    } else {
      SampledConcat(xs, ys[..|ys| - 1]);
      assert (xs + ys)[..|xs + ys| - 1] == xs + ys[..|ys| - 1];
    }
  }

  /** The variable-time routine: reads samples until n of them were accepted. It returns
      when the stream holds that many; `stream` is any prefix that does. */
  method HashToPointVartime(stream: seq<nat>, n: nat) returns (x: seq<nat>, used: nat)
    requires IsSampleSeq(stream)
    requires |Sampled(stream)| >= n
    ensures used <= |stream|
    ensures x == Sampled(stream[..used]) == Sampled(stream)[..n]
  {
    x, used := [], 0;
    assert stream[..0] == [];
    while |x| < n
      invariant used <= |stream| && |x| <= n
      invariant x == Sampled(stream[..used])
      invariant used == |stream| ==> |x| >= n
      decreases |stream| - used
    {
      assert stream[..used + 1][..used] == stream[..used];
      var w := stream[used];
      if w < ACCEPT_BOUND {
        while w >= Q
          invariant 0 <= w && w % Q == stream[used] % Q
        {
          w := w - Q;
        }
        x := x + [w];
      }
      used := used + 1;
      assert used == |stream| ==> stream[..used] == stream;
    }
    SampledPrefix(stream, used);
  }

  // --------------------------------------------------------- one table entry

  /** One masked subtraction. */
  function SubtractAtLeast(w: nat, bound: nat): (r: nat)
    requires w < 0x8000_0000 && bound < 0x8000_0000
    ensures r == if bound <= w then w - bound else w
  {
    Sub32(w, AndMask(bound, AtLeastMask(w, bound)))
  }

  /** What the constant-time routine stores for a sample: three masked subtractions leave
      the residue, and a rejected sample becomes all ones. */
  function Reduced(w: nat): (e: nat)
    requires IsSample(w)
    ensures e == if Accepted(w) then w % Q else REJECTED
    ensures IsValid(e) <==> Accepted(w)
  {
    var a := SubtractAtLeast(w, 24578);
    var b := SubtractAtLeast(a, 24578);
    var c := SubtractAtLeast(b, 12289);
    assert Accepted(w) ==> c == w || c == w - 12289 || c == w - 24578 || c == w - 36867 || c == w - 49156 || c == w - 61445;
    assert Accepted(w) ==> c < Q;
    OrMask(c, AtLeastMask(w, ACCEPT_BOUND)) % 0x1_0000
  }

  /** Bit 15 tells rejected entries from kept ones. */
  predicate IsValid(e: nat) { e < 0x8000 }

  // -------------------------------------------------------------- compaction

  /** The kept entries in order. */
  ghost function Compact(s: seq<nat>): (r: seq<nat>)
    ensures |r| <= |s|
  {
    if s == [] then []
    else Compact(s[..|s| - 1]) + if IsValid(s[|s| - 1]) then [s[|s| - 1]] else []
  }

  /** How many rejected entries precede position u: the distance the entry at u has to travel. */
  ghost function Gap(s: seq<nat>, u: nat): nat
    requires u <= |s|
  {
    u - |Compact(s[..u])|
  }

  /** Every kept entry has a travel distance divisible by p. */
  ghost predicate Aligned(s: seq<nat>, p: nat)
    requires 0 < p
  {
    forall u :: 0 <= u < |s| && IsValid(s[u]) ==> Gap(s, u) % p == 0
  }

  /** Largest multiple of p below or at d. */
  ghost function Floor(d: nat, p: nat): nat
    requires 0 < p
  {
    d - d % p
  }

  lemma {:induction false} FloorMonotone(c: nat, d: nat, p: nat)
    requires 0 < p && c <= d
    ensures Floor(c, p) <= Floor(d, p)
  {
    assert Floor(c, p) == p * (c / p) && Floor(d, p) == p * (d / p);
    MulStep(p, d / p, c / p);
    MulStep(p, c / p, d / p);
  }

  /** A distance divisible by p splits into the bit of weight p and a multiple of 2p. */
  lemma {:induction false} SplitBit(d: nat, p: nat)
    requires 0 < p && d % p == 0
    ensures AndBit(d, p) == 0 ==> d % (2 * p) == 0
    ensures AndBit(d, p) != 0 ==> AndBit(d, p) == p && p <= d && Floor(d, 2 * p) == d - p && (d - p) % (2 * p) == 0
  {
    var t, h := d / p, d / p / 2;
    SplitMultiple(p, t, h);
    if t % 2 == 0 {
      ModUnique(d, 2 * p, h, 0);
    } else {
      ModUnique(d, 2 * p, h, p);
      ModUnique(d - p, 2 * p, h, 0);
    }
  }

  lemma {:induction false} SplitMultiple(p: nat, t: nat, h: nat)
    requires h == t / 2
    ensures p * t == 2 * p * h + (if t % 2 == 0 then 0 else p) && 0 <= 2 * p * h
  {
    assert t == 2 * h + t % 2;
    assert p * (2 * h + t % 2) == p * (2 * h) + p * (t % 2);
    assert p * (2 * h) == 2 * p * h;
    ProductNonNegative(2 * p, h);
  }

  lemma {:induction false} CompactSnoc(s: seq<nat>, u: nat)
    requires u < |s|
    ensures Compact(s[..u + 1]) == Compact(s[..u]) + if IsValid(s[u]) then [s[u]] else []
  {
    assert s[..u + 1][..u] == s[..u];
  }

  lemma {:induction false} CompactSkip(s: seq<nat>, a: nat, b: nat)
    requires a <= b <= |s|
    requires forall i :: a <= i < b ==> !IsValid(s[i])
    ensures Compact(s[..b]) == Compact(s[..a])
  {
    if a == b {
    } else {
      CompactSnoc(s, b - 1);
      CompactSkip(s, a, b - 1);
    }
  }

  lemma {:induction false} CompactMonotone(s: seq<nat>, a: nat, b: nat)
    requires a <= b <= |s|
    ensures Compact(s[..a]) <= Compact(s[..b])
    ensures Gap(s, a) <= Gap(s, b)
  {
    if a == b {
    } else {
      CompactSnoc(s, b - 1);
      CompactMonotone(s, a, b - 1);
    }
  }

  /** What holds of the table `s` after `u` steps of the pass of weight `p` over the table
      `t`. The scanned part keeps its entries in order, each now with a distance divisible
      by 2p and at most that of the scan position; the rest is untouched. */
  ghost predicate PassInvariant(t: seq<nat>, s: seq<nat>, u: nat, p: nat)
    requires 0 < p
  {
    && |s| == |t| && u <= |s|
    && s[u..] == t[u..]
    && Compact(s[..u]) == Compact(t[..u])
    && forall w :: 0 <= w < u && IsValid(s[w]) ==> Gap(s, w) % (2 * p) == 0 && Gap(s, w) <= Floor(Gap(t, u), 2 * p)
  }

  /** No kept entry sits where the entry at u is about to land, or between there and u. */
  lemma {:induction false} NoCollision(t: seq<nat>, s: seq<nat>, u: nat, p: nat)
    requires 0 < p && PassInvariant(t, s, u, p) && u < |s|
    requires p <= Gap(t, u) && Floor(Gap(t, u), 2 * p) == Gap(t, u) - p
    ensures p <= u
    ensures forall w :: u - p <= w < u ==> !IsValid(s[w])
  {
    forall w | u - p <= w < u ensures !IsValid(s[w]) {
      if IsValid(s[w]) {
        CompactSnoc(s, w);
        CompactMonotone(s, w + 1, u);
      }
    }
  }

  /** The swap at position u for a travel distance d: a kept entry moves down by p when d has
      the bit of weight p. */
  ghost function Swapped(s: seq<nat>, u: nat, d: nat, p: nat): (r: seq<nat>)
    requires u < |s| && 0 < p
    ensures |r| == |s|
    ensures forall i :: u < i < |s| ==> r[i] == s[i]
  {
    if IsValid(s[u]) && AndBit(d, p) != 0 && p <= u then s[u := s[u - p]][u - p := s[u]] else s
  }

  /** One step of the pass keeps the pass invariant, whichever way the masks go. */
  lemma {:induction false} PassStep(t: seq<nat>, s: seq<nat>, u: nat, p: nat, s': seq<nat>)
    requires 0 < p && Aligned(t, p) && PassInvariant(t, s, u, p) && u < |s|
    requires s' == Swapped(s, u, Gap(t, u), p)
    ensures PassInvariant(t, s', u + 1, p)
  {
    var d := Gap(t, u);
    assert s[u] == s[u..][0] == t[u..][0] == t[u];
    assert s'[u + 1..] == s[u + 1..] == s[u..][1..] == t[u + 1..];
    CompactSnoc(t, u);
    FloorMonotone(d, Gap(t, u + 1), 2 * p);
    if IsValid(s[u]) {
      SplitBit(d, p);
    }
    if !IsValid(s[u]) || AndBit(d, p) == 0 {
      CompactSnoc(s, u);
    } else {
      MovingStep(t, s, u, p, s');
    }
  }

  lemma {:induction false} MovingStep(t: seq<nat>, s: seq<nat>, u: nat, p: nat, s': seq<nat>)
    requires 0 < p && PassInvariant(t, s, u, p) && u < |s| && IsValid(s[u])
    requires p <= Gap(t, u) && Floor(Gap(t, u), 2 * p) == Gap(t, u) - p && (Gap(t, u) - p) % (2 * p) == 0
    requires s' == if p <= u then s[u := s[u - p]][u - p := s[u]] else s
    ensures Compact(s'[..u + 1]) == Compact(t[..u]) + [s[u]]
    ensures forall w :: 0 <= w < u + 1 && IsValid(s'[w]) ==>
              Gap(s', w) % (2 * p) == 0 && Gap(s', w) <= Gap(t, u) - p
  {
    NoCollision(t, s, u, p);
    MovedEntry(s, u, u - p, s');
    CompactSkip(s, u - p, u);
    forall w | 0 <= w < u + 1 && IsValid(s'[w])
      ensures Gap(s', w) % (2 * p) == 0 && Gap(s', w) <= Gap(t, u) - p
    {
      assert w <= u - p;
      assert s'[..w] == s[..w];
    }
  }

  /** Swapping a kept entry at u with a rejected one at v, over rejected entries only,
      keeps the order of the kept entries. */
  lemma {:induction false} MovedEntry(s: seq<nat>, u: nat, v: nat, s': seq<nat>)
    requires v < u < |s| && IsValid(s[u])
    requires forall w :: v <= w < u ==> !IsValid(s[w])
    requires s' == s[u := s[v]][v := s[u]]
    ensures Compact(s'[..u + 1]) == Compact(s[..u]) + [s[u]]
    ensures forall w :: v < w <= u ==> !IsValid(s'[w])
  {
    assert s'[..v] == s[..v];
    CompactSkip(s, v, u);
    CompactSnoc(s', v);
    CompactSkip(s', v + 1, u + 1);
  }

  lemma {:induction false} PassStart(t: seq<nat>, p: nat)
    requires 0 < p
    ensures PassInvariant(t, t, 0, p) && |Compact(t[..0])| == 0
  {
  }

  /** What has not been scanned is unchanged. */
  lemma {:induction false} PassAt(t: seq<nat>, s: seq<nat>, u: nat, p: nat)
    requires 0 < p && PassInvariant(t, s, u, p) && u < |t|
    ensures |s| == |t| && s[u] == t[u]
  {
    assert s[u] == s[u..][0] == t[u..][0];
  }

  lemma {:induction false} PassDone(t: seq<nat>, s: seq<nat>, p: nat)
    requires 0 < p && PassInvariant(t, s, |t|, p)
    ensures Aligned(s, 2 * p) && Compact(s) == Compact(t)
  {
    assert s[..|t|] == s && t[..|t|] == t;
  }

  lemma {:induction false} GapIs(s: seq<nat>, u: nat)
    requires u <= |s|
    ensures |Compact(s[..u])| <= u && Gap(s, u) == u - |Compact(s[..u])|
    ensures u == 0 ==> Compact(s[..u]) == []
  {
  }

  lemma {:induction false} NoGapsInFront(s: seq<nat>, k: nat)
    requires k <= |s|
    requires forall u :: 0 <= u < |s| && IsValid(s[u]) ==> Gap(s, u) == 0
    ensures s[..|Compact(s[..k])|] == Compact(s[..k])
  {
    hide *;
    GapIs(s, k);
    if k == 0 {
    } else {
      NoGapsInFront(s, k - 1);
      CompactSnoc(s, k - 1);
      GapIs(s, k - 1);
    }
  }

  /** Once the weight exceeds the number of rejected entries, the kept ones are in front. */
  lemma {:induction false} AlignedIsCompacted(s: seq<nat>, p: nat)
    requires 0 < p && Aligned(s, p)
    requires |s| - |Compact(s)| < p
    ensures s[..|Compact(s)|] == Compact(s)
  {
    assert s[..|s|] == s;
    forall u | 0 <= u < |s| && IsValid(s[u]) ensures Gap(s, u) == 0 {
      CompactMonotone(s, u, |s|);
      ModUnique(Gap(s, u), p, 0, Gap(s, u));
    }
    NoGapsInFront(s, |s|);
  }

  // ------------------------------------------------------ the scratch tables

  ghost predicate Separate(x: array<nat>, tt1: array<nat>, tt2: array<nat>) {
    x != tt1 && x != tt2 && tt1 != tt2 && x.Length == tt1.Length && tt2.Length == TT2_LENGTH
  }

  /** The entry at position u of x, tt1 and tt2 laid end to end. */
  function Entry(x: array<nat>, tt1: array<nat>, tt2: array<nat>, u: nat): nat
    reads x, tt1, tt2
    requires Separate(x, tt1, tt2) && u < 2 * x.Length + TT2_LENGTH
  {
    if u < x.Length then x[u] else if u < 2 * x.Length then tt1[u - x.Length] else tt2[u - 2 * x.Length]
  }

  /** The three buffers hold the table s. */
  ghost predicate Holds(x: array<nat>, tt1: array<nat>, tt2: array<nat>, s: seq<nat>)
    reads x, tt1, tt2
  {
    && Separate(x, tt1, tt2)
    && |s| <= 2 * x.Length + TT2_LENGTH
    && forall i :: 0 <= i < |s| ==> s[i] == Entry(x, tt1, tt2, i)
  }

  method Store(x: array<nat>, tt1: array<nat>, tt2: array<nat>, u: nat, e: nat, ghost s: seq<nat>) returns (ghost s': seq<nat>)
    requires Holds(x, tt1, tt2, s) && u <= |s| && u < 2 * x.Length + TT2_LENGTH
    modifies x, tt1, tt2
    ensures s' == if u < |s| then s[u := e] else s + [e]
    ensures Holds(x, tt1, tt2, s')
  {
    if u < x.Length {
      x[u] := e;
    } else if u < 2 * x.Length {
      tt1[u - x.Length] := e;
    } else {
      tt2[u - 2 * x.Length] := e;
    }
    s' := if u < |s| then s[u := e] else s + [e];
  }

  /** One step of the network at position u, when v of the earlier entries were kept. */
  method SwapStep(x: array<nat>, tt1: array<nat>, tt2: array<nat>, u: nat, v: nat, p: nat, ghost s: seq<nat>)
    returns (v': nat, ghost s': seq<nat>)
    requires Holds(x, tt1, tt2, s) && v <= u < |s|
    requires 0 < p <= 512
    modifies x, tt1, tt2
    ensures v' == v + if IsValid(s[u]) then 1 else 0
    ensures Holds(x, tt1, tt2, s') && s' == Swapped(s, u, u - v, p)
  {
    var sv := Entry(x, tt1, tt2, u);
    var j := u - v;
    var mk := Sub32(if sv >= 0x8000 then 1 else 0, 1);
    v' := if mk == 0 then v else v + 1;
    s' := s;
    if !(u < p) {
      var dv := Entry(x, tt1, tt2, u - p);
      assert AndBit(j, p) == 0 || AndBit(j, p) == p;
      mk := AndMask(mk, if (AndBit(j, p) + 0x1FF) / 512 == 0 then 0 else ALL_ONES);
      s' := Store(x, tt1, tt2, u, Select(sv, dv, mk), s');
      s' := Store(x, tt1, tt2, u - p, Select(dv, sv, mk), s');
    }
  }

  /** One pass of the network: entries whose distance has the bit of weight p move down by p. */
  method Pass(x: array<nat>, tt1: array<nat>, tt2: array<nat>, m: nat, p: nat, ghost t: seq<nat>) returns (ghost s: seq<nat>)
    requires Holds(x, tt1, tt2, t) && |t| == m
    requires 0 < p <= 512 && Aligned(t, p)
    modifies x, tt1, tt2
    ensures Holds(x, tt1, tt2, s) && |s| == m
    ensures Aligned(s, 2 * p) && Compact(s) == Compact(t)
  {
    hide Compact, Gap, IsValid, Aligned, PassInvariant, Holds, Swapped, Floor;
    var u, v := 0, 0;
    s := t;
    PassStart(t, p);
    while u < m
      invariant u <= m && |s| == m
      invariant Holds(x, tt1, tt2, s)
      invariant PassInvariant(t, s, u, p)
      invariant v == |Compact(t[..u])|
    {
      CompactSnoc(t, u);
      PassAt(t, s, u, p);
      GapIs(t, u);
      ghost var r := s;
      v, s := SwapStep(x, tt1, tt2, u, v, p, s);
      PassStep(t, r, u, p, s);
      u := u + 1;
    }
    PassDone(t, s, p);
  }

  /** How many samples beyond n are read, indexed by the logarithm of n. */
  function Over(logn: nat): nat
    requires logn <= 10
  {
    [0, 65, 67, 71, 77, 86, 100, 122, 154, 205, 287][logn]
  }

  function Degree(logn: nat): nat
    requires logn <= 10
  {
    [1, 2, 4, 8, 16, 32, 64, 128, 256, 512, 1024][logn]
  }

  /** The marked table of the first |ws| samples. */
  ghost function Marked(ws: seq<nat>): (t: seq<nat>)
    requires IsSampleSeq(ws)
    ensures |t| == |ws|
    ensures forall i :: 0 <= i < |ws| ==> t[i] == Reduced(ws[i])
  {
    seq(|ws|, i requires 0 <= i < |ws| => Reduced(ws[i]))
  }

  lemma {:induction false} CompactMarked(ws: seq<nat>)
    requires IsSampleSeq(ws)
    ensures Compact(Marked(ws)) == Sampled(ws)
  {
    if ws == [] {
    } else {
      var init := ws[..|ws| - 1];
      CompactMarked(init);
      assert Marked(ws)[..|ws| - 1] == Marked(init);
    }
  }

  /** The first loop: one marked entry per sample. */
  method FillTable(ws: seq<nat>, x: array<nat>, tt1: array<nat>, tt2: array<nat>)
    requires Separate(x, tt1, tt2) && IsSampleSeq(ws) && |ws| <= 2 * x.Length + TT2_LENGTH
    modifies x, tt1, tt2
    ensures Holds(x, tt1, tt2, Marked(ws))
  {
    var u := 0;
    ghost var s := [];
    while u < |ws|
      invariant u <= |ws| && s == Marked(ws)[..u]
      invariant Holds(x, tt1, tt2, s)
    {
      s := Store(x, tt1, tt2, u, Reduced(ws[u]), s);
      u := u + 1;
    }
    assert s == Marked(ws);
  }

  /** The second loop: passes of weight 1, 2, 4, ... while the weight is at most `over`. */
  method CompactTable(x: array<nat>, tt1: array<nat>, tt2: array<nat>, m: nat, over: nat, ghost t: seq<nat>) returns (ghost s: seq<nat>)
    requires Holds(x, tt1, tt2, t) && |t| == m && over <= 512
    modifies x, tt1, tt2
    ensures Holds(x, tt1, tt2, s) && |s| == m && Compact(s) == Compact(t)
    ensures m <= over + |Compact(s)| ==> Compact(s) <= s
  {
    var p := 1;
    s := t;
    while p <= over
      invariant 0 < p <= 1024
      invariant Holds(x, tt1, tt2, s) && |s| == m
      invariant Aligned(s, p) && Compact(s) == Compact(t)
    {
      s := Pass(x, tt1, tt2, m, p, s);
      p := 2 * p;
    }
    if m <= over + |Compact(s)| {
      AlignedIsCompacted(s, p);
    }
  }

  /** Fill, then compact: the front of the table is what rejection sampling yields exactly
      when at least n of the n + over samples were accepted. */
  method HashToPointTable(ws: seq<nat>, over: nat, x: array<nat>, tt1: array<nat>, tt2: array<nat>)
    requires Separate(x, tt1, tt2) && IsSampleSeq(ws)
    requires |ws| == x.Length + over && over <= x.Length + TT2_LENGTH && over <= 512
    modifies x, tt1, tt2
    ensures x[..] <= Sampled(ws) <==> |Sampled(ws)| >= x.Length
    ensures |Sampled(ws)| < x.Length ==> exists i :: 0 <= i < x.Length && x[..][i] >= Q
  {
    FillTable(ws, x, tt1, tt2);
    CompactMarked(ws);
    ghost var s := CompactTable(x, tt1, tt2, |ws|, over, Marked(ws));
    assert x[..] == s[..x.Length];
    FrontOfTable(s, ws, x.Length);
  }

  lemma {:induction false} FrontOfTable(s: seq<nat>, ws: seq<nat>, n: nat)
    requires |s| == |ws| && n <= |s| && Compact(s) == Sampled(ws)
    requires n <= |Compact(s)| ==> Compact(s) <= s
    ensures s[..n] <= Sampled(ws) <==> |Sampled(ws)| >= n
    ensures |Sampled(ws)| < n ==> exists i :: 0 <= i < n && s[..n][i] >= Q
  {
    if |Compact(s)| < n {
      TooFewAccepted(s, n);
      var i :| 0 <= i < n && !IsValid(s[i]);
      assert s[..n][i] >= Q;
    }
  }

  /** The constant-time routine on the first n + over samples of the stream. It agrees with
      rejection sampling exactly when at least n of them were accepted. */
  method HashToPointCt(stream: seq<nat>, logn: nat, x: array<nat>, tt1: array<nat>, tt2: array<nat>)
    requires logn <= 10 && x.Length == Degree(logn) && Separate(x, tt1, tt2)
    requires IsSampleSeq(stream) && |stream| >= Degree(logn) + Over(logn)
    modifies x, tt1, tt2
    ensures x[..] <= Sampled(stream) <==> |Sampled(stream[..Degree(logn) + Over(logn)])| >= Degree(logn)
    ensures logn == 9 ==> |stream| >= 717 && (x[..] <= Sampled(stream) <==> |Sampled(stream[..717])| >= 512)
    ensures logn == 10 ==> |stream| >= 1311 && (x[..] <= Sampled(stream) <==> |Sampled(stream[..1311])| >= 1024)
  {
    hide Sampled, Over, Degree;
    var over := Over(logn);
    OverFits(logn);
    var ws := stream[..x.Length + over];
    HashToPointTable(ws, over, x, tt1, tt2);
    SampledPrefix(stream, |ws|);
  }

  /** The third table has room for what the first two cannot hold. */
  lemma {:induction false} OverFits(logn: nat)
    requires logn <= 10
    ensures Over(logn) <= Degree(logn) + TT2_LENGTH && Over(logn) <= 512
    ensures (logn == 9 ==> Degree(logn) == 512 && Over(logn) == 205) && (logn == 10 ==> Degree(logn) == 1024 && Over(logn) == 287)
    ensures Degree(0) == 1 && (logn < 10 ==> Degree(logn + 1) == 2 * Degree(logn))
  {
  }

  /** With fewer than n kept entries, one of the first n is still marked as rejected. */
  lemma {:induction false} TooFewAccepted(s: seq<nat>, n: nat)
    requires n <= |s| && |Compact(s)| < n
    ensures exists i :: 0 <= i < n && !IsValid(s[i])
  {
    assert s[..|s|] == s;
    CompactMonotone(s, n, |s|);
    if forall i :: 0 <= i < n ==> IsValid(s[i]) {
      AllValidCompact(s[..n]);
    }
  }

  lemma {:induction false} AllValidCompact(s: seq<nat>)
    requires forall i :: 0 <= i < |s| ==> IsValid(s[i])
    ensures Compact(s) == s
  {
    if s == [] {
    } else {
      AllValidCompact(s[..|s| - 1]);
    }
  }

  // ------------------------------------------------------------ short vectors

  const HALF_WORD := 0x8000_0000

  predicate IsInt16(z: int) { -0x8000 <= z < 0x8000 }

  ghost predicate IsInt16Seq(zs: seq<int>) { forall i :: 0 <= i < |zs| ==> IsInt16(zs[i]) }

  function L2Bound(logn: nat): (b: nat)
    requires logn <= 10
    ensures b < HALF_WORD
  {
    [0, 101498, 208714, 428865, 892039, 1852696, 3842630, 7959734, 16468416, 34034726, 70265242][logn]
  }

  /** The squared norm, as an unbounded number. */
  ghost function SquaredNorm(zs: seq<int>): (r: nat)
  {
    if zs == [] then 0 else SquaredNorm(zs[..|zs| - 1]) + zs[|zs| - 1] * zs[|zs| - 1]
  }

  /** It is the sum of the squares. */
  lemma {:induction false} NormLaw(z: int, xs: seq<int>, ys: seq<int>)
    ensures SquaredNorm([z]) == z * z && SquaredNorm(xs + ys) == SquaredNorm(xs) + SquaredNorm(ys)
    decreases |ys|
  {
    assert [z][..0] == [];
    if ys == [] {
      assert xs + ys == xs;
    } else {
      NormLaw(z, xs, ys[..|ys| - 1]);
      assert (xs + ys)[..|xs + ys| - 1] == xs + ys[..|ys| - 1];
    }
  }

  /** s is the wrapped running sum of the true sum `total`, and `over` is bit 31 of the OR of
      all running sums: it is set as soon as the true sum leaves the lower half word. */
  ghost predicate Tracks(total: nat, s: nat, over: bool) {
    (over <==> total >= HALF_WORD) && (!over ==> s == total) && s < WORD
  }

  method Accumulate(s: nat, over: bool, z: int, ghost total: nat) returns (s': nat, over': bool)
    requires Tracks(total, s, over) && IsInt16(z)
    ensures Tracks(total + z * z, s', over')
  {
    SquareBound(z);
    s' := (s + z * z) % WORD;
    over' := over || s' >= HALF_WORD;
  }

  lemma {:induction false} SquareBound(z: int)
    requires IsInt16(z)
    ensures 0 <= z * z <= 0x4000_0000
  {
    var a, b := 0x8000 - z, 0x8000 + z;
    assert 0x4000_0000 - z * z == a * b;
    ProductNonNegative(a, b);
    ProductNonNegative(if z < 0 then -z else z, if z < 0 then -z else z);
  }

  /** Decides whether the partial norm `sqn` plus the norm of s2 is within the bound, although
      the sum is kept in one wrapping word. */
  method IsShortHalf(sqn: nat, s2: seq<int>, logn: nat) returns (short: bool)
    requires logn <= 10 && |s2| == Degree(logn) && IsInt16Seq(s2) && sqn < WORD
    ensures short <==> sqn + SquaredNorm(s2) <= L2Bound(logn)
  {
    var s: nat, over := sqn, sqn >= HALF_WORD;
    var u := 0;
    while u < |s2|
      invariant u <= |s2|
      invariant Tracks(sqn + SquaredNorm(s2[..u]), s, over)
    {
      assert s2[..u + 1][..u] == s2[..u];
      s, over := Accumulate(s, over, s2[u], sqn + SquaredNorm(s2[..u]));
      u := u + 1;
    }
    assert s2[..u] == s2;
    s := OrMask(s, if over then ALL_ONES else 0);
    short := s <= L2Bound(logn);
  }

  /** The same for two vectors whose squares are added alternately. */
  method IsShort(s1: seq<int>, s2: seq<int>, logn: nat) returns (short: bool)
    requires logn <= 10 && |s1| == |s2| == Degree(logn) && IsInt16Seq(s1) && IsInt16Seq(s2)
    ensures short <==> SquaredNorm(s1) + SquaredNorm(s2) <= L2Bound(logn)
    ensures logn == 9 ==> (short <==> SquaredNorm(s1) + SquaredNorm(s2) <= 34034726)
    ensures logn == 10 ==> (short <==> SquaredNorm(s1) + SquaredNorm(s2) <= 70265242)
  {
    var s: nat, over := 0, false;
    var u := 0;
    while u < |s1|
      invariant u <= |s1|
      invariant Tracks(SquaredNorm(s1[..u]) + SquaredNorm(s2[..u]), s, over)
    {
      assert s1[..u + 1][..u] == s1[..u] && s2[..u + 1][..u] == s2[..u];
      s, over := Accumulate(s, over, s1[u], SquaredNorm(s1[..u]) + SquaredNorm(s2[..u]));
      s, over := Accumulate(s, over, s2[u], SquaredNorm(s1[..u + 1]) + SquaredNorm(s2[..u]));
      u := u + 1;
    }
    assert s1[..u] == s1 && s2[..u] == s2;
    s := OrMask(s, if over then ALL_ONES else 0);
    short := s <= L2Bound(logn);
  }
}
