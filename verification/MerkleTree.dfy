/** The Merkle tree of the chain client, kept as one array in in-order layout: leaves at even
    positions, the node over a block of leaves between its two halves.

    The reference definitions are recursive over the leaves (`Build`, `Root`, `Siblings`); the
    object updates its array with cursors, widths and masks. */
module MerkleTree {
  import opened Arithmetic

  // --------------------------------------------------------- powers of two

  predicate IsPow2(p: nat)
    ensures IsPow2(p) ==> 0 < p
  {
    p == 1 || (p > 1 && p % 2 == 0 && IsPow2(p / 2))
  }

  lemma {:induction false} PowOne()
    ensures IsPow2(1)
  {
  }

  /** a is a multiple of w. */
  ghost predicate Aligned(w: nat, a: nat) { 0 < w && a % w == 0 }

  /** The least power of two that is at least x. */
  function NextPow2(x: nat): (p: nat)
    ensures IsPow2(p) && x <= p && (x > 1 ==> p < 2 * x)
  {
    if x <= 1 then 1
    else
      var half := (x + 1) / 2;
      assert x <= 2 * half <= x + 1 && half < x;
      var p := NextPow2(half);
      assert p == 1 || p % 2 == 0;
      DoublePow2(p);
      2 * p
  }

  lemma {:induction false} DoublePow2(p: nat)
    requires IsPow2(p)
    ensures IsPow2(2 * p)
  {
    assert 2 * p % 2 == 0 && 2 * p / 2 == p;
  }

  function ILog2(x: nat): nat { if x < 2 then 0 else 1 + ILog2(x / 2) }

  lemma {:induction false} NextPow2Unique(x: nat, p: nat)
    requires IsPow2(p) && x <= p < 2 * x
    ensures NextPow2(x) == p
  {
    if x <= 1 {
    } else {
      NextPow2Unique((x + 1) / 2, p / 2);
    }
  }

  lemma {:induction false} NextPow2Within(x: nat, w: nat)
    requires IsPow2(w) && x <= w
    ensures NextPow2(x) <= w
  {
    if x <= 1 {
    } else {
      NextPow2Within((x + 1) / 2, w / 2);
    }
  }

  lemma {:induction false} Pow2Apart(h: nat, w: nat)
    requires IsPow2(h) && IsPow2(w) && h < w
    ensures 2 * h <= w
  {
    if h <= 1 {
    } else {
      Pow2Apart(h / 2, w / 2);
    }
  }

  /** How many of n leaves go to the left half: the largest power of two below n. */
  function LeftCount(n: nat): (h: nat)
    requires 2 <= n
    ensures IsPow2(h) && h < n <= 2 * h
  {
    NextPow2((n + 1) / 2)
  }

  lemma {:induction false} LeftCountUnique(n: nat, h: nat)
    requires 2 <= n && IsPow2(h) && h < n <= 2 * h
    ensures LeftCount(n) == h && NextPow2(n) == 2 * h
  {
    assert 2 * h / 2 == h;
    NextPow2Unique((n + 1) / 2, h);
    NextPow2Unique(n, 2 * h);
  }

  lemma {:induction false} Pow2Divides(w: nat, h: nat)
    requires IsPow2(w) && IsPow2(h) && w <= h
    ensures Aligned(w, h)
  {
    if w <= 1 {
    } else {
      Pow2Divides(w / 2, h / 2);
      var k := h / 2 / (w / 2);
      assert h / 2 == (w / 2) * k;
      assert h == w * k;
      ModUnique(h, w, k, 0);
    }
  }

  // -------------------------------------------------------------- reference

  /** The value over a non-empty block of leaves. */
  function Root<T>(combine: (T, T) -> T, leaves: seq<T>): T
    requires leaves != []
    decreases |leaves|
  {
    if |leaves| == 1 then leaves[0]
    else
      var h := LeftCount(|leaves|);
      combine(Root(combine, leaves[..h]), Root(combine, leaves[h..]))
  }

  /** The node array over a non-empty block of leaves. */
  function Build<T>(combine: (T, T) -> T, leaves: seq<T>): (nodes: seq<T>)
    requires leaves != []
    ensures |nodes| == 2 * |leaves| - 1
    decreases |leaves|
  {
    if |leaves| == 1 then leaves
    else
      var h := LeftCount(|leaves|);
      Build(combine, leaves[..h]) + [Root(combine, leaves)] + Build(combine, leaves[h..])
  }

  /** Where the root of n leaves sits. */
  function RootPos(n: nat): nat
    requires 1 <= n
  {
    NextPow2(n) - 1
  }

  lemma {:induction false} RootInArray<T>(combine: (T, T) -> T, leaves: seq<T>)
    requires leaves != []
    ensures RootPos(|leaves|) < 2 * |leaves| - 1
    ensures Build(combine, leaves)[RootPos(|leaves|)] == Root(combine, leaves)
  {
    if |leaves| > 1 {
      LeftCountUnique(|leaves|, LeftCount(|leaves|));
    }
  }

  lemma {:induction false} BuildStep<T>(combine: (T, T) -> T, leaves: seq<T>)
    requires |leaves| > 1
    ensures var h := LeftCount(|leaves|);
            && Root(combine, leaves) == combine(Root(combine, leaves[..h]), Root(combine, leaves[h..]))
            && Build(combine, leaves) == Build(combine, leaves[..h]) + [Root(combine, leaves)] + Build(combine, leaves[h..])
  {
  }

  lemma {:induction false} BuildOne<T>(combine: (T, T) -> T, leaf: T)
    ensures Build(combine, [leaf]) == [leaf] && Root(combine, [leaf]) == leaf && RootPos(1) == 0
  {
  }

  /** Joining a full left block of w leaves with at most w more. */
  lemma {:induction false} BuildJoin<T>(combine: (T, T) -> T, left: seq<T>, right: seq<T>)
    requires IsPow2(|left|) && 1 <= |right| <= |left|
    ensures Root(combine, left + right) == combine(Root(combine, left), Root(combine, right))
    ensures Build(combine, left + right) ==
              Build(combine, left) + [Root(combine, left + right)] + Build(combine, right)
    ensures RootPos(|left| + |right|) == 2 * |left| - 1
  {
    hide LeftCount, NextPow2, IsPow2;
    LeftCountUnique(|left| + |right|, |left|);
    assert (left + right)[..|left|] == left && (left + right)[|left|..] == right;
  }

  ghost function Flatten<T>(ss: seq<seq<T>>): seq<T> { if ss == [] then [] else ss[0] + Flatten(ss[1..]) }

  lemma {:induction false} FlattenAppend<T>(ss: seq<seq<T>>, tt: seq<seq<T>>)
    ensures Flatten(ss + tt) == Flatten(ss) + Flatten(tt)
  {
    if ss == [] {
      assert ss + tt == tt;
    } else {
      assert (ss + tt)[1..] == ss[1..] + tt;
      FlattenAppend(ss[1..], tt);
    }
  }

  function Concat<T>(a: seq<T>, b: seq<T>): seq<T> { a + b }

  /** The root takes every leaf once and in order: over leaves that are joined end to end it is all of them. */
  lemma {:induction false} RootInOrder<T>(leaves: seq<seq<T>>)
    requires leaves != []
    ensures Root(Concat<T>, leaves) == Flatten(leaves)
    decreases |leaves|
  {
    var concat := Concat<T>;
    if |leaves| == 1 {
      assert leaves == [leaves[0]] && leaves[1..] == [];
    } else {
      var h := LeftCount(|leaves|);
      var left, right := leaves[..h], leaves[h..];
      assert leaves == left + right;
      hide Root, LeftCount, IsPow2, Flatten;
      RootInOrder(left);
      RootInOrder(right);
      FlattenAppend(left, right);
      BuildJoin(concat, left, right);
    }
  }

  /** Leaf i is stored at place 2 i. */
  lemma {:induction false} LeafInArray<T>(combine: (T, T) -> T, leaves: seq<T>, i: nat)
    requires i < |leaves|
    ensures Build(combine, leaves)[2 * i] == leaves[i]
    decreases |leaves|
  {
    hide Root, Build, LeftCount, IsPow2;
    if |leaves| == 1 {
      assert leaves == [leaves[0]];
      BuildOne(combine, leaves[0]);
    } else {
      var h := LeftCount(|leaves|);
      var left, right := leaves[..h], leaves[h..];
      BuildJoin(combine, left, right);
      assert leaves == left + right;
      if i < h { LeafInArray(combine, left, i); } else { LeafInArray(combine, right, i - h); }
      AroundNode(Build(combine, left), Root(combine, leaves), Build(combine, right), h, i);
    }
  }

  lemma {:induction false} AroundNode<T>(left: seq<T>, node: T, right: seq<T>, h: nat, i: nat)
    requires |left| == 2 * h - 1 && 2 * i < |left| + 1 + |right|
    ensures (left + [node] + right)[2 * i] == if i < h then left[2 * i] else right[2 * (i - h)]
  {
  }

  /** The aligned block of w leaves from a, cut off at the end of the leaves. */
  function Block<T>(leaves: seq<T>, a: nat, w: nat): (b: seq<T>)
    requires a < |leaves| && 0 < w
    ensures b != [] && |b| <= w && a + |b| <= |leaves|
  {
    leaves[a..if a + w <= |leaves| then a + w else |leaves|]
  }

  lemma {:induction false} BuildHalves<T>(combine: (T, T) -> T, leaves: seq<T>)
    requires |leaves| > 1
    ensures var h := LeftCount(|leaves|);
            && Build(combine, leaves)[..2 * h - 1] == Build(combine, leaves[..h])
            && Build(combine, leaves)[2 * h..] == Build(combine, leaves[h..])
  {
    hide Aligned, Build, Root, LeftCount, NextPow2, IsPow2;
    BuildStep(combine, leaves);
  }

  lemma {:induction false} SliceOfPrefix<T>(s: seq<T>, m: nat, lo: nat, hi: nat)
    requires lo <= hi <= m <= |s|
    ensures s[..m][lo..hi] == s[lo..hi]
  {
  }

  lemma {:induction false} SliceOfSuffix<T>(s: seq<T>, m: nat, lo: nat, hi: nat)
    requires m <= lo <= hi <= |s|
    ensures s[m..][lo - m..hi - m] == s[lo..hi]
  {
  }

  /** The array over all leaves contains the array over the aligned block at a. */
  ghost predicate HasBlock<T>(nodes: seq<T>, combine: (T, T) -> T, leaves: seq<T>, a: nat, w: nat)
    requires a < |leaves| && 0 < w
  {
    var b := Block(leaves, a, w);
    2 * (a + |b|) - 1 <= |nodes| && nodes[2 * a..2 * (a + |b|) - 1] == Build(combine, b)
  }

  lemma {:induction false} BlockInArray<T>(combine: (T, T) -> T, leaves: seq<T>, a: nat, w: nat)
    requires a < |leaves| && IsPow2(w) && Aligned(w, a)
    ensures HasBlock(Build(combine, leaves), combine, leaves, a, w)
    decreases |leaves|
  {
    hide Aligned, Build, Root, LeftCount, NextPow2, IsPow2;
    if |leaves| <= w {
      AlignedBelow(w, a);
      assert Block(leaves, a, w) == leaves;
    } else {
      var h := LeftCount(|leaves|);
      HalvesAligned(|leaves|, a, w);
      BuildHalves(combine, leaves);
      if a < h {
        BlockInArray(combine, leaves[..h], a, w);
        BlockOfPrefix(Build(combine, leaves), combine, leaves, h, a, w);
      } else {
        BlockInArray(combine, leaves[h..], a - h, w);
        BlockOfSuffix(Build(combine, leaves), combine, leaves, h, a, w);
      }
    }
  }

  lemma {:induction false} AlignedBelow(w: nat, a: nat)
    requires Aligned(w, a) && a < w
    ensures a == 0
  {
    ModUnique(a, w, 0, a);
  }

  lemma {:induction false} BlockOfPrefix<T>(nodes: seq<T>, combine: (T, T) -> T, leaves: seq<T>, h: nat, a: nat, w: nat)
    requires a + w <= h <= |leaves| && 0 < w && 2 * h - 1 <= |nodes|
    requires HasBlock(nodes[..2 * h - 1], combine, leaves[..h], a, w)
    ensures HasBlock(nodes, combine, leaves, a, w)
  {
    hide Build, Root;
    SliceOfPrefix(leaves, h, a, a + w);
    SliceOfPrefix(nodes, 2 * h - 1, 2 * a, 2 * (a + w) - 1);
  }

  lemma {:induction false} BlockOfSuffix<T>(nodes: seq<T>, combine: (T, T) -> T, leaves: seq<T>, h: nat, a: nat, w: nat)
    requires h <= a < |leaves| && 0 < w && 2 * h <= |nodes|
    requires HasBlock(nodes[2 * h..], combine, leaves[h..], a - h, w)
    ensures HasBlock(nodes, combine, leaves, a, w)
  {
    hide Build, Root;
    SameBlock(leaves, h, a, w);
    hide Block;
    var b := Block(leaves, a, w);
    SliceOfSuffix(nodes, 2 * h, 2 * a, 2 * (a + |b|) - 1);
  }

  lemma {:induction false} SameBlock<T>(leaves: seq<T>, h: nat, a: nat, w: nat)
    requires h <= a < |leaves| && 0 < w
    ensures Block(leaves[h..], a - h, w) == Block(leaves, a, w) && 2 * (a + |Block(leaves, a, w)|) - 1 >= 2 * a
  {
    SliceOfSuffix(leaves, h, a, a + |Block(leaves, a, w)|);
  }

  /** An aligned block of w leaves lies in one of the halves. */
  lemma {:induction false} HalvesAligned(n: nat, a: nat, w: nat)
    requires IsPow2(w) && Aligned(w, a) && w < n && a < n
    ensures a < LeftCount(n) ==> a + w <= LeftCount(n)
    ensures a >= LeftCount(n) ==> Aligned(w, a - LeftCount(n))
  {
    var h := LeftCount(n);
    if h < w {
      Pow2Apart(h, w);
    } else {
      Pow2Divides(w, h);
      if a < h {
        Multiples(w, a, h);
      } else {
        Multiples(w, h, a);
      }
    }
  }

  // ----------------------------------------------------------------- siblings

  /** A sibling on the way up, and the side it is on. */
  datatype Sibling<T> = OnLeft(value: T) | OnRight(value: T)

  /** The siblings of leaf i, bottom up. */
  ghost function Siblings<T>(combine: (T, T) -> T, leaves: seq<T>, i: nat): (path: seq<Sibling<T>>)
    requires i < |leaves|
    decreases |leaves|
  {
    if |leaves| == 1 then []
    else
      var h := LeftCount(|leaves|);
      if i < h then Siblings(combine, leaves[..h], i) + [OnRight(Root(combine, leaves[h..]))]
      else Siblings(combine, leaves[h..], i - h) + [OnLeft(Root(combine, leaves[..h]))]
  }

  ghost function Values<T>(path: seq<Sibling<T>>): (r: seq<T>)
    ensures |r| == |path|
  {
    seq(|path|, i requires 0 <= i < |path| => path[i].value)
  }

  /** Recombines a leaf with its siblings, minding the sides. */
  ghost function Recombine<T>(combine: (T, T) -> T, leaf: T, path: seq<Sibling<T>>): T {
    if path == [] then leaf
    else
      var below := Recombine(combine, leaf, path[..|path| - 1]);
      match path[|path| - 1]
      case OnLeft(v) => combine(v, below)
      case OnRight(v) => combine(below, v)
  }

  /** The plain left fold that ignores the sides. */
  ghost function Fold<T>(combine: (T, T) -> T, leaf: T, values: seq<T>): T {
    if values == [] then leaf else combine(Fold(combine, leaf, values[..|values| - 1]), values[|values| - 1])
  }

  /** Siblings and root of a tree with two halves. */
  lemma {:induction false} SiblingsOfHalves<T>(combine: (T, T) -> T, leaves: seq<T>, i: nat)
    requires i < |leaves| && 1 < |leaves|
    ensures var h := LeftCount(|leaves|);
            && 0 < h < |leaves|
            && Root(combine, leaves) == combine(Root(combine, leaves[..h]), Root(combine, leaves[h..]))
            && Siblings(combine, leaves, i) ==
                 if i < h then Siblings(combine, leaves[..h], i) + [OnRight(Root(combine, leaves[h..]))]
                 else Siblings(combine, leaves[h..], i - h) + [OnLeft(Root(combine, leaves[..h]))]
  {
  }

  lemma {:induction false} RecombineLast<T>(combine: (T, T) -> T, leaf: T, path: seq<Sibling<T>>, last: Sibling<T>)
    ensures var below := Recombine(combine, leaf, path);
            Recombine(combine, leaf, path + [last])
            == match last case OnLeft(v) => combine(v, below) case OnRight(v) => combine(below, v)
  {
    assert (path + [last])[..|path|] == path;
  }

  lemma {:induction false} RecombineOne<T>(combine: (T, T) -> T, leaves: seq<T>)
    requires |leaves| == 1
    ensures Recombine(combine, leaves[0], Siblings(combine, leaves, 0)) == Root(combine, leaves)
  {
  }

  lemma {:induction false} RecombineGivesRoot<T>(combine: (T, T) -> T, leaves: seq<T>, i: nat)
    requires i < |leaves|
    ensures Recombine(combine, leaves[i], Siblings(combine, leaves, i)) == Root(combine, leaves)
    decreases |leaves|
  {
    hide Recombine, Siblings, Root, LeftCount, IsPow2;
    if |leaves| == 1 {
      RecombineOne(combine, leaves);
    } else {
      var h := LeftCount(|leaves|);
      SiblingsOfHalves(combine, leaves, i);
      if i < h {
        RecombineGivesRoot(combine, leaves[..h], i);
        RecombineLast(combine, leaves[i], Siblings(combine, leaves[..h], i), OnRight(Root(combine, leaves[h..])));
      } else {
        RecombineGivesRoot(combine, leaves[h..], i - h);
        RecombineLast(combine, leaves[i], Siblings(combine, leaves[h..], i - h), OnLeft(Root(combine, leaves[..h])));
      }
    }
  }

  /** With a commutative combine the plain fold gives the root as well. */
  lemma {:induction false} FoldIsRecombine<T(!new)>(combine: (T, T) -> T, leaf: T, path: seq<Sibling<T>>)
    requires forall a, b :: combine(a, b) == combine(b, a)
    ensures Fold(combine, leaf, Values(path)) == Recombine(combine, leaf, path)
  {
    if path == [] {
    } else {
      FoldIsRecombine(combine, leaf, path[..|path| - 1]);
      assert Values(path)[..|path| - 1] == Values(path[..|path| - 1]);
    }
  }

  lemma {:induction false} FoldGivesRoot<T(!new)>(combine: (T, T) -> T, leaves: seq<T>, i: nat)
    requires i < |leaves| && forall a, b :: combine(a, b) == combine(b, a)
    ensures Fold(combine, leaves[i], Values(Siblings(combine, leaves, i))) == Root(combine, leaves)
  {
    FoldIsRecombine(combine, leaves[i], Siblings(combine, leaves, i));
    RecombineGivesRoot(combine, leaves, i);
  }

  ghost predicate FoldWorks<T(!new)>(combine: (T, T) -> T) {
    forall leaves: seq<T>, i: nat :: i < |leaves| ==>
      Fold(combine, leaves[i], Values(Siblings(combine, leaves, i))) == Root(combine, leaves)
  }

  /** Folding the proof without its sides gives the root of every tree, at every leaf, exactly when
      `combine` commutes: a tree of two leaves already needs it. */
  lemma {:induction false} FoldNeedsCommuting<T(!new)>(combine: (T, T) -> T)
    ensures FoldWorks(combine) <==> forall a, b :: combine(a, b) == combine(b, a)
  {
    if FoldWorks(combine) {
      forall a, b ensures combine(a, b) == combine(b, a) {
        TwoLeaves(combine, a, b);
      }
    }
    if forall a, b :: combine(a, b) == combine(b, a) {
      forall leaves: seq<T>, i: nat | i < |leaves|
        ensures Fold(combine, leaves[i], Values(Siblings(combine, leaves, i))) == Root(combine, leaves)
      {
        FoldGivesRoot(combine, leaves, i);
      }
    }
  }

  lemma {:induction false} TwoLeaves<T>(combine: (T, T) -> T, a: T, b: T)
    ensures Fold(combine, [a, b][1], Values(Siblings(combine, [a, b], 1))) == combine(b, a)
    ensures Root(combine, [a, b]) == combine(a, b)
  {
    assert LeftCount(2) == 1;
    assert [a, b][..1] == [a] && [a, b][1..] == [b];
    assert Siblings(combine, [b], 0) == [];
    var path := Siblings(combine, [a, b], 1);
    assert path == [OnLeft(a)];
    assert Values(path) == [a];
    assert Fold(combine, b, []) == b;
    assert [a][..0] == [];
  }

  /** Only the first leaf can do without the sides in general: for the projection on the left
      argument, the fold of leaf i is leaf i and the root is leaf 0. */
  lemma {:induction false} FoldOfFirstLeaf<T>(combine: (T, T) -> T, leaves: seq<T>)
    requires leaves != []
    ensures Fold(combine, leaves[0], Values(Siblings(combine, leaves, 0))) == Root(combine, leaves)
    decreases |leaves|
  {
    if |leaves| <= 1 {
    } else {
      var h := LeftCount(|leaves|);
      FoldOfFirstLeaf(combine, leaves[..h]);
      var path := Siblings(combine, leaves, 0);
      assert Values(path)[..|path| - 1] == Values(Siblings(combine, leaves[..h], 0));
    }
  }

  function First<T>(a: T, b: T): T { a }

  lemma {:induction false} FoldNeedsSides<T>(leaves: seq<T>, i: nat)
    requires i < |leaves|
    ensures var first := First<T>;
            && Fold(first, leaves[i], Values(Siblings(first, leaves, i))) == leaves[i]
            && Root(first, leaves) == leaves[0]
  {
    var first := First<T>;
    FoldOfFirst(leaves[i], Values(Siblings(first, leaves, i)));
    RootOfFirst(leaves);
  }

  lemma {:induction false} FoldOfFirst<T>(leaf: T, values: seq<T>)
    ensures Fold(First<T>, leaf, values) == leaf
  {
    if values == [] {
    } else {
      FoldOfFirst(leaf, values[..|values| - 1]);
    }
  }

  lemma {:induction false} RootOfFirst<T>(leaves: seq<T>)
    requires leaves != []
    ensures Root(First<T>, leaves) == leaves[0]
    decreases |leaves|
  {
    if |leaves| <= 1 {
    } else {
      RootOfFirst(leaves[..LeftCount(|leaves|)]);
    }
  }

  // ------------------------------------------------------------- the object

  /** Node positions for the ancestors of the leaf at index i: `mask` blocks of `width` leaves lie
      before the block that holds it, which starts at leaf `a`. */
  ghost predicate Climbs(i: nat, width: nat, mask: nat, a: nat) {
    IsPow2(width) && a == mask * width && a <= i < a + width
  }

  lemma {:induction false} ClimbStep(i: nat, width: nat, mask: nat, a: nat)
    requires Climbs(i, width, mask, a)
    ensures Aligned(width, a)
    ensures mask % 2 == 1 ==> width <= a
    ensures Climbs(i, 2 * width, mask / 2, if mask % 2 == 1 then a - width else a)
  {
    assert 2 * width / 2 == width;
    ModUnique(a, width, mask, 0);
    HalfMultiple(mask, width);
  }

  lemma {:induction false} HalfMultiple(mask: nat, width: nat)
    ensures mask * width == (mask / 2) * (2 * width) + if mask % 2 == 1 then width else 0
    ensures 0 <= (mask / 2) * (2 * width)
  {
    var half := mask / 2;
    ProductNonNegative(half, 2 * width);
    if mask % 2 == 1 {
      assert mask * width == (2 * half + 1) * width;
    } else {
      assert mask * width == (2 * half) * width;
    }
  }

  /** The loop bound counts the bits of the mask. */
  lemma {:induction false} LogStep(mask: nat)
    ensures ILog2(2 * mask + 1) == if mask == 0 then 0 else 1 + ILog2(2 * (mask / 2) + 1)
  {
    assert (2 * mask + 1) / 2 == mask;
    assert (2 * (mask / 2) + 1) / 2 == mask / 2;
  }

  function MidPoint(len: nat): nat {
    var half := NextPow2(len) / 2;
    if half == 0 then 0 else half - 1
  }

  lemma {:induction false} MidPointOfLeaves(n: nat)
    requires 1 <= n
    ensures MidPoint(2 * n - 1) == RootPos(n)
    ensures n > 1 ==> RootPos(n) == 2 * LeftCount(n) - 1
  {
    if n > 1 {
      LeftCountUnique(n, LeftCount(n));
      assert (2 * n - 1 + 1) / 2 == n;
    }
  }

  /** The leaves sit at every other position from lo on. */
  ghost predicate LeavesAt<T>(s: seq<T>, lo: nat, leaves: seq<T>) {
    lo + 2 * |leaves| <= |s| + 1 && forall i :: 0 <= i < |leaves| ==> s[lo + 2 * i] == leaves[i]
  }

  lemma {:induction false} SplitLeaves<T>(s: seq<T>, lo: nat, leaves: seq<T>, h: nat)
    requires LeavesAt(s, lo, leaves) && h <= |leaves|
    ensures LeavesAt(s, lo, leaves[..h]) && LeavesAt(s, lo + 2 * h, leaves[h..])
  {
    forall i | 0 <= i < |leaves| - h
      ensures s[lo + 2 * h + 2 * i] == leaves[h..][i]
    {
      assert s[lo + 2 * (h + i)] == leaves[h + i];
    }
  }

  /** s with the segment from lo replaced by t. */
  ghost function Overwrite<T>(s: seq<T>, lo: nat, t: seq<T>): (r: seq<T>)
    requires lo + |t| <= |s|
    ensures |r| == |s|
    ensures forall i :: 0 <= i < |s| ==> r[i] == if lo <= i < lo + |t| then t[i - lo] else s[i]
  {
    s[..lo] + t + s[lo + |t|..]
  }

  lemma {:induction false} LeavesStay<T>(s: seq<T>, lo: nat, t: seq<T>, at: nat, leaves: seq<T>)
    requires LeavesAt(s, at, leaves) && lo + |t| <= at && at < |s|
    ensures LeavesAt(Overwrite(s, lo, t), at, leaves)
  {
  }

  lemma {:induction false} OverwriteHalves<T>(s: seq<T>, lo: nat, left: seq<T>, node: T, right: seq<T>)
    requires lo + |left| + 1 + |right| <= |s|
    ensures Overwrite(Overwrite(s, lo, left), lo + |left| + 1, right)[lo + |left| := node]
            == Overwrite(s, lo, left + [node] + right)
  {
  }

  /** Fills in the inner nodes of the segment lo..hi, whose even positions hold the leaves. */
  method ComputeRecur<T>(combine: (T, T) -> T, nodes: array<T>, lo: nat, hi: nat, ghost leaves: seq<T>) returns (root: T)
    requires lo < hi <= nodes.Length && hi - lo == 2 * |leaves| - 1
    requires LeavesAt(nodes[..], lo, leaves)
    modifies nodes
    ensures nodes[..] == Overwrite(old(nodes[..]), lo, Build(combine, leaves))
    ensures root == Root(combine, leaves)
    decreases hi - lo
  {
    hide Build, Root, MidPoint, LeftCount, NextPow2, IsPow2, Overwrite;
    ghost var s := nodes[..];
    if hi - lo == 1 {
      assert leaves == [s[lo]];
      BuildOne(combine, s[lo]);
      assert Overwrite(s, lo, leaves) == s;
      return nodes[lo];
    }
    MidPointOfLeaves(|leaves|);
    BuildStep(combine, leaves);
    ghost var h := LeftCount(|leaves|);
    ghost var lefts, rights := Build(combine, leaves[..h]), Build(combine, leaves[h..]);
    var mid := lo + MidPoint(hi - lo);
    SplitLeaves(s, lo, leaves, h);
    var left := ComputeRecur(combine, nodes, lo, mid, leaves[..h]);
    LeavesStay(s, lo, lefts, mid + 1, leaves[h..]);
    var right := ComputeRecur(combine, nodes, mid + 1, hi, leaves[h..]);
    root := combine(left, right);
    ghost var t := nodes[..];
    nodes[mid] := root;
    assert nodes[..] == t[mid := root];
    OverwriteHalves(s, lo, lefts, root, rights);
  }

  class Tree<T> {
    const combine: (T, T) -> T
    const default: T
    var nodes: seq<T>

    /** The tree over a sequence of leaves. */
    ghost predicate Over(leaves: seq<T>)
      reads this
    {
      leaves != [] && nodes == Build(combine, leaves)
    }

    constructor (combine: (T, T) -> T, default: T, root: T)
      ensures this.combine == combine && this.default == default
      ensures Over([root])
    {
      this.combine, this.default := combine, default;
      this.nodes := [root];
    }

    constructor FromBase(combine: (T, T) -> T, default: T, base: seq<T>)
      ensures this.combine == combine && this.default == default
      ensures Over(if base == [] then [default] else base)
    {
      this.combine, this.default := combine, default;
      this.nodes := [default];
      new;
      if base != [] {
        var interspersed := new T[2 * |base| - 1](i requires 0 <= i < 2 * |base| - 1 => if i % 2 == 0 then base[i / 2] else default);
        var _ := ComputeRecur(combine, interspersed, 0, interspersed.Length, base);
        nodes := interspersed[..];
      }
    }

    method GetRoot(ghost leaves: seq<T>) returns (root: T)
      requires Over(leaves)
      ensures root == Root(combine, leaves)
    {
      MidPointOfLeaves(|leaves|);
      RootInArray(combine, leaves);
      root := nodes[MidPoint(|nodes|)];
    }

    /** Appends a leaf and recomputes the nodes on its way to the root. */
    method Push(value: T, ghost leaves: seq<T>)
      requires Over(leaves)
      modifies this`nodes
      ensures Over(leaves + [value])
    {
      hide Aligned, Build, Root, LeftCount, NextPow2, ILog2, IsPow2;
      PowOne();
      BuildOne(combine, value);
      ghost var all := leaves + [value];
      nodes := nodes + [default, value];
      var cursor: nat := |nodes| - 1;
      var clamp: nat, width: nat, mask: nat := cursor, 1, |nodes| / 2;
      ghost var a: nat := |leaves|;
      assert all[..|all| - 1] == leaves;
      assert all[a..] == [value] == nodes[2 * a..];
      assert Pushing(combine, all, nodes, width, mask, cursor, clamp, a);
      hide Pushing;
      for fuel := ILog2(|nodes|) downto 0
        invariant fuel == ILog2(2 * mask + 1) && |nodes| == 2 * |all| - 1
        invariant Pushing(combine, all, nodes, width, mask, cursor, clamp, a)
      {
        PushLevel(combine, all, nodes, width, mask, cursor, clamp, a);
        LogStep(mask);
        if mask % 2 == 0 {
          cursor := cursor + width;
        } else {
          cursor := cursor - width;
          var right := if cursor + width < clamp then cursor + width else clamp;
          nodes := nodes[cursor := combine(nodes[cursor - width], nodes[right])];
          clamp := cursor;
          a := a - width;
        }
        width := 2 * width;
        mask := mask / 2;
      }
      LogStep(mask);
      PushDone(combine, all, nodes, width, cursor, clamp, a);
    }

    /** The siblings on the way from the leaf at node position `index` to the root, bottom up. */
    method Proof(index: nat, ghost leaves: seq<T>) returns (proof: seq<T>)
      requires Over(leaves) && index % 2 == 0 && index < |nodes|
      ensures proof == Values(Siblings(combine, leaves, index / 2))
      ensures |proof| <= ILog2(|nodes|)
    {
      hide AtLevel, Build, ILog2;
      ghost var i := index / 2;
      var clampCursor: nat := |nodes| - 1;
      var clamp: nat, clampMask: nat := clampCursor, |nodes| / 2;
      var cursor: nat, width: nat, directionMask: nat := index, 1, (index + 1) / 2;
      proof := [];
      ghost var a: nat, b: nat := i, |leaves| - 1;
      LevelStart(combine, leaves, i);
      for fuel := ILog2(|nodes|) downto 0
        invariant fuel == ILog2(2 * clampMask + 1) && |proof| + fuel <= ILog2(|nodes|)
        invariant AtLevel(combine, leaves, i, width, directionMask, cursor, clampMask, clampCursor, clamp, proof, a, b)
      {
        LogStep(clampMask);
        LevelStep(combine, leaves, i, width, directionMask, cursor, clampMask, clampCursor, clamp, proof, a, b);
        var opposite: nat;
        if directionMask % 2 == 0 {
          cursor := cursor + width;
          opposite := cursor + width;
        } else {
          cursor := cursor - width;
          opposite := cursor - width;
          a := a - width;
        }
        if clampMask % 2 == 0 {
          clampCursor := clampCursor + width;
          if opposite < |nodes| {
            proof := proof + [nodes[opposite]];
          }
        } else {
          clampCursor := clampCursor - width;
          proof := proof + [nodes[if opposite < clamp then opposite else clamp]];
          clamp := clampCursor;
          b := b - width;
        }
        width := 2 * width;
        directionMask := directionMask / 2;
        clampMask := clampMask / 2;
      }
      LogStep(clampMask);
      LevelDone(combine, leaves, i, width, directionMask, cursor, clampCursor, clamp, proof, a, b);
    }
  }

  /** A full block of leaves and the position of its root, seen from the whole array. */
  lemma {:induction false} FullBlock<T>(combine: (T, T) -> T, leaves: seq<T>, b: nat, width: nat)
    requires IsPow2(width) && b + width <= |leaves| && Aligned(width, b)
    ensures Build(combine, leaves)[2 * b..2 * (b + width) - 1] == Build(combine, leaves[b..b + width])
    ensures Build(combine, leaves)[2 * b + width - 1] == Root(combine, leaves[b..b + width])
  {
    hide Aligned, Build, Root, LeftCount, NextPow2, IsPow2;
    var block := leaves[b..b + width];
    BlockInArray(combine, leaves, b, width);
    assert Block(leaves, b, width) == block;
    RootInArray(combine, block);
    NextPow2Unique(width, width);
    SliceAt(Build(combine, leaves), 2 * b, 2 * (b + width) - 1, Build(combine, block), width - 1, 2 * b + width - 1);
  }

  lemma {:induction false} SliceAt<T>(s: seq<T>, lo: nat, hi: nat, t: seq<T>, k: nat, i: nat)
    requires lo <= hi <= |s| && s[lo..hi] == t && k < |t| && i == lo + k
    ensures s[i] == t[k]
  {
  }

  lemma {:induction false} AlignedStep(w: nat, a: nat)
    requires Aligned(w, a) && w <= a
    ensures Aligned(w, a - w)
  {
    ModUnique(w, w, 1, 0);
    Multiples(w, w, a);
  }

  /** Halfway up a push: from position 2a on, the array is that of the leaves from a; before it, the
      array is still that of the old leaves. */
  ghost predicate PushedTo<T>(combine: (T, T) -> T, all: seq<T>, nodes: seq<T>, a: nat) {
    && 1 < |all| && a < |all| && |nodes| == 2 * |all| - 1
    && nodes[2 * a..] == Build(combine, all[a..])
    && forall i :: 0 <= i < 2 * a - 1 ==> nodes[i] == Build(combine, all[..|all| - 1])[i]
  }

  /** The climbing state of `push`: the block from leaf a on is done, the cursor stands at the
      root position of the aligned block of that width, the clamp at the root of what there is. */
  ghost predicate Pushing<T>(combine: (T, T) -> T, all: seq<T>, nodes: seq<T>, width: nat, mask: nat, cursor: nat, clamp: nat, a: nat) {
    && PushedTo(combine, all, nodes, a) && Climbs(|all| - 1, width, mask, a)
    && cursor == 2 * a + width - 1 && clamp == 2 * a + RootPos(|all| - a)
  }

  lemma {:induction false} PushLevel<T>(combine: (T, T) -> T, all: seq<T>, nodes: seq<T>, width: nat, mask: nat, cursor: nat, clamp: nat, a: nat)
    requires Pushing(combine, all, nodes, width, mask, cursor, clamp, a)
    ensures mask % 2 == 0 ==> Pushing(combine, all, nodes, 2 * width, mask / 2, cursor + width, clamp, a)
    ensures mask % 2 == 1 ==>
              && width <= a && 2 * width <= cursor && cursor - width < |nodes|
              && var up := cursor - width;
                 var right := if up + width < clamp then up + width else clamp;
                 right < |nodes|
                 && Pushing(combine, all, nodes[up := combine(nodes[up - width], nodes[right])], 2 * width, mask / 2, up, up, a - width)
  {
    hide Build, PushedTo, RootPos;
    PushedBounds(combine, all, nodes, a);
    ClimbStep(|all| - 1, width, mask, a);
    if mask % 2 == 1 {
      JoinLeft(combine, all, nodes, a, width);
    }
  }

  lemma {:induction false} PushedBounds<T>(combine: (T, T) -> T, all: seq<T>, nodes: seq<T>, a: nat)
    requires PushedTo(combine, all, nodes, a)
    ensures 1 < |all| && a < |all| && |nodes| == 2 * |all| - 1
  {
  }

  lemma {:induction false} PushDone<T>(combine: (T, T) -> T, all: seq<T>, nodes: seq<T>, width: nat, cursor: nat, clamp: nat, a: nat)
    requires Pushing(combine, all, nodes, width, 0, cursor, clamp, a)
    ensures nodes == Build(combine, all)
  {
    hide Build;
    assert nodes[2 * a..] == nodes && all[a..] == all;
  }

  /** The node written when the climb comes from the right: it joins the full block to the left. */
  lemma {:induction false} JoinLeft<T>(combine: (T, T) -> T, all: seq<T>, nodes: seq<T>, a: nat, width: nat)
    requires PushedTo(combine, all, nodes, a) && IsPow2(width) && width <= a && Aligned(width, a) && |all| - a <= width
    ensures RootPos(|all| - a) <= width - 1 && RootPos(|all| - a + width) == 2 * width - 1
    ensures 2 * a + RootPos(|all| - a) < |nodes|
    ensures var node := combine(nodes[2 * a - 1 - width], nodes[2 * a + RootPos(|all| - a)]);
            PushedTo(combine, all, nodes[2 * a - 1 := node], a - width)
  {
    hide Aligned, Build, Root, LeftCount, NextPow2, IsPow2;
    var leaves, b := all[..|all| - 1], a - width;
    var left, right := leaves[b..a], all[a..];
    AlignedStep(width, a);
    FullBlock(combine, leaves, b, width);
    RootInArray(combine, right);
    NextPow2Within(|right|, width);
    BuildJoin(combine, left, right);
    assert all[b..] == left + right;
    assert nodes[2 * a..][RootPos(|right|)] == nodes[2 * a + RootPos(|right|)];
    var node := combine(nodes[2 * a - 1 - width], nodes[2 * a + RootPos(|right|)]);
    assert node == Root(combine, left + right);
    JoinedArray(Build(combine, leaves), nodes, Build(combine, left), node, Build(combine, right), 2 * b, 2 * a - 1);
  }

  lemma {:induction false} JoinedArray<T>(before: seq<T>, nodes: seq<T>, left: seq<T>, node: T, right: seq<T>, lo: nat, mid: nat)
    requires lo <= mid < |nodes| && mid <= |before| && left == before[lo..mid] && right == nodes[mid + 1..]
    requires forall i :: 0 <= i < mid ==> nodes[i] == before[i]
    ensures nodes[mid := node][lo..] == left + [node] + right
  {
  }

  // ------------------------------------------------- the levels of a proof

  lemma {:induction false} SiblingsOfOne<T>(combine: (T, T) -> T, leaves: seq<T>, i: nat)
    requires i < |leaves|
    ensures Values(Siblings(combine, Block(leaves, i, 1), 0)) == []
  {
  }

  /** Where two aligned blocks of the same width lie relative to each other. */
  lemma {:induction false} BlockOrder(n: nat, w: nat, d: nat, a: nat, c: nat, b: nat)
    requires a < n && Climbs(a, w, d, a) && Climbs(n - 1, w, c, b) && a <= b
    ensures a == b || a + w == b || a + 2 * w <= b
    ensures d % 2 == 0 && c % 2 == 1 ==> a + w <= b
    ensures d % 2 == 0 && c % 2 == 0 ==> a == b || a + 2 * w <= b
    ensures d % 2 == 1 && c % 2 == 0 ==> a + w <= b
  {
    MulStep(w, d, c);
    MulStep(w, c, d);
    MulStep(w, d + 1, c);
    assert w * (d + 1) == w * d + w;
  }

  lemma {:induction false} LastBlockRoot(n: nat, w: nat, c: nat, b: nat)
    requires 1 <= n && Climbs(n - 1, w, c, b) && (c % 2 == 1 ==> w <= b)
    ensures RootPos(n - b) <= w - 1
    ensures c % 2 == 1 ==> RootPos(n - (b - w)) == 2 * w - 1
  {
    hide Climbs, IsPow2, NextPow2;
    ClimbsWithin(n - 1, w, c, b);
    NextPow2Within(n - b, w);
    if c % 2 == 1 {
      DoublePow2(w);
      NextPow2Unique(n - b + w, 2 * w);
    }
  }

  lemma {:induction false} ClimbsWithin(i: nat, width: nat, mask: nat, a: nat)
    requires Climbs(i, width, mask, a)
    ensures IsPow2(width) && a <= i < a + width
  {
  }

  /** The siblings seen from twice as wide a block: one more when there is a neighbour. */
  lemma {:induction false} SiblingStep<T>(combine: (T, T) -> T, leaves: seq<T>, i: nat, w: nat, d: nat, a: nat)
    requires Climbs(i, w, d, a) && i < |leaves| && (d % 2 == 1 ==> w <= a)
    ensures var path := Values(Siblings(combine, Block(leaves, a, w), i - a));
            if d % 2 == 1 then
              Values(Siblings(combine, Block(leaves, a - w, 2 * w), i - (a - w))) == path + [Root(combine, leaves[a - w..a])]
            else if a + w < |leaves| then
              Values(Siblings(combine, Block(leaves, a, 2 * w), i - a)) == path + [Root(combine, Block(leaves, a + w, w))]
            else Block(leaves, a, 2 * w) == Block(leaves, a, w)
  {
    hide Root, LeftCount, NextPow2, IsPow2, Siblings;
    if d % 2 == 1 {
      SiblingsJoin(combine, leaves[a - w..a], Block(leaves, a, w), i - (a - w));
      assert leaves[a - w..a] + Block(leaves, a, w) == Block(leaves, a - w, 2 * w);
    } else if a + w < |leaves| {
      SiblingsJoin(combine, Block(leaves, a, w), Block(leaves, a + w, w), i - a);
      assert Block(leaves, a, w) + Block(leaves, a + w, w) == Block(leaves, a, 2 * w);
    }
  }

  lemma {:induction false} SiblingsJoin<T>(combine: (T, T) -> T, left: seq<T>, right: seq<T>, j: nat)
    requires IsPow2(|left|) && 1 <= |right| <= |left| && j < |left| + |right|
    ensures Values(Siblings(combine, left + right, j)) ==
              if j < |left| then Values(Siblings(combine, left, j)) + [Root(combine, right)]
              else Values(Siblings(combine, right, j - |left|)) + [Root(combine, left)]
  {
    hide Root, NextPow2, IsPow2;
    LeftCountUnique(|left| + |right|, |left|);
    assert (left + right)[..|left|] == left && (left + right)[|left|..] == right;
  }

  ghost predicate SiblingsStored<T>(combine: (T, T) -> T, leaves: seq<T>, w: nat, a: nat, b: nat, left: bool)
    requires 0 < w && a <= b < |leaves| && (left ==> w <= a)
  {
    var nodes := Build(combine, leaves);
    && (left ==> nodes[2 * a - w - 1] == Root(combine, leaves[a - w..a]))
    && (a + 2 * w <= b ==> nodes[2 * a + 3 * w - 1] == Root(combine, Block(leaves, a + w, w)))
    && 2 * b + RootPos(|leaves| - b) < |nodes|
    && nodes[2 * b + RootPos(|leaves| - b)] == Root(combine, Block(leaves, b, w))
  }

  /** Where the neighbour's value is stored: full blocks at their own place, the last block at the clamp. */
  lemma {:induction false} SiblingNodes<T>(combine: (T, T) -> T, leaves: seq<T>, w: nat, d: nat, a: nat, c: nat, b: nat)
    requires a < |leaves| && Climbs(a, w, d, a) && Climbs(|leaves| - 1, w, c, b) && a <= b
    requires d % 2 == 1 ==> w <= a
    ensures SiblingsStored(combine, leaves, w, a, b, d % 2 == 1)
  {
    hide Aligned, Build, Root, LeftCount, NextPow2, IsPow2;
    AlignedMultiple(w, d);
    AlignedMultiple(w, c);
    if d % 2 == 1 {
      AlignedStep(w, a);
      FullBlock(combine, leaves, a - w, w);
    }
    if a + 2 * w <= b {
      AlignedMultiple(w, d + 1);
      assert (d + 1) * w == a + w;
      FullBlock(combine, leaves, a + w, w);
    }
    hide Climbs;
    LastBlockStored(combine, leaves, w, b);
  }

  lemma {:induction false} LastBlockStored<T>(combine: (T, T) -> T, leaves: seq<T>, w: nat, b: nat)
    requires IsPow2(w) && Aligned(w, b) && b < |leaves| <= b + w
    ensures 2 * b + RootPos(|leaves| - b) < |Build(combine, leaves)|
    ensures Build(combine, leaves)[2 * b + RootPos(|leaves| - b)] == Root(combine, Block(leaves, b, w))
  {
    hide Aligned, Build, Root, LeftCount, NextPow2, IsPow2;
    BlockInArray(combine, leaves, b, w);
    var block := Block(leaves, b, w);
    RootInArray(combine, block);
    SliceAt(Build(combine, leaves), 2 * b, 2 * (b + |block|) - 1, Build(combine, block), RootPos(|block|), 2 * b + RootPos(|block|));
  }

  /** The loop state of a proof at block width `width`: the block that holds leaf i, the block that
      holds the last leaf, and the siblings collected inside the former. */
  ghost predicate AtLevel<T>(combine: (T, T) -> T, leaves: seq<T>, i: nat, width: nat, directionMask: nat, cursor: nat,
                             clampMask: nat, clampCursor: nat, clamp: nat, proof: seq<T>, a: nat, b: nat)
  {
    && a <= i < |leaves| && i < a + width && a <= b < |leaves| <= b + width
    && Climbs(i, width, directionMask, a) && Climbs(|leaves| - 1, width, clampMask, b)
    && cursor == 2 * a + width - 1 && clampCursor == 2 * b + width - 1
    && clamp == 2 * b + RootPos(|leaves| - b)
    && proof == Values(Siblings(combine, Block(leaves, a, width), i - a))
  }

  lemma {:induction false} LevelStart<T>(combine: (T, T) -> T, leaves: seq<T>, i: nat)
    requires i < |leaves|
    ensures AtLevel(combine, leaves, i, 1, i, 2 * i, |leaves| - 1, 2 * |leaves| - 2, 2 * |leaves| - 2, [], i, |leaves| - 1)
  {
    hide Siblings, Values, NextPow2;
    SiblingsOfOne(combine, leaves, i);
    BuildOne(combine, leaves[i]);
  }

  lemma {:induction false} LevelDone<T>(combine: (T, T) -> T, leaves: seq<T>, i: nat, width: nat, directionMask: nat, cursor: nat,
                                        clampCursor: nat, clamp: nat, proof: seq<T>, a: nat, b: nat)
    requires AtLevel(combine, leaves, i, width, directionMask, cursor, 0, clampCursor, clamp, proof, a, b)
    ensures proof == Values(Siblings(combine, leaves, i))
  {
    hide Siblings, Values, NextPow2, IsPow2;
    assert a == b == 0;
    assert Block(leaves, 0, width) == leaves;
  }

  lemma {:induction false} LevelStep<T>(combine: (T, T) -> T, leaves: seq<T>, i: nat, width: nat, directionMask: nat, cursor: nat,
                                        clampMask: nat, clampCursor: nat, clamp: nat, proof: seq<T>, a: nat, b: nat)
    requires AtLevel(combine, leaves, i, width, directionMask, cursor, clampMask, clampCursor, clamp, proof, a, b)
    ensures directionMask % 2 == 1 ==> 2 * width <= cursor && width <= a
    ensures clampMask % 2 == 1 ==> width <= clampCursor && width <= b
    ensures var nodes := Build(combine, leaves);
            var left, lastLeft := directionMask % 2 == 1, clampMask % 2 == 1;
            var opposite := if left then cursor - 2 * width else cursor + 2 * width;
            var up, a' := if left then cursor - width else cursor + width, if left then a - width else a;
            var at := if opposite < clamp then opposite else clamp;
            if lastLeft then
              && at < |nodes|
              && AtLevel(combine, leaves, i, 2 * width, directionMask / 2, up, clampMask / 2,
                         clampCursor - width, clampCursor - width, proof + [nodes[at]], a', b - width)
            else
              AtLevel(combine, leaves, i, 2 * width, directionMask / 2, up, clampMask / 2,
                      clampCursor + width, clamp, if opposite < |nodes| then proof + [nodes[opposite]] else proof, a', b)
  {
    hide Climbs, Aligned, Build, Root, RootPos, Block, LeftCount, NextPow2, IsPow2, Siblings, Values;
    ClimbStep(i, width, directionMask, a);
    ClimbStep(|leaves| - 1, width, clampMask, b);
    SiblingStep(combine, leaves, i, width, directionMask, a);
    LastBlockRoot(|leaves|, width, clampMask, b);
    ClimbsFromStart(i, width, directionMask, a);
    BlockOrder(|leaves|, width, directionMask, a, clampMask, b);
    SiblingNodes(combine, leaves, width, directionMask, a, clampMask, b);
    OppositeNode(combine, leaves, width, a, b, directionMask % 2 == 1, clampMask % 2 == 1, cursor, clamp);
  }

  /** The block next to the one at a: to the left, or to the right if there is one. */
  ghost function Neighbour<T>(leaves: seq<T>, a: nat, w: nat, left: bool): (r: seq<T>)
    requires a < |leaves| && 0 < w && (left ==> w <= a)
  {
    if left then leaves[a - w..a] else if a + w < |leaves| then Block(leaves, a + w, w) else []
  }

  /** The node the clamped lookup hits is the neighbour's root. */
  lemma {:induction false} OppositeNode<T>(combine: (T, T) -> T, leaves: seq<T>, w: nat, a: nat, b: nat,
                                           left: bool, lastLeft: bool, cursor: nat, clamp: nat)
    requires 0 < w && a <= b < |leaves| <= b + w && (left ==> w <= a)
    requires a == b || a + w == b || a + 2 * w <= b
    requires !left && lastLeft ==> a + w <= b
    requires !left && !lastLeft ==> a == b || a + 2 * w <= b
    requires cursor == 2 * a + w - 1 && clamp == 2 * b + RootPos(|leaves| - b) && RootPos(|leaves| - b) <= w - 1
    requires SiblingsStored(combine, leaves, w, a, b, left)
    ensures var nodes := Build(combine, leaves);
            var opposite := if left then cursor - 2 * w else cursor + 2 * w;
            var at := if opposite < clamp then opposite else clamp;
            var neighbour := Neighbour(leaves, a, w, left);
            && (lastLeft ==> neighbour != [] && at < |nodes| && nodes[at] == Root(combine, neighbour))
            && (!lastLeft ==> (neighbour != [] <==> opposite < |nodes|))
            && (!lastLeft && neighbour != [] ==> nodes[opposite] == Root(combine, neighbour))
  {
    hide Build, Root, RootPos;
  }

  lemma {:induction false} ClimbsFromStart(i: nat, width: nat, mask: nat, a: nat)
    requires Climbs(i, width, mask, a)
    ensures Climbs(a, width, mask, a)
  {
  }

  lemma {:induction false} AlignedMultiple(w: nat, d: nat)
    requires 0 < w
    ensures Aligned(w, d * w)
  {
    ModUnique(d * w, w, d, 0);
  }

  /** Building by pushes gives the same array, and so the same root, as building from the base. */
  method CollectByPush<T>(combine: (T, T) -> T, default: T, base: seq<T>) returns (tree: Tree<T>)
    requires base != []
    ensures fresh(tree) && tree.combine == combine && tree.Over(base)
  {
    hide Build, Root;
    tree := new Tree(combine, default, base[0]);
    assert base[..1] == [base[0]];
    for i := 1 to |base|
      invariant fresh(tree) && tree.combine == combine && tree.Over(base[..i])
    {
      tree.Push(base[i], base[..i]);
      assert base[..i] + [base[i]] == base[..i + 1];
    }
    assert base[..|base|] == base;
  }
}
