/** XOR distance between identifiers, and the members of a set in order of distance. */
module Distance {
  import opened Lists

  function Xor(a: nat, b: nat): nat
    decreases a + b
  {
    if a == 0 then b else if b == 0 then a
    else 2 * Xor(a / 2, b / 2) + (a % 2 + b % 2) % 2
  }

  lemma {:induction false} XorUndone(a: nat, b: nat)
    ensures Xor(Xor(a, b), b) == a
    decreases a + b
  {
    if b == 0 {
      assert Xor(Xor(a, b), b) == Xor(a, b) == a;
    } else if a == 0 {
      XorSelf(b);
    } else {
      XorUndone(a / 2, b / 2);
      XorHalves(a, b);
      XorHalves(Xor(a, b), b);
    }
  }

  lemma {:induction false} XorSelf(a: nat)
    ensures Xor(a, a) == 0
  {
    if a == 0 {
    } else {
      XorSelf(a / 2);
    }
  }

  /** Exclusive or, bit by bit from the lowest: together with the distance of nothing from itself this is all there is to it. */
  lemma {:induction false} XorHalves(a: nat, b: nat)
    ensures Xor(a, b) / 2 == Xor(a / 2, b / 2)
    ensures Xor(a, b) % 2 == (a % 2 + b % 2) % 2
    ensures Xor(a, b) == 2 * Xor(a / 2, b / 2) + (a % 2 + b % 2) % 2
  {
  }

  /** Two identifiers are never equally far from a key. */
  lemma {:induction false} DistanceInjective(a: nat, b: nat, key: nat)
    requires Xor(a, key) == Xor(b, key)
    ensures a == b
  {
    XorUndone(a, key);
    XorUndone(b, key);
  }

  predicate Nearer(a: nat, b: nat, key: nat) { Xor(a, key) < Xor(b, key) }

  predicate Increasing(s: seq<nat>, key: nat) {
    forall i, j :: 0 <= i < j < |s| ==> Nearer(s[i], s[j], key)
  }

  /** s lists, nearest first, the k members of ids that are nearest to the key; all of them
      when there are fewer. */
  ghost predicate IsClosest(s: seq<nat>, ids: set<nat>, key: nat, k: nat) {
    && Increasing(s, key) && Elements(s) <= ids
    && |s| == (if |ids| < k then |ids| else k)
    && (forall x, i :: x in ids && x !in s && 0 <= i < |s| ==> Nearer(s[i], x, key))
  }

  // ------------------------------------------------------------------ sorting

  /** Sorting by distance, as the library's sort does it: the order of equal keys never shows,
      since no two identifiers are equally far. */
  function SortByDistance(s: seq<nat>, key: nat): (r: seq<nat>)
    ensures Elements(r) == Elements(s) && |r| == |s|
  {
    if s == [] then [] else
      var rest := SortByDistance(s[1..], key);
      var r := InsertByDistance(s[0], rest, key);
      assert Elements(s) == {s[0]} + Elements(s[1..]);
      r
  }

  function InsertByDistance(x: nat, s: seq<nat>, key: nat): (r: seq<nat>)
    ensures Elements(r) == {x} + Elements(s) && |r| == |s| + 1
  {
    if s == [] || !Nearer(s[0], x, key) then [x] + s
    else
      var rest := InsertByDistance(x, s[1..], key);
      assert Elements([s[0]] + rest) == {s[0]} + Elements(rest);
      assert Elements(s) == {s[0]} + Elements(s[1..]);
      [s[0]] + rest
  }

  lemma {:induction false} InsertKeepsOrder(x: nat, s: seq<nat>, key: nat)
    requires Increasing(s, key) && x !in s
    ensures Increasing(InsertByDistance(x, s, key), key)
  {
    hide Xor;
    var r := InsertByDistance(x, s, key);
    if s == [] {
    } else if !Nearer(s[0], x, key) {
      assert Nearer(x, s[0], key) by { if Xor(x, key) == Xor(s[0], key) { DistanceInjective(x, s[0], key); } }
      forall i, j | 0 <= i < j < |r| ensures Nearer(r[i], r[j], key) {
        if i == 0 && j > 1 { assert Nearer(s[0], s[j - 1], key); }
        if i > 0 { assert Nearer(s[i - 1], s[j - 1], key); }
      }
    } else {
      var t := s[1..];
      forall i, j | 0 <= i < j < |t| ensures Nearer(t[i], t[j], key) {
        assert Nearer(s[i + 1], s[j + 1], key);
      }
      InsertKeepsOrder(x, t, key);
      var rest := InsertByDistance(x, t, key);
      forall i, j | 0 <= i < j < |r| ensures Nearer(r[i], r[j], key) {
        if i == 0 {
          assert r[j] == rest[j - 1] && rest[j - 1] in Elements(rest);
          if r[j] != x {
            var m :| 0 <= m < |t| && t[m] == r[j];
            assert Nearer(s[0], s[m + 1], key);
          }
        } else {
          assert Nearer(rest[i - 1], rest[j - 1], key);
        }
      }
    }
  }

  lemma {:induction false} SortIsIncreasing(s: seq<nat>, key: nat)
    requires Distinct(s)
    ensures Increasing(SortByDistance(s, key), key)
  {
    hide Xor, InsertByDistance;
    if s == [] {
    } else {
      SortIsIncreasing(s[1..], key);
      var rest := SortByDistance(s[1..], key);
      assert s[0] !in rest by {
        assert s[0] in Elements(rest) <==> s[0] in Elements(s[1..]);
        assert forall j :: 0 <= j < |s[1..]| ==> s[1..][j] == s[j + 1] != s[0];
      }
      InsertKeepsOrder(s[0], rest, key);
    }
  }

  /** Sorting distinct identifiers lists all of them, nearest first. */
  lemma {:induction false} SortIsClosest(s: seq<nat>, key: nat, k: nat)
    requires Distinct(s) && |s| <= k
    ensures IsClosest(SortByDistance(s, key), Elements(s), key, k)
  {
    hide Xor, SortByDistance, Increasing;
    SortIsIncreasing(s, key);
    DistinctSize(s);
    forall x | x in Elements(s) ensures x in SortByDistance(s, key) {
      assert x in Elements(SortByDistance(s, key));
    }
  }

  // -------------------------------------------------------------------- ranks

  /** The members of ids nearer to the key than x. */
  ghost function Before(ids: set<nat>, x: nat, key: nat): set<nat> {
    set y | y in ids && Nearer(y, x, key)
  }

  lemma {:induction false} ElementsOfIncreasing(s: seq<nat>, key: nat, i: nat)
    requires Increasing(s, key) && i <= |s|
    ensures |Elements(s[..i])| == i
  {
    if i == 0 {
    } else {
      ElementsOfIncreasing(s, key, i - 1);
      var e := s[i - 1];
      assert s[..i] == s[..i - 1] + [e];
      assert Elements(s[..i]) == Elements(s[..i - 1]) + {e};
      assert e !in Elements(s[..i - 1]) by {
        forall j | 0 <= j < i - 1 ensures s[j] != e {
          assert Nearer(s[j], s[i - 1], key);
        }
      }
    }
  }

  /** The member at place i of the list is the one with exactly i nearer members. */
  lemma {:induction false} PlaceIsRank(s: seq<nat>, ids: set<nat>, key: nat, k: nat, i: nat)
    requires IsClosest(s, ids, key, k) && i < |s|
    ensures s[i] in ids && |Before(ids, s[i], key)| == i
  {
    hide Xor;
    assert s[i] in Elements(s);
    forall y ensures y in Before(ids, s[i], key) <==> y in Elements(s[..i]) {
      if y in ids && Nearer(y, s[i], key) {
        assert y in s;
        var j :| 0 <= j < |s| && s[j] == y;
        assert s[..i][j] == y;
      }
      if y in Elements(s[..i]) {
        var j :| 0 <= j < i && s[j] == y;
        assert Nearer(s[j], s[i], key);
        assert y in Elements(s);
      }
    }
    assert Before(ids, s[i], key) == Elements(s[..i]);
    ElementsOfIncreasing(s, key, i);
  }

  lemma {:induction false} RankIsUnique(ids: set<nat>, x: nat, y: nat, key: nat)
    requires x in ids && y in ids
    requires |Before(ids, x, key)| == |Before(ids, y, key)|
    ensures x == y
  {
    hide Xor;
    if Xor(x, key) == Xor(y, key) {
      DistanceInjective(x, y, key);
    } else if Nearer(x, y, key) {
      RankGrows(ids, x, y, key);
    } else {
      RankGrows(ids, y, x, key);
    }
  }

  lemma {:induction false} RankGrows(ids: set<nat>, x: nat, y: nat, key: nat)
    requires x in ids && Nearer(x, y, key)
    ensures |Before(ids, x, key)| < |Before(ids, y, key)|
  {
    hide Xor;
    SubsetSize(Before(ids, x, key) + {x}, Before(ids, y, key));
  }

  lemma {:induction false} SubsetSize(a: set<nat>, b: set<nat>)
    requires a <= b
    ensures |a| <= |b|
  {
    assert b == a + (b - a);
  }

  /** The list of closest members depends on the set alone. */
  lemma {:induction false} ClosestIsUnique(s: seq<nat>, t: seq<nat>, ids: set<nat>, key: nat, k: nat)
    requires IsClosest(s, ids, key, k) && IsClosest(t, ids, key, k)
    ensures s == t
  {
    hide Xor, Before;
    forall i | 0 <= i < |s| ensures s[i] == t[i] {
      PlaceIsRank(s, ids, key, k, i);
      PlaceIsRank(t, ids, key, k, i);
      RankIsUnique(ids, s[i], t[i], key);
    }
  }

  /** A member that is not among the closest can leave without changing them. */
  lemma {:induction false} RemovalOutside(s: seq<nat>, ids: set<nat>, key: nat, k: nat, x: nat)
    requires IsClosest(s, ids, key, k) && x !in s
    ensures IsClosest(s, ids - {x}, key, k)
  {
    hide Xor;
    if x in ids {
      assert x !in Elements(s);
      ElementsOfIncreasing(s, key, |s|);
      assert s[..|s|] == s;
      SubsetSize(Elements(s), ids - {x});
    } else {
      assert ids - {x} == ids;
    }
  }

  /** A newcomer farther away than all of a full list does not change it either. */
  lemma {:induction false} ArrivalOutside(s: seq<nat>, ids: set<nat>, key: nat, k: nat, x: nat)
    requires IsClosest(s, ids, key, k) && |s| == k && 0 < k
    requires Nearer(s[k - 1], x, key)
    ensures IsClosest(s, ids + {x}, key, k)
  {
    hide Xor;
    SubsetSize(ids, ids + {x});
    forall y, i | y in ids + {x} && y !in s && 0 <= i < |s| ensures Nearer(s[i], y, key) {
      if y == x && i < k - 1 { assert Nearer(s[i], s[k - 1], key); }
    }
  }

  /** A nearer newcomer takes its place in order and pushes out the last of a full list. */
  lemma {:induction false} ArrivalInside(s: seq<nat>, ids: set<nat>, key: nat, k: nat, x: nat, p: nat)
    requires IsClosest(s, ids, key, k) && |s| == k && 0 < k && x !in ids
    requires p <= k - 1 && Nearer(x, s[k - 1], key)
    requires forall i :: 0 <= i < p ==> Nearer(s[i], x, key)
    requires forall i :: p <= i < k ==> Nearer(x, s[i], key)
    ensures IsClosest(s[..p] + [x] + s[p..k - 1], ids + {x}, key, k)
  {
    hide Xor;
    var t := s[..p] + [x] + s[p..k - 1];
    SubsetSize(ids, ids + {x});
    forall i, j | 0 <= i < j < |t| ensures Nearer(t[i], t[j], key) {
      var a, b := if i <= p then i else i - 1, if j <= p then j else j - 1;
      if i != p && j != p { assert t[i] == s[a] && t[j] == s[b] && Nearer(s[a], s[b], key); }
    }
    forall y | y in Elements(t) ensures y in ids + {x} {
      var i :| 0 <= i < |t| && t[i] == y;
      if i != p { assert y in s && y in Elements(s); }
    }
    forall y, i | y in ids + {x} && y !in t && 0 <= i < |t| ensures Nearer(t[i], y, key) {
      assert t[p] == x;
      if y == s[k - 1] {
        if i != p { var a := if i < p then i else i - 1; assert t[i] == s[a] && Nearer(s[a], s[k - 1], key); }
      } else {
        NotShifted(s, p, x, y);
        if i != p { var a := if i < p then i else i - 1; assert t[i] == s[a]; }
        assert Nearer(s[k - 1], y, key);
      }
    }
  }

  lemma {:induction false} NotShifted(s: seq<nat>, p: nat, x: nat, y: nat)
    requires p < |s| && y !in s[..p] + [x] + s[p..|s| - 1] && y != s[|s| - 1]
    ensures y !in s
  {
    var t := s[..p] + [x] + s[p..|s| - 1];
    forall i | 0 <= i < |s| ensures s[i] != y {
      if i < p { assert t[i] == s[i]; } else if i < |s| - 1 { assert t[i + 1] == s[i]; }
    }
  }
}
