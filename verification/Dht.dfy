/** The routing table: routes sorted by identifier, and the peers nearest to a key, on which
    every replica must agree. */
module Dht {
  import opened Wrappers
  import opened Lists
  import opened Distance

  datatype Route<A> = Route(id: nat, addr: A)

  ghost predicate Sorted<A>(rs: seq<Route<A>>) {
    forall i, j :: 0 <= i < j < |rs| ==> rs[i].id < rs[j].id
  }

  /** The table as a map from identifiers to addresses. */
  ghost function Table<A>(rs: seq<Route<A>>): map<nat, A>
    requires Sorted(rs)
  {
    map i | 0 <= i < |rs| :: rs[i].id := rs[i].addr
  }

  function Ids<A>(rs: seq<Route<A>>): (s: seq<nat>)
    ensures |s| == |rs| && forall i :: 0 <= i < |rs| ==> s[i] == rs[i].id
  {
    seq(|rs|, i requires 0 <= i < |rs| => rs[i].id)
  }

  lemma {:induction false} NoRoutes<A>(rs: seq<Route<A>>)
    requires Sorted(rs)
    ensures Table(rs) == map[] <==> rs == []
  {
    if rs != [] {
      assert rs[0].id in Table(rs);
    }
  }

  lemma {:induction false} TableLookup<A>(rs: seq<Route<A>>, i: nat)
    requires Sorted(rs) && i < |rs|
    ensures rs[i].id in Table(rs) && Table(rs)[rs[i].id] == rs[i].addr
  {
  }

  ghost predicate At<A>(rs: seq<Route<A>>, i: int, k: nat) {
    0 <= i < |rs| && rs[i].id == k
  }

  /** m holds every route of rs, and nothing else. */
  lemma {:induction false} TableIs<A>(rs: seq<Route<A>>, m: map<nat, A>)
    requires Sorted(rs)
    requires forall i :: 0 <= i < |rs| ==> rs[i].id in m && m[rs[i].id] == rs[i].addr
    requires forall k :: k in m ==> exists i :: At(rs, i, k)
    ensures Table(rs) == m
  {
    forall k | k in m ensures k in Table(rs) {
      var i :| At(rs, i, k);
      TableLookup(rs, i);
    }
  }

  lemma {:induction false} TableKey<A>(rs: seq<Route<A>>, k: nat) returns (i: nat)
    requires Sorted(rs) && k in Table(rs)
    ensures At(rs, i, k)
  {
    i :| 0 <= i < |rs| && rs[i].id == k;
  }

  /** The order of a sequence around a new element at p. */
  lemma {:induction false} InsertKeepsSorted<A>(rs: seq<Route<A>>, p: nat, r: Route<A>)
    requires Sorted(rs) && p <= |rs|
    requires forall i :: 0 <= i < p ==> rs[i].id < r.id
    requires forall i :: p <= i < |rs| ==> r.id < rs[i].id
    ensures Sorted(rs[..p] + [r] + rs[p..])
  {
  }

  lemma {:induction false} InsertAt<A>(rs: seq<Route<A>>, p: nat, r: Route<A>)
    requires Sorted(rs) && p <= |rs|
    requires forall i :: 0 <= i < p ==> rs[i].id < r.id
    requires forall i :: p <= i < |rs| ==> r.id < rs[i].id
    ensures var t := rs[..p] + [r] + rs[p..]; Sorted(t) && Table(t) == Table(rs)[r.id := r.addr]
  {
    InsertKeepsSorted(rs, p, r);
    hide Sorted, Table;
    var t := rs[..p] + [r] + rs[p..];
    var m := Table(rs)[r.id := r.addr];
    forall i | 0 <= i < |t| ensures t[i].id in m && m[t[i].id] == t[i].addr {
      if i != p {
        var j := if i < p then i else i - 1;
        TableLookup(rs, j);
        assert t[i] == rs[j];
      }
    }
    forall k | k in m ensures exists i :: At(t, i, k) {
      if k == r.id {
        assert At(t, p, k);
      } else {
        var i := TableKey(rs, k);
        assert At(t, if i < p then i else i + 1, k);
      }
    }
    TableIs(t, m);
  }

  lemma {:induction false} ReplaceAt<A>(rs: seq<Route<A>>, p: nat, r: Route<A>)
    requires Sorted(rs) && p < |rs| && rs[p].id == r.id
    ensures Sorted(rs[p := r]) && Table(rs[p := r]) == Table(rs)[r.id := r.addr]
  {
    var t := rs[p := r];
    assert Sorted(t);
    hide Sorted, Table;
    var m := Table(rs)[r.id := r.addr];
    forall i | 0 <= i < |t| ensures t[i].id in m && m[t[i].id] == t[i].addr {
      if i != p {
        TableLookup(rs, i);
        Different(rs, i, p);
      }
    }
    forall k | k in m ensures exists i :: At(t, i, k) {
      if k == r.id {
        assert At(t, p, k);
      } else {
        var i := TableKey(rs, k);
        assert At(t, i, k);
      }
    }
    TableIs(t, m);
  }

  lemma {:induction false} Different<A>(rs: seq<Route<A>>, i: nat, j: nat)
    requires Sorted(rs) && i < |rs| && j < |rs| && i != j
    ensures rs[i].id != rs[j].id
  {
    if i < j { assert rs[i].id < rs[j].id; } else { assert rs[j].id < rs[i].id; }
  }

  lemma {:induction false} RemoveKeepsSorted<A>(rs: seq<Route<A>>, p: nat)
    requires Sorted(rs) && p < |rs|
    ensures Sorted(rs[..p] + rs[p + 1..])
  {
  }

  lemma {:induction false} RemoveAt<A>(rs: seq<Route<A>>, p: nat)
    requires Sorted(rs) && p < |rs|
    ensures var t := rs[..p] + rs[p + 1..]; Sorted(t) && Table(t) == Table(rs) - {rs[p].id}
  {
    RemoveKeepsSorted(rs, p);
    hide Sorted, Table;
    var t := rs[..p] + rs[p + 1..];
    var m := Table(rs) - {rs[p].id};
    forall i | 0 <= i < |t| ensures t[i].id in m && m[t[i].id] == t[i].addr {
      var j := if i < p then i else i + 1;
      assert t[i] == rs[j];
      Different(rs, j, p);
      TableLookup(rs, j);
    }
    forall k | k in m ensures exists i :: At(t, i, k) {
      var i := TableKey(rs, k);
      var j := if i < p then i else i - 1;
      assert t[j] == rs[i];
      assert At(t, j, k);
    }
    TableIs(t, m);
  }

  lemma {:induction false} TableKeys<A>(rs: seq<Route<A>>)
    requires Sorted(rs)
    ensures Table(rs).Keys == Elements(Ids(rs)) && Distinct(Ids(rs))
  {
    forall k | k in Elements(Ids(rs)) ensures k in Table(rs) {
      var i :| 0 <= i < |rs| && Ids(rs)[i] == k;
      TableLookup(rs, i);
    }
    forall k | k in Table(rs) ensures k in Ids(rs) {
      var i :| 0 <= i < |rs| && rs[i].id == k;
      assert Ids(rs)[i] == k;
    }
  }

  /** The place where an absent identifier belongs. */
  ghost predicate Belongs<A>(rs: seq<Route<A>>, index: nat, id: nat) {
    && index <= |rs|
    && (forall i :: 0 <= i < index ==> rs[i].id < id)
    && (forall i :: index <= i < |rs| ==> id < rs[i].id)
  }

  class RoutingTable<A> {
    var routes: seq<Route<A>>

    ghost predicate Valid() reads this { Sorted(routes) }

    ghost function Contents(): map<nat, A>
      requires Valid()
      reads this
    {
      Table(routes)
    }

    constructor ()
      ensures Valid() && Contents() == map[]
    {
      routes := [];
    }

    /** Fills an empty table. The result is a proper table exactly when no identifier occurs
        twice: repeated ones are kept side by side. */
    method BulkInsert(given: seq<Route<A>>)
      requires routes == []
      modifies this
      ensures multiset(routes) == multiset(given)
      ensures forall i, j :: 0 <= i < j < |routes| ==> routes[i].id <= routes[j].id
      ensures Valid() <==> Distinct(Ids(given))
    {
      routes := SortById(given);
      SortByIdOrders(given);
      SortByIdDistinct(given);
    }

    /** The library's binary search: the place of an identifier, or where it belongs. */
    method Search(id: nat) returns (found: bool, index: nat)
      requires Valid()
      ensures if found then index < |routes| && routes[index].id == id
              else Belongs(routes, index, id)
      ensures found <==> id in Contents()
    {
      var lo, hi := 0, |routes|;
      while lo < hi
        invariant 0 <= lo <= hi <= |routes|
        invariant forall i :: 0 <= i < lo ==> routes[i].id < id
        invariant forall i :: hi <= i < |routes| ==> id < routes[i].id
      {
        var mid := (lo + hi) / 2;
        if routes[mid].id == id {
          TableLookup(routes, mid);
          return true, mid;
        } else if routes[mid].id < id {
          lo := mid + 1;
        } else {
          hi := mid;
        }
      }
      return false, lo;
    }

    method Insert(route: Route<A>)
      requires Valid()
      modifies this
      ensures Valid() && Contents() == old(Contents())[route.id := route.addr]
    {
      var found, index := Search(route.id);
      if found {
        ReplaceAt(routes, index, route);
        routes := routes[index := route];
      } else {
        InsertAt(routes, index, route);
        routes := routes[..index] + [route] + routes[index..];
      }
    }

    method Remove(id: nat) returns (r: Option<Route<A>>)
      requires Valid()
      modifies this
      ensures Valid() && Contents() == old(Contents()) - {id}
      ensures r == if id in old(Contents()) then Some(Route(id, old(Contents())[id])) else None
    {
      var found, index := Search(id);
      if !found {
        return None;
      }
      RemoveAt(routes, index);
      TableLookup(routes, index);
      r := Some(routes[index]);
      routes := routes[..index] + routes[index + 1..];
    }

    method Get(id: nat) returns (r: Option<A>)
      requires Valid()
      ensures r == if id in Contents() then Some(Contents()[id]) else None
    {
      var found, index := Search(id);
      if !found { return None; }
      TableLookup(routes, index);
      r := Some(routes[index].addr);
    }

    /** The `count` identifiers of smallest XOR distance to the key, nearest first: by
        `ClosestIsUnique` a function of the set of identifiers alone. With a count of zero there is no
        last one to compare with, and a table that is not empty makes it panic. */
    method Closest(key: nat, count: nat) returns (slots: seq<nat>, panicked: bool)
      requires Valid()
      ensures panicked <==> count == 0 && Contents() != map[]
      ensures !panicked ==> IsClosest(slots, Contents().Keys, key, count)
      ensures !panicked ==> |slots| == if |Contents()| < count then |Contents()| else count
      ensures !panicked ==> forall i, j :: 0 <= i < j < |slots| ==> Xor(slots[i], key) < Xor(slots[j], key)
      ensures !panicked ==> forall i :: 0 <= i < |slots| ==> slots[i] in Contents()
      ensures !panicked ==> forall id, i :: id in Contents() && id !in slots && 0 <= i < |slots| ==> Xor(slots[i], key) < Xor(id, key)
    {
      hide IsClosest, Xor, Table;
      var n := if |routes| < count then |routes| else count;
      var ids := Ids(routes);
      TableKeys(routes);
      slots := SortByDistance(ids[..n], key);
      SortIsClosest(ids[..n], key, count);
      var i := n;
      panicked := false;
      NoRoutes(routes);
      while i < |ids|
        invariant n <= i <= |ids| && (i < |ids| ==> n == count)
        invariant count == 0 ==> i == 0
        invariant IsClosest(slots, Elements(ids[..i]), key, count)
      {
        var id := ids[i];
        ClosestSize(slots, ids[..i], key, count);
        if |slots| == 0 {
          return slots, true;
        }
        NewElement(ids, i);
        var last := slots[|slots| - 1];
        if Xor(id, key) >= Xor(last, key) {
          FartherThan(slots, Elements(ids[..i]), key, count, id);
          ArrivalOutside(slots, Elements(ids[..i]), key, count, id);
        } else {
          var p := PartitionPoint(slots, Elements(ids[..i]), key, count, id);
          ArrivalInside(slots, Elements(ids[..i]), key, count, id, p);
          ghost var was := slots;
          slots := slots[..|slots| - 1];
          assert slots[..p] == was[..p] && slots[p..] == was[p..|was| - 1];
          slots := slots[..p] + [id] + slots[p..];
        }
        i := i + 1;
      }
      assert ids[..i] == ids;
      ClosestMeans(slots, Contents(), key, count);
    }
  }

  /** What being closest means, distance by distance. */
  lemma {:induction false} ClosestMeans<A>(s: seq<nat>, m: map<nat, A>, key: nat, k: nat)
    requires IsClosest(s, m.Keys, key, k)
    ensures |s| == if |m| < k then |m| else k
    ensures forall i, j :: 0 <= i < j < |s| ==> Xor(s[i], key) < Xor(s[j], key)
    ensures forall i :: 0 <= i < |s| ==> s[i] in m
    ensures forall id, i :: id in m && id !in s && 0 <= i < |s| ==> Xor(s[i], key) < Xor(id, key)
  {
    hide Xor;
    assert |m.Keys| == |m|;
    forall i | 0 <= i < |s| ensures s[i] in m { assert s[i] in Elements(s); }
    forall i, j | 0 <= i < j < |s| ensures Xor(s[i], key) < Xor(s[j], key) { assert Nearer(s[i], s[j], key); }
    forall id, i | id in m && id !in s && 0 <= i < |s| ensures Xor(s[i], key) < Xor(id, key) { assert Nearer(s[i], id, key); }
  }

  lemma {:induction false} ClosestSize(s: seq<nat>, ids: seq<nat>, key: nat, k: nat)
    requires Distinct(ids) && k <= |ids| && IsClosest(s, Elements(ids), key, k)
    ensures |s| == k
  {
    DistinctSize(ids);
  }

  lemma {:induction false} NewElement(ids: seq<nat>, i: nat)
    requires Distinct(ids) && i < |ids|
    ensures Elements(ids[..i + 1]) == Elements(ids[..i]) + {ids[i]} && ids[i] !in Elements(ids[..i])
    ensures Distinct(ids[..i])
  {
    assert ids[..i + 1] == ids[..i] + [ids[i]];
  }

  lemma {:induction false} FartherThan(s: seq<nat>, ids: set<nat>, key: nat, k: nat, x: nat)
    requires IsClosest(s, ids, key, k) && s != [] && x !in ids
    requires Xor(x, key) >= Xor(s[|s| - 1], key)
    ensures Nearer(s[|s| - 1], x, key)
  {
    hide Xor;
    assert s[|s| - 1] in Elements(s);
    if Xor(x, key) == Xor(s[|s| - 1], key) {
      DistanceInjective(x, s[|s| - 1], key);
    }
  }

  /** The library's partition point over the slots but the last. */
  method PartitionPoint(s: seq<nat>, ghost ids: set<nat>, key: nat, ghost k: nat, x: nat) returns (p: nat)
    requires IsClosest(s, ids, key, k) && s != [] && x !in ids && Nearer(x, s[|s| - 1], key)
    ensures p <= |s| - 1
    ensures forall i :: 0 <= i < p ==> Nearer(s[i], x, key)
    ensures forall i :: p <= i < |s| ==> Nearer(x, s[i], key)
  {
    hide Xor;
    p := 0;
    while p < |s| - 1 && Nearer(s[p], x, key)
      invariant p <= |s| - 1
      invariant forall i :: 0 <= i < p ==> Nearer(s[i], x, key)
    {
      p := p + 1;
    }
    assert s[p] in Elements(s);
    if Xor(x, key) == Xor(s[p], key) { DistanceInjective(x, s[p], key); }
    forall i | p <= i < |s| ensures Nearer(x, s[i], key) {
      if p < i { assert Nearer(s[p], s[i], key); }
    }
  }

  // ---------------------------------------------------------- sorting by identifier

  ghost predicate OrderedById<A>(rs: seq<Route<A>>) {
    forall i, j :: 0 <= i < j < |rs| ==> rs[i].id <= rs[j].id
  }

  function SortById<A>(rs: seq<Route<A>>): (r: seq<Route<A>>)
    ensures multiset(r) == multiset(rs)
  {
    if rs == [] then []
    else
      assert rs == [rs[0]] + rs[1..];
      PlaceById(rs[0], SortById(rs[1..]))
  }

  function PlaceById<A>(x: Route<A>, rs: seq<Route<A>>): (r: seq<Route<A>>)
    ensures multiset(r) == multiset([x] + rs)
  {
    if rs == [] || x.id <= rs[0].id then [x] + rs
    else
      assert rs == [rs[0]] + rs[1..];
      [rs[0]] + PlaceById(x, rs[1..])
  }

  lemma {:induction false} PlacedFrom<A>(x: Route<A>, rs: seq<Route<A>>, i: nat)
    requires i < |PlaceById(x, rs)|
    ensures PlaceById(x, rs)[i] == x || PlaceById(x, rs)[i] in rs
  {
    if rs != [] && x.id > rs[0].id && i != 0 {
      PlacedFrom(x, rs[1..], i - 1);
    }
  }

  lemma {:induction false} PlaceByIdOrders<A>(x: Route<A>, rs: seq<Route<A>>)
    requires OrderedById(rs)
    ensures OrderedById(PlaceById(x, rs))
  {
    if rs != [] && x.id > rs[0].id {
      var t := rs[1..];
      assert OrderedById(t);
      PlaceByIdOrders(x, t);
      var rest := PlaceById(x, t);
      assert PlaceById(x, rs) == [rs[0]] + rest;
      hide PlaceById;
      forall i | 0 <= i < |rest| ensures rs[0].id <= rest[i].id {
        PlacedFrom(x, t, i);
        if rest[i] in t {
          var j :| 0 <= j < |t| && t[j] == rest[i];
          assert rs[0].id <= rs[j + 1].id;
        }
      }
    }
  }

  lemma {:induction false} SortByIdOrders<A>(rs: seq<Route<A>>)
    ensures OrderedById(SortById(rs))
  {
    if rs == [] {
    } else {
      SortByIdOrders(rs[1..]);
      PlaceByIdOrders(rs[0], SortById(rs[1..]));
    }
  }

  lemma {:induction false} PlacedIds<A>(x: Route<A>, rs: seq<Route<A>>)
    ensures multiset(Ids(PlaceById(x, rs))) == multiset([x.id] + Ids(rs))
  {
    if rs == [] || x.id <= rs[0].id {
      FirstId([x] + rs);
      assert ([x] + rs)[1..] == rs;
    } else {
      PlacedIds(x, rs[1..]);
      var rest := PlaceById(x, rs[1..]);
      FirstId(rs);
      FirstId([rs[0]] + rest);
      assert ([rs[0]] + rest)[1..] == rest;
      hide Ids, PlaceById;
      var a, b := rs[0].id, Ids(rs[1..]);
      assert multiset([a] + Ids(rest)) == multiset{a} + multiset(Ids(rest));
      assert multiset([x.id] + b) == multiset{x.id} + multiset(b);
      assert multiset([x.id] + ([a] + b)) == multiset{x.id} + multiset([a] + b);
    }
  }

  lemma {:induction false} FirstId<A>(rs: seq<Route<A>>)
    requires rs != []
    ensures Ids(rs) == [rs[0].id] + Ids(rs[1..])
  {
  }

  lemma {:induction false} SortedIds<A>(rs: seq<Route<A>>)
    ensures multiset(Ids(SortById(rs))) == multiset(Ids(rs))
  {
    if rs == [] {
    } else {
      SortedIds(rs[1..]);
      PlacedIds(rs[0], SortById(rs[1..]));
      FirstId(rs);
    }
  }

  lemma {:induction false} SortByIdDistinct<A>(rs: seq<Route<A>>)
    ensures Sorted(SortById(rs)) <==> Distinct(Ids(rs))
  {
    var r := SortById(rs);
    SortByIdOrders(rs);
    SortedIds(rs);
    DistinctIsMultiset(Ids(r));
    DistinctIsMultiset(Ids(rs));
    hide SortById;
    if Distinct(Ids(r)) {
      forall i, j | 0 <= i < j < |r| ensures r[i].id < r[j].id {
        assert Ids(r)[i] != Ids(r)[j];
      }
    }
  }
}
