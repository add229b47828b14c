/** What accepting a block does to the messages of a replica, and when nothing is lost. */
module ChatBlocks {
  import opened Octets
  import opened Lists
  import opened ChatMessages

  /** The messages of the buffer that are in, or not in, the proposed block. */
  function Inside(block: set<Message>): Message -> bool { m => m in block }

  function Outside(block: set<Message>): Message -> bool { m => m !in block }

  lemma {:induction false} Partition(block: set<Message>, ms: seq<Message>)
    ensures multiset(ms) == multiset(Filter(Inside(block), ms)) + multiset(Filter(Outside(block), ms))
  {
    if ms == [] {
    } else {
      Partition(block, ms[1..]);
      assert ms == [ms[0]] + ms[1..];
      FilterFirst(Inside(block), ms);
      FilterFirst(Outside(block), ms);
      hide Filter;
      var a, b := Filter(Inside(block), ms[1..]), Filter(Outside(block), ms[1..]);
      assert multiset([ms[0]] + a) == multiset{ms[0]} + multiset(a);
      assert multiset([ms[0]] + b) == multiset{ms[0]} + multiset(b);
      assert multiset([ms[0]] + ms[1..]) == multiset{ms[0]} + multiset(ms[1..]);
    }
  }

  lemma {:induction false} FilterFirst(keep: Message -> bool, ms: seq<Message>)
    requires ms != []
    ensures Filter(keep, ms) == (if keep(ms[0]) then [ms[0]] else []) + Filter(keep, ms[1..])
  {
  }

  lemma {:induction false} FilterDistinct(keep: Message -> bool, ms: seq<Message>)
    requires Distinct(ms)
    ensures Distinct(Filter(keep, ms))
  {
    if ms == [] {
    } else {
      var t := ms[1..];
      forall i, j | 0 <= i < j < |t| ensures t[i] != t[j] { assert t[i] == ms[i + 1] && t[j] == ms[j + 1]; }
      FilterDistinct(keep, t);
      FilterFirst(keep, ms);
      var f := Filter(keep, t);
      hide Filter;
      assert forall i :: 0 <= i < |t| ==> t[i] == ms[i + 1] != ms[0];
      assert ms[0] !in t && ms[0] !in f;
      assert [] + f == f;
    }
  }

  /** The number of buffered messages that are in the block, counted with repetition, equals
      the number of different messages in the block. */
  ghost predicate Present(block: set<Message>, buffered: seq<Message>) {
    |Filter(Inside(block), buffered)| == |block|
  }

  /** When the buffered messages differ from each other, the check that a replica makes of a
      proposal is that it has every message of the block. */
  lemma {:induction false} PresentMeansHeld(block: set<Message>, buffered: seq<Message>)
    requires Distinct(buffered)
    ensures Present(block, buffered) <==> block <= Elements(buffered)
  {
    var f := Filter(Inside(block), buffered);
    FilterDistinct(Inside(block), buffered);
    DistinctSize(f);
    hide Filter, Distinct;
    assert Elements(f) == Elements(buffered) * block;
    if |Elements(f)| == |block| {
      SubsetOfSameSize(Elements(f), block);
    }
    if block <= Elements(buffered) {
      assert Elements(f) == block;
    }
  }

  lemma {:induction false} SubsetOfSameSize(a: set<Message>, b: set<Message>)
    requires a <= b && |a| == |b|
    ensures a == b
  {
    assert b == a + (b - a);
  }

  /** With a repeated message the check can be fooled by some block: the one of all the buffered
      messages, and as many foreign ones as there are repetitions. */
  lemma {:induction false} RepeatsFool(buffered: seq<Message>)
    requires !Distinct(buffered)
    ensures exists block :: Present(block, buffered) && !(block <= Elements(buffered))
  {
    hide Filter, Distinct;
    RepeatsShrink(buffered);
    var held := Elements(buffered);
    var block := Enlarged(held, |buffered| - |held|);
    AllInside(block, buffered);
    assert Present(block, buffered);
    NotWithin(block, held);
  }

  lemma {:induction false} NotWithin(a: set<Message>, b: set<Message>)
    requires |b| < |a|
    ensures !(a <= b)
  {
    assert a <= b ==> b == a + (b - a);
  }

  lemma {:induction false} Enlarged(held: set<Message>, n: nat) returns (block: set<Message>)
    ensures held <= block && |block| == |held| + n
    decreases n
  {
    if n == 0 {
      block := held;
    } else {
      var most := Enlarged(held, n - 1);
      var m := FreshMessage(most);
      block := most + {m};
    }
  }

  /** A message longer than all of a set is not in it. */
  lemma {:induction false} FreshMessage(ms: set<Message>) returns (m: Message)
    ensures m !in ms
  {
    var n: nat, rest := 0, ms;
    while rest != {}
      invariant rest <= ms
      invariant forall x :: x in ms && x !in rest ==> |x| < n
      decreases rest
    {
      var x :| x in rest;
      rest := rest - {x};
      if n <= |x| { n := |x| + 1; }
    }
    m := ZeroBytes(n);
  }

  lemma {:induction false} AllInside(block: set<Message>, ms: seq<Message>)
    requires Elements(ms) <= block
    ensures Filter(Inside(block), ms) == ms
  {
    if ms == [] {
    } else {
      assert ms[0] in Elements(ms) && Elements(ms[1..]) <= Elements(ms);
      AllInside(block, ms[1..]);
      FilterFirst(Inside(block), ms);
      assert [ms[0]] + ms[1..] == ms;
    }
  }

  lemma {:induction false} RepeatsShrink(ms: seq<Message>)
    ensures |Elements(ms)| <= |ms|
    ensures !Distinct(ms) ==> |Elements(ms)| < |ms|
  {
    if ms == [] {
    } else {
      var t := ms[1..];
      RepeatsShrink(t);
      assert Elements(ms) == Elements(t) + {ms[0]};
      if ms[0] !in Elements(t) && Distinct(t) {
        forall i, j | 0 <= i < j < |ms| ensures ms[i] != ms[j] {
          assert ms[j] == t[j - 1];
          if i > 0 { assert ms[i] == t[i - 1]; }
        }
      }
    }
  }

  /** The check decides for every block whether its messages are held, exactly when the buffer
      repeats none. */
  lemma {:induction false} CheckIsExact(buffered: seq<Message>)
    ensures (forall block :: Present(block, buffered) <==> block <= Elements(buffered)) <==> Distinct(buffered)
  {
    hide Distinct, Present;
    if Distinct(buffered) {
      forall block ensures Present(block, buffered) <==> block <= Elements(buffered) {
        PresentMeansHeld(block, buffered);
      }
    } else {
      RepeatsFool(buffered);
    }
  }

  /** Accepting a block conserves the messages exactly when the block holds no message twice
      and nothing the buffer does not hold. */
  lemma {:induction false} AcceptanceConserves(block: seq<Message>, buffered: seq<Message>)
    requires Distinct(buffered)
    ensures var rest := Filter(Outside(Elements(block)), buffered);
            multiset(block) + multiset(rest) == multiset(buffered)
            <==> Distinct(block) && Elements(block) <= Elements(buffered)
  {
    var proposed := Elements(block);
    var f := Filter(Inside(proposed), buffered);
    var rest := Filter(Outside(proposed), buffered);
    Partition(proposed, buffered);
    FilterDistinct(Inside(proposed), buffered);
    DistinctIsMultiset(f);
    DistinctIsMultiset(block);
    hide Filter, Distinct;
    assert Elements(f) == Elements(buffered) * proposed;
    if Distinct(block) && proposed <= Elements(buffered) {
      assert Elements(f) == proposed;
      SameElements(block, f);
    }
    if multiset(block) + multiset(rest) == multiset(buffered) {
      SumCancels(multiset(block), multiset(f), multiset(rest));
      forall m | m in proposed ensures m in Elements(buffered) {
        assert m in multiset(block) && m in multiset(f);
      }
    }
  }

  lemma {:induction false} SumCancels(a: multiset<Message>, b: multiset<Message>, c: multiset<Message>)
    requires a + c == b + c
    ensures a == b
  {
    forall m ensures a[m] == b[m] { assert (a + c)[m] == (b + c)[m]; }
  }

  // ------------------------------------------------------------------- lengths

  lemma {:induction false} PackStep(ms: seq<Message>)
    ensures ms == [] ==> Pack(ms) == []
    ensures ms != [] ==> |Pack(ms)| == |Pack(ms[1..])| + |ms[0]| + 2
  {
  }

  lemma {:induction false} RemoveOne(ms: seq<Message>, i: nat)
    requires i < |ms|
    ensures |Pack(ms)| == |Pack(ms[..i] + ms[i + 1..])| + |ms[i]| + 2
  {
    hide Pack;
    PackAppend(ms[..i], ms[i..]);
    assert ms[..i] + ms[i..] == ms;
    PackAppend(ms[..i], ms[i + 1..]);
    PackStep(ms[i..]);
    assert ms[i..][1..] == ms[i + 1..];
  }

  /** The length of a log does not depend on the order of its messages. */
  lemma {:induction false} LengthOfPermutation(xs: seq<Message>, ys: seq<Message>)
    requires multiset(xs) == multiset(ys)
    ensures |Pack(xs)| == |Pack(ys)|
  {
    hide Pack;
    if xs == [] {
      assert |multiset(ys)| == 0;
      assert ys == [];
    } else {
      var x := xs[0];
      assert x in multiset(ys);
      var i :| 0 <= i < |ys| && ys[i] == x;
      var rest := ys[..i] + ys[i + 1..];
      assert xs == [x] + xs[1..];
      assert ys == ys[..i] + [x] + ys[i + 1..];
      assert multiset(rest) == multiset(ys) - multiset{x};
      LengthOfPermutation(xs[1..], rest);
      PackStep(xs);
      RemoveOne(ys, i);
    }
  }

  /** When the messages are conserved, so is the length of the file. */
  lemma {:induction false} AcceptanceKeepsLength(data: seq<Byte>, buffer: seq<Byte>)
    requires WellFormed(data) && WellFormed(buffer) && Distinct(Unpack(buffer))
    requires Distinct(Unpack(data)) && Present(Elements(Unpack(data)), Unpack(buffer))
    ensures |data| + |Pack(Filter(Outside(Elements(Unpack(data))), Unpack(buffer)))| == |buffer|
  {
    hide Pack, Unpack, Filter, Distinct, Present, WellFormed;
    var block, buffered := Unpack(data), Unpack(buffer);
    var rest := Filter(Outside(Elements(block)), buffered);
    PresentMeansHeld(Elements(block), buffered);
    AcceptanceConserves(block, buffered);
    WellFormedIsPacked(data);
    WellFormedIsPacked(buffer);
    PackAppend(rest, block);
    assert multiset(rest + block) == multiset(rest) + multiset(block);
    LengthOfPermutation(rest + block, buffered);
  }
}
