/** The chat log's encoding: every message is followed by its length in two bytes, so that
    a buffer is read from its end backwards, newest message first. */
module ChatMessages {
  import opened Octets

  type Message = seq<Byte>

  function Entry(m: Message): seq<Byte> { m + ToU16(|m|) }

  /** A whole message stands at the end of b. */
  predicate Fits(b: seq<Byte>) {
    2 <= |b| && FromU16(b[|b| - 2..]) + 2 <= |b|
  }

  /** Where the last message begins. */
  function LastStart(b: seq<Byte>): (s: nat)
    requires Fits(b)
    ensures s + 2 <= |b|
  {
    |b| - 2 - FromU16(b[|b| - 2..])
  }

  function LastMessage(b: seq<Byte>): Message
    requires Fits(b)
  {
    b[LastStart(b)..|b| - 2]
  }

  /** The messages of a buffer, newest first, as far back as it can be read. */
  function Unpack(b: seq<Byte>): seq<Message>
    decreases |b|
  {
    if !Fits(b) then [] else [LastMessage(b)] + Unpack(b[..LastStart(b)])
  }

  /** What is left in front of the messages. */
  function Junk(b: seq<Byte>): seq<Byte>
    decreases |b|
  {
    if !Fits(b) then b else Junk(b[..LastStart(b)])
  }

  /** The buffer that holds these messages, given newest first. */
  function Pack(ms: seq<Message>): seq<Byte> {
    if ms == [] then [] else Pack(ms[1..]) + Entry(ms[0])
  }

  ghost predicate Short(ms: seq<Message>) {
    forall i :: 0 <= i < |ms| ==> |ms[i]| < 0x1_0000
  }

  function Filter(keep: Message -> bool, ms: seq<Message>): (r: seq<Message>)
    ensures forall m :: m in r <==> m in ms && keep(m)
  {
    if ms == [] then []
    else if keep(ms[0]) then [ms[0]] + Filter(keep, ms[1..])
    else Filter(keep, ms[1..])
  }

  // ---------------------------------------------------------------- round trips

  lemma {:induction false} EntryFits(b: seq<Byte>, m: Message)
    requires |m| < 0x1_0000
    ensures Fits(b + Entry(m)) && LastStart(b + Entry(m)) == |b| && LastMessage(b + Entry(m)) == m
    ensures (b + Entry(m))[..|b|] == b
  {
    var s := b + Entry(m);
    U16RoundTrip(|m|);
    assert s[|s| - 2..] == ToU16(|m|);
    assert s[|b|..|s| - 2] == m;
  }

  /** A message is followed by its length, the more significant byte first. */
  lemma {:induction false} EntryLayout(m: Message)
    requires |m| < 0x1_0000
    ensures var e := Entry(m); |e| == |m| + 2 && e[..|m|] == m && (e[|m|] as int) * 256 + e[|m| + 1] as int == |m|
  {
    U16BigEndian(|m|);
  }

  /** And read back from there. */
  lemma {:induction false} LastLayout(b: seq<Byte>)
    ensures Fits(b) <==> 2 <= |b| && (b[|b| - 2] as int) * 256 + b[|b| - 1] as int + 2 <= |b|
    ensures Fits(b) ==> LastMessage(b) == b[|b| - 2 - ((b[|b| - 2] as int) * 256 + b[|b| - 1] as int)..|b| - 2]
  {
    if 2 <= |b| { U16Value(b[|b| - 2..]); }
  }

  lemma {:induction false} LastEntry(b: seq<Byte>)
    requires Fits(b)
    ensures b == b[..LastStart(b)] + Entry(LastMessage(b))
    ensures |LastMessage(b)| < 0x1_0000
  {
    U16Bytes(b[|b| - 2..]);
    var s := LastStart(b);
    assert b == b[..s] + b[s..|b| - 2] + b[|b| - 2..];
  }

  /** Appending a message to any buffer puts it in front of what is read. */
  lemma {:induction false} UnpackAppend(b: seq<Byte>, m: Message)
    requires |m| < 0x1_0000
    ensures Unpack(b + Entry(m)) == [m] + Unpack(b) && Junk(b + Entry(m)) == Junk(b)
  {
    hide Entry, Fits, LastStart, LastMessage;
    EntryFits(b, m);
  }

  lemma {:induction false} UnpackPack(b: seq<Byte>, ms: seq<Message>)
    requires Short(ms)
    ensures Unpack(b + Pack(ms)) == ms + Unpack(b) && Junk(b + Pack(ms)) == Junk(b)
  {
    hide Entry, Unpack, Junk;
    if ms == [] {
      assert b + Pack(ms) == b && ms + Unpack(b) == Unpack(b);
    } else {
      var rest := ms[1..];
      assert Short(rest);
      UnpackPack(b, rest);
      assert b + Pack(ms) == b + Pack(rest) + Entry(ms[0]);
      UnpackAppend(b + Pack(rest), ms[0]);
      assert [ms[0]] + (rest + Unpack(b)) == ms + Unpack(b);
    }
  }

  /** Nothing is packed in the empty buffer. */
  lemma {:induction false} UnpackOfPack(ms: seq<Message>)
    requires Short(ms)
    ensures Unpack(Pack(ms)) == ms && Junk(Pack(ms)) == []
  {
    hide Unpack, Junk, Pack;
    UnpackPack([], ms);
    assert [] + Pack(ms) == Pack(ms);
    UnpackNothing();
    assert ms + [] == ms;
  }

  lemma {:induction false} UnpackNothing()
    ensures Unpack([]) == [] && Junk([]) == []
  {
  }

  lemma {:induction false} UnpackStep(b: seq<Byte>)
    requires Fits(b)
    ensures var f := b[..LastStart(b)];
            && Unpack(b) == [LastMessage(b)] + Unpack(f) && Junk(b) == Junk(f)
            && |b| == |f| + |LastMessage(b)| + 2
  {
  }

  lemma {:induction false} UnpackStuck(b: seq<Byte>)
    requires !Fits(b)
    ensures Unpack(b) == [] && Junk(b) == b
  {
  }

  /** Every buffer is its unread front followed by its messages. */
  lemma {:induction false} PackOfUnpack(b: seq<Byte>)
    ensures b == Junk(b) + Pack(Unpack(b)) && Short(Unpack(b)) && !Fits(Junk(b))
    decreases |b|
  {
    hide Entry, LastMessage, LastStart, Fits, Unpack, Junk, Pack;
    if Fits(b) {
      var front, m := b[..LastStart(b)], LastMessage(b);
      PackOfUnpack(front);
      LastEntry(b);
      UnpackStep(b);
      var ms := Unpack(front);
      PackFirst(m, ms);
      assert Junk(b) + (Pack(ms) + Entry(m)) == Junk(b) + Pack(ms) + Entry(m);
    } else {
      UnpackStuck(b);
      PackNothing();
      assert b + [] == b;
    }
  }

  lemma {:induction false} PackFirst(m: Message, ms: seq<Message>)
    ensures Pack([m] + ms) == Pack(ms) + Entry(m)
  {
    assert ([m] + ms)[1..] == ms;
  }

  lemma {:induction false} PackNothing()
    ensures Pack([]) == []
  {
  }

  ghost predicate WellFormed(b: seq<Byte>) { Junk(b) == [] }

  lemma {:induction false} WellFormedIsPacked(b: seq<Byte>)
    ensures WellFormed(b) <==> b == Pack(Unpack(b))
  {
    hide Unpack, Junk, Pack;
    PackOfUnpack(b);
    if WellFormed(b) {
      assert [] + Pack(Unpack(b)) == Pack(Unpack(b));
    } else {
      UnpackOfPack(Unpack(b));
    }
  }

  lemma {:induction false} PackAppend(xs: seq<Message>, ys: seq<Message>)
    ensures Pack(xs + ys) == Pack(ys) + Pack(xs)
  {
    hide Entry;
    if xs == [] {
      assert xs + ys == ys && Pack(ys) + [] == Pack(ys);
    } else {
      PackAppend(xs[1..], ys);
      assert (xs + ys)[1..] == xs[1..] + ys;
      assert Pack(ys) + Pack(xs[1..]) + Entry(xs[0]) == Pack(ys) + (Pack(xs[1..]) + Entry(xs[0]));
    }
  }

  lemma {:induction false} WellFormedAppend(a: seq<Byte>, b: seq<Byte>)
    requires WellFormed(b)
    ensures Unpack(a + b) == Unpack(b) + Unpack(a) && Junk(a + b) == Junk(a)
  {
    hide Unpack, Junk, Pack;
    WellFormedIsPacked(b);
    PackOfUnpack(b);
    UnpackPack(a, Unpack(b));
  }

  lemma {:induction false} JunkIsPrefix(b: seq<Byte>)
    ensures Junk(b) <= b
    decreases |b|
  {
    if Fits(b) { JunkIsPrefix(b[..LastStart(b)]); }
  }

  /** The messages found in a suffix are the newest messages of the whole. */
  lemma {:induction false} WindowReadsTheSame(a: seq<Byte>, w: seq<Byte>)
    ensures Unpack(a + w) == Unpack(w) + Unpack(a + Junk(w)) && Junk(a + w) == Junk(a + Junk(w))
    decreases |w|
  {
    hide Unpack, Junk, LastMessage;
    var b := a + w;
    if Fits(w) {
      assert b[|b| - 2..] == w[|w| - 2..];
      var s := LastStart(w);
      assert LastStart(b) == |a| + s;
      assert b[..|a| + s] == a + w[..s];
      assert LastMessage(b) == LastMessage(w) by { SameLast(a, w); }
      UnpackStep(b);
      UnpackStep(w);
      WindowReadsTheSame(a, w[..s]);
      assert [LastMessage(w)] + (Unpack(w[..s]) + Unpack(a + Junk(w)))
          == [LastMessage(w)] + Unpack(w[..s]) + Unpack(a + Junk(w));
    } else {
      UnpackStuck(w);
    }
  }

  lemma {:induction false} SameLast(a: seq<Byte>, w: seq<Byte>)
    requires Fits(w) && Fits(a + w) && LastStart(a + w) == |a| + LastStart(w)
    ensures LastMessage(a + w) == LastMessage(w)
  {
  }

  /** Reading what was retained gives the messages that satisfy the predicate. */
  lemma {:induction false} RetainedUnpacks(keep: Message -> bool, b: seq<Byte>)
    ensures Unpack(Pack(Filter(keep, Unpack(b)))) == Filter(keep, Unpack(b))
    ensures WellFormed(Pack(Filter(keep, Unpack(b))))
  {
    hide Unpack, Junk, Pack, Filter;
    PackOfUnpack(b);
    var ms := Filter(keep, Unpack(b));
    forall i | 0 <= i < |ms| ensures |ms[i]| < 0x1_0000 {
      assert ms[i] in Unpack(b);
      var j :| 0 <= j < |Unpack(b)| && Unpack(b)[j] == ms[i];
    }
    UnpackOfPack(ms);
  }

  // ------------------------------------------------------------ retain_messages

  /** Moves the kept bytes `cursor + len .. holeEnd` up against what was kept before. */
  method MoveMem(a: array<Byte>, holeEnd: nat, cursor: nat, write: nat, len: nat) returns (w: nat)
    requires cursor + len <= holeEnd <= write <= a.Length
    modifies a
    ensures w == write - (holeEnd - cursor - len)
    ensures a[w..] == old(a[cursor + len..holeEnd]) + old(a[write..])
    ensures forall i :: 0 <= i < w ==> a[i] == old(a[i])
  {
    w := write;
    if holeEnd == cursor { return; }
    var writeLen := holeEnd - cursor - len;
    if holeEnd != write {
      forall i | 0 <= i < writeLen {
        a[write - writeLen + i] := a[cursor + len + i];
      }
    }
    w := write - writeLen;
    assert a[w..] == a[w..write] + a[write..];
    assert a[write..] == old(a[write..]);
    assert a[w..write] == old(a[cursor + len..holeEnd]);
  }

  /** Keeps, at the end of the array, the messages that satisfy the predicate, in order. */
  method Retain(a: array<Byte>, keep: Message -> bool) returns (write: nat)
    modifies a
    ensures write <= a.Length
    ensures a[write..] == Pack(Filter(keep, Unpack(old(a[..]))))
    ensures |Junk(old(a[..]))| <= write
    ensures a[..|Junk(old(a[..]))|] == Junk(old(a[..]))
  {
    hide Unpack, Junk, Pack, Filter;
    ghost var was := a[..];
    var cursor, holeEnd := a.Length, a.Length;
    write := a.Length;
    assert was[..cursor] == was;
    ghost var all := Pack(Filter(keep, Unpack(was)));
    assert all == all + (was[cursor..holeEnd] + a[write..]);
    while Fits(a[..cursor])
      invariant cursor <= holeEnd <= write <= a.Length
      invariant a[..holeEnd] == was[..holeEnd]
      invariant all == Pack(Filter(keep, Unpack(was[..cursor]))) + (was[cursor..holeEnd] + a[write..])
      invariant Junk(was) == Junk(was[..cursor])
      decreases cursor
    {
      assert a[..cursor] == was[..cursor];
      var start := LastStart(a[..cursor]);
      var message := LastMessage(a[..cursor]);
      assert message == was[..cursor][start..cursor - 2];
      RetainStep(keep, was, cursor, holeEnd, a[write..]);
      if !keep(message) {
        assert a[cursor..holeEnd] == was[cursor..holeEnd];
        ghost var kept := a[write..];
        write := MoveMem(a, holeEnd, start, write, cursor - start);
        assert a[write..] == was[cursor..holeEnd] + kept;
        holeEnd := start;
        assert was[start..start] + a[write..] == a[write..];
      }
      cursor := start;
    }
    assert a[..cursor] == was[..cursor];
    RetainEnd(keep, was[..cursor]);
    assert a[cursor..holeEnd] == was[cursor..holeEnd];
    write := MoveMem(a, holeEnd, cursor, write, 0);
    assert a[..cursor] == was[..cursor];
  }

  lemma {:induction false} RetainEnd(keep: Message -> bool, b: seq<Byte>)
    requires !Fits(b)
    ensures Pack(Filter(keep, Unpack(b))) == [] && Junk(b) == b
  {
  }

  lemma {:induction false} RetainStep(keep: Message -> bool, was: seq<Byte>, cursor: nat, hole: nat, kept: seq<Byte>)
    requires cursor <= hole <= |was| && Fits(was[..cursor])
    ensures var b := was[..cursor];
            var start := LastStart(b);
            && start <= cursor && b[..start] == was[..start]
            && Junk(b) == Junk(was[..start])
            && Pack(Filter(keep, Unpack(b))) + (was[cursor..hole] + kept)
               == Pack(Filter(keep, Unpack(was[..start])))
                  + (if keep(LastMessage(b)) then was[start..hole] + kept else was[cursor..hole] + kept)
  {
    hide Pack, Filter, Fits, LastMessage, Entry;
    var b := was[..cursor];
    var start := LastStart(b);
    var front := was[..start];
    assert b[..start] == front;
    LastEntry(b);
    var m := LastMessage(b);
    assert Unpack(b) == [m] + Unpack(front);
    FilterStep(keep, m, Unpack(front));
    assert was[start..cursor] == Entry(m) by {
      assert b == front + Entry(m);
      assert was[start..cursor] == b[start..];
    }
    assert was[start..hole] == was[start..cursor] + was[cursor..hole];
    var p := Pack(Filter(keep, Unpack(front)));
    assert p + Entry(m) + (was[cursor..hole] + kept) == p + (Entry(m) + was[cursor..hole] + kept);
  }

  lemma {:induction false} FilterStep(keep: Message -> bool, m: Message, ms: seq<Message>)
    ensures Pack(Filter(keep, [m] + ms)) == Pack(Filter(keep, ms)) + (if keep(m) then Entry(m) else [])
  {
    hide Entry;
    assert ([m] + ms)[1..] == ms;
    var f := Filter(keep, ms);
    if keep(m) {
      assert Filter(keep, [m] + ms) == [m] + f;
      assert ([m] + f)[1..] == f;
    } else {
      assert Pack(f) + [] == Pack(f);
    }
  }

  /** `retain_messages_in_vec`. */
  method RetainInVec(buffer: seq<Byte>, keep: Message -> bool) returns (r: seq<Byte>)
    ensures r == Pack(Filter(keep, Unpack(buffer)))
  {
    var a := new Byte[|buffer|](i requires 0 <= i < |buffer| => buffer[i]);
    assert a[..] == buffer;
    var write := Retain(a, keep);
    r := a[write..];
  }
}
