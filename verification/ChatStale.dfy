/** Stale proposals and repeated messages: when they come about, and runs that show them. */
module ChatStale {
  import opened Octets
  import opened Lists
  import opened ChatMessages
  import opened ChatBlocks
  import opened ChatLog
  import opened ChatPosts
  import opened ChatRuns
  import opened ChatProposals
  import Codec

  // ------------------------------------------------------- repeated messages

  ghost predicate Unrepeated(r: Replica) {
    Numbered(r.nonces, r.story.posts) && Named(r.buffer, r.story.posts)
  }

  lemma {:induction false} NextUnrepeated(hash: seq<Byte> -> nat, r: Replica, e: Event)
    requires Unrepeated(r) && !e.Reset? && |r.buffer| <= UNFINALIZED_BUFFER_CAP
    ensures Unrepeated(Next(hash, r, e))
  {
    hide Unpack, Pack, Filter, Encoded, Trimmed, CutAt, ProposedBlock, Older, Cut, Encodings, DistinctKeys, Distinct, Small;
    if r.wrapped {
    } else {
      match e
      case Send(p) =>
        if CanSend(r, p) {
          NewPost(r.nonces, p, r.story.posts);
          NonceGrows(r.nonces, p, r.story.posts);
          if |Encoded(p)| <= MAX_ENCODED { SendBuffered(r.buffer, p, r.story.posts); }
        }
      case Accept(h) =>
        match Voted(r.voting, h) {
          case Absent =>
          case Local(size) => if size <= |r.buffer| { CutNamed(r.buffer, size, r.story.posts); }
          case Remote(block) => FilterNamed(r.buffer, Outside(Elements(Unpack(block))), r.story.posts);
        }
      case _ =>
    }
  }

  lemma {:induction false} NonceGrows(nonces: map<seq<Byte>, nat>, p: Post, posts: seq<Post>)
    requires Numbered(nonces, posts) && Stored(nonces, p.sender) < p.nonce
    ensures Numbered(nonces[p.sender := p.nonce], posts)
  {
  }

  lemma {:induction false} CutNamed(buffer: seq<Byte>, size: nat, posts: seq<Post>)
    requires Named(buffer, posts) && size <= |buffer|
    ensures Named(buffer[size..], posts)
  {
    hide Unpack, Junk, Distinct, Small, Older, Encodings;
    CutSplits(buffer, size);
    var kept := Unpack(buffer[size..]);
    DistinctPrefix(kept, Unpack(buffer));
    SmallPrefix(kept, Unpack(buffer), MAX_ENCODED + 2);
  }

  lemma {:induction false} FilterNamed(buffer: seq<Byte>, keep: Message -> bool, posts: seq<Post>)
    requires Named(buffer, posts)
    ensures Named(Pack(Filter(keep, Unpack(buffer))), posts)
  {
    hide Unpack, Junk, Distinct, Small, Filter, Pack, Encodings;
    RetainedUnpacks(keep, buffer);
    FilteredSmall(keep, buffer, MAX_ENCODED + 2);
    FilterDistinct(keep, Unpack(buffer));
    assert Elements(Filter(keep, Unpack(buffer))) <= Elements(Unpack(buffer));
  }

  /** In every run without nonce resets the buffer repeats no message, so that the check of a proposal
      is exact; after a reset it can. */
  lemma {:induction false} NoRepeatsWithoutResets(hash: seq<Byte> -> nat, events: seq<Event>)
    requires NoResets(events)
    ensures Distinct(Unpack(Run(hash, START, events).buffer))
  {
    hide Run, Unpack, Distinct, Numbered;
    RunUnrepeated(hash, events);
  }

  lemma {:induction false} RunUnrepeated(hash: seq<Byte> -> nat, events: seq<Event>)
    requires NoResets(events)
    ensures Unrepeated(Run(hash, START, events))
    decreases |events|
  {
    hide Next, Unrepeated;
    if events == [] {
      StartUnrepeated();
    } else {
      var n := |events| - 1;
      RunUnrepeated(hash, events[..n]);
      EveryMessageIsAccounted(hash, events[..n]);
      NextUnrepeated(hash, Run(hash, START, events[..n]), events[n]);
    }
  }

  lemma {:induction false} StartUnrepeated()
    ensures Unrepeated(START)
  {
    UnpackNothing();
  }

  /** When a member's record is rewritten its old messages can be sent once more. */
  lemma {:induction false} ResetLetsRepeat(hash: seq<Byte> -> nat, p: Post)
    requires IsPost(p) && 0 < p.nonce && |Encoded(p)| <= MAX_ENCODED
    ensures Unpack(Run(hash, START, [Send(p), Reset(p.sender), Send(p)]).buffer) == [Encoded(p), Encoded(p)]
  {
    hide Encoded, Unpack, Junk, Entry, ProposedBlock, CutAt, Boundary;
    var events := [Send(p), Reset(p.sender), Send(p)];
    UnpackNothing();
    UnpackAppend([], Encoded(p));
    UnpackAppend([] + Entry(Encoded(p)), Encoded(p));
    EntryIs(Encoded(p));
    RunThree(hash, events);
  }

  lemma {:induction false} RunThree(hash: seq<Byte> -> nat, events: seq<Event>)
    requires |events| == 3
    ensures Run(hash, START, events) == Next(hash, Next(hash, Next(hash, START, events[0]), events[1]), events[2])
  {
    hide Next;
    assert events[..2][..1] == events[..1] && events[..1][..0] == [];
    assert Run(hash, START, events[..1]) == Next(hash, START, events[0]);
    assert Run(hash, START, events[..2]) == Next(hash, Run(hash, START, events[..1]), events[1]);
  }

  // ------------------------------------------------------------ only messages

  /** The buffer after some more messages, oldest first. */
  function After(buffer: seq<Byte>, later: seq<Post>): seq<Byte>
    decreases |later|
  {
    if later == [] then buffer else After(Trimmed(buffer + Entry(Encoded(later[0]))), later[1..])
  }

  /** No message took the buffer past its cap. */
  ghost predicate Untrimmed(buffer: seq<Byte>, later: seq<Post>) {
    |buffer| + |PackedPosts(later)| <= UNFINALIZED_BUFFER_CAP
  }

  function PackedPosts(later: seq<Post>): seq<Byte> {
    if later == [] then [] else Entry(Encoded(later[0])) + PackedPosts(later[1..])
  }

  lemma {:induction false} AppendsOnly(buffer: seq<Byte>, later: seq<Post>)
    requires Untrimmed(buffer, later)
    ensures After(buffer, later) == buffer + PackedPosts(later)
    decreases |later|
  {
    hide Boundary, Encoded, Entry;
    if later == [] {
      assert buffer + [] == buffer;
    } else {
      var entry := Entry(Encoded(later[0]));
      AppendsOnly(buffer + entry, later[1..]);
      assert buffer + entry + PackedPosts(later[1..]) == buffer + (entry + PackedPosts(later[1..]));
    }
  }

  /** Posts that may follow: with keys of their own, and short enough to be sent. */
  ghost predicate CanFollow(posts: seq<Post>, later: seq<Post>) {
    && DistinctKeys(posts + later)
    && forall i :: 0 <= i < |later| ==> |Encoded(later[i])| <= MAX_ENCODED
  }

  lemma {:induction false} FollowStep(posts: seq<Post>, later: seq<Post>)
    requires CanFollow(posts, later) && later != []
    ensures CanFollow([later[0]] + posts, later[1..])
    ensures DistinctKeys(posts) && IsPost(later[0])
    ensures Encoded(later[0]) !in Elements(Encodings(posts))
    ensures Elements(Encodings([later[0]] + posts)) == {Encoded(later[0])} + Elements(Encodings(posts))
  {
    hide Encoded;
    var p, rest := later[0], later[1..];
    var all, moved := posts + later, [p] + posts + rest;
    forall i | 0 <= i < |moved|
      ensures moved[i] == all[if i == 0 then |posts| else if i <= |posts| then i - 1 else i]
    {
      if |posts| < i { assert rest[i - 1 - |posts|] == later[i - |posts|]; }
    }
    assert forall i :: 0 <= i < |posts| ==> posts[i] == all[i];
    assert DistinctKeys(moved);
    assert forall i :: 0 <= i < |posts| + 1 ==> ([p] + posts)[i] == moved[i];
    EncodingsDistinct([p] + posts);
    EncodingsFirst(p, posts);
    hide DistinctKeys, Encodings;
    FirstIsNew(Encoded(p), Encodings(posts));
  }

  /** Dropping the oldest block drops the oldest message. */
  lemma {:induction false} TrimDropsOldest(grown: seq<Byte>)
    requires WellFormed(grown) && Small(Unpack(grown), MAX_ENCODED + 2) && Distinct(Unpack(grown))
    requires UNFINALIZED_BUFFER_CAP < |grown|
    ensures Unpack(grown) != [] && Unpack(grown)[|Unpack(grown)| - 1] !in Unpack(Trimmed(grown))
  {
    hide Unpack, Junk, Boundary, Distinct;
    BoundarySplits(grown, BLOCK_SIZE, MAX_ENCODED + 2);
    var gone, kept := Unpack(grown[..Boundary(grown, BLOCK_SIZE)]), Unpack(Trimmed(grown));
    WellFormedIsPacked(grown[..Boundary(grown, BLOCK_SIZE)]);
    PackNothing();
    assert gone != [];
    LastIsApart(kept, gone);
  }

  lemma {:induction false} LastIsApart(xs: seq<Message>, ys: seq<Message>)
    requires Distinct(xs + ys) && ys != []
    ensures (xs + ys)[|xs + ys| - 1] == ys[|ys| - 1] && ys[|ys| - 1] !in xs
  {
    var all := xs + ys;
    assert forall i :: 0 <= i < |xs| ==> all[i] == xs[i];
  }

  /** A message that is not in the buffer and is not sent again does not come back. */
  lemma {:induction false} GoneForGood(m: Message, buffer: seq<Byte>, posts: seq<Post>, later: seq<Post>)
    requires Buffered(buffer, posts) && |buffer| <= UNFINALIZED_BUFFER_CAP && CanFollow(posts, later)
    requires m in Elements(Encodings(posts)) && m !in Unpack(buffer)
    ensures m !in Unpack(After(buffer, later)) && Buffered(After(buffer, later), posts + later)
    decreases |later|
  {
    hide Encoded, Entry, Trimmed, Unpack, Junk, Distinct, Encodings, DistinctKeys, CanFollow, Small;
    if later == [] {
      assert posts + later == posts;
    } else {
      var p, rest := later[0], later[1..];
      FollowStep(posts, later);
      FollowSize(posts, later);
      SendBuffered(buffer, p, posts);
      var next := Trimmed(buffer + Entry(Encoded(p)));
      NextFits(buffer, p, posts);
      assert m !in Unpack(next) by { NotInPrefix(m, Unpack(next), [Encoded(p)] + Unpack(buffer)); }
      GoneForGood(m, next, [p] + posts, rest);
      SamePosts(posts, later);
    }
  }

  lemma {:induction false} FollowSize(posts: seq<Post>, later: seq<Post>)
    requires CanFollow(posts, later) && later != []
    ensures |Encoded(later[0])| <= MAX_ENCODED
  {
  }

  lemma {:induction false} NextFits(buffer: seq<Byte>, p: Post, posts: seq<Post>)
    requires Named(buffer, posts) && |buffer| <= UNFINALIZED_BUFFER_CAP && |Encoded(p)| <= MAX_ENCODED
    ensures |Trimmed(buffer + Entry(Encoded(p)))| <= UNFINALIZED_BUFFER_CAP
  {
    hide Encoded, Entry, Trimmed, Unpack;
    AppendFits(buffer, Encoded(p));
    EntryIs(Encoded(p));
    TrimmedFits(buffer + Entry(Encoded(p)), MAX_ENCODED + 2);
  }

  lemma {:induction false} NotInPrefix(m: Message, xs: seq<Message>, ys: seq<Message>)
    requires xs <= ys && m !in ys
    ensures m !in xs
  {
    assert forall i :: 0 <= i < |xs| ==> xs[i] == ys[i];
  }

  /** The order in which the posts are listed does not matter. */
  lemma {:induction false} SamePosts(posts: seq<Post>, later: seq<Post>)
    requires later != []
    ensures Elements(Encodings([later[0]] + posts + later[1..])) == Elements(Encodings(posts + later))
  {
    hide Encoded;
    var a, b := [later[0]] + posts + later[1..], posts + later;
    forall m | m in Encodings(a) ensures m in Encodings(b) {
      var i :| 0 <= i < |a| && Encodings(a)[i] == m;
      var j := if i == 0 then |posts| else if i <= |posts| then i - 1 else i;
      assert b[j] == a[i];
      assert Encodings(b)[j] == m;
    }
    forall m | m in Encodings(b) ensures m in Encodings(a) {
      var j :| 0 <= j < |b| && Encodings(b)[j] == m;
      var i := if j < |posts| then j + 1 else if j == |posts| then 0 else j;
      assert b[j] == a[i];
      assert Encodings(a)[i] == m;
    }
  }

  /** Once the cap is passed, the oldest message is gone for good. */
  lemma {:induction false} TrimmedLosesOldest(buffer: seq<Byte>, posts: seq<Post>, later: seq<Post>)
    requires Buffered(buffer, posts) && |buffer| <= UNFINALIZED_BUFFER_CAP && CanFollow(posts, later)
    requires !Untrimmed(buffer, later) && Unpack(buffer) != []
    ensures Unpack(buffer)[|Unpack(buffer)| - 1] !in Unpack(After(buffer, later))
    ensures Buffered(After(buffer, later), posts + later)
    decreases |later|
  {
    hide Encoded, Entry, Unpack, Junk, Distinct, Encodings, DistinctKeys, CanFollow, Small, Boundary;
    var ms := Unpack(buffer);
    var oldest := ms[|ms| - 1];
    assert later != [];
    RestUntrimmed(buffer, later);
    var p, rest := later[0], later[1..];
    var grown := buffer + Entry(Encoded(p));
    FollowStep(posts, later);
    FollowSize(posts, later);
    SendBuffered(buffer, p, posts);
    NextFits(buffer, p, posts);
    SamePosts(posts, later);
    AppendFits(buffer, Encoded(p));
    var all := Unpack(grown);
    assert all == [Encoded(p)] + ms && all[|all| - 1] == oldest;
    if |grown| > UNFINALIZED_BUFFER_CAP {
      TrimDropsOldest(grown);
      assert oldest in Elements(ms);
      GoneForGood(oldest, Trimmed(grown), [p] + posts, rest);
    } else {
      TrimmedLosesOldest(grown, [p] + posts, rest);
    }
  }

  lemma {:induction false} RestUntrimmed(buffer: seq<Byte>, later: seq<Post>)
    requires later != []
    ensures Untrimmed(buffer, later) <==> Untrimmed(buffer + Entry(Encoded(later[0])), later[1..])
  {
  }

  /** Over any messages sent since: the front of the buffer is still the proposed block if and only if
      the buffer never passed its cap. */
  lemma {:induction false} ProposalStandsUntilTrimmed(buffer: seq<Byte>, posts: seq<Post>, later: seq<Post>)
    requires Buffered(buffer, posts) && CanPropose(buffer) && |buffer| <= UNFINALIZED_BUFFER_CAP && CanFollow(posts, later)
    ensures ProposedBlock(buffer) <= After(buffer, later) <==> Untrimmed(buffer, later)
  {
    hide Encoded, Entry, Unpack, Junk, Distinct, Encodings, DistinctKeys, Boundary, After;
    var block := ProposedBlock(buffer);
    SameRound(buffer);
    if Untrimmed(buffer, later) {
      AppendsOnly(buffer, later);
    } else {
      var ms, b := Unpack(buffer), Unpack(block);
      WellFormedIsPacked(block);
      PackNothing();
      assert b != [];
      TrimmedLosesOldest(buffer, posts, later);
      var end := After(buffer, later);
      var newer := Unpack(buffer[|block|..]);
      assert ms == newer + b && ms[|ms| - 1] == b[|b| - 1];
      FromMore(ms, posts, later);
      if block <= end {
        FrontHasOldest(posts + later, block, end);
      }
    }
  }

  lemma {:induction false} FromMore(ms: seq<Message>, posts: seq<Post>, later: seq<Post>)
    requires From(ms, posts)
    ensures From(ms, posts + later)
  {
    hide Encoded;
    var e, f := Encodings(posts), Encodings(posts + later);
    assert forall i :: 0 <= i < |e| ==> e[i] == f[i];
  }

  lemma {:induction false} FrontHasOldest(ps: seq<Post>, block: seq<Byte>, end: seq<Byte>)
    requires DistinctKeys(ps) && From(Unpack(end), ps) && From(Unpack(block), ps)
    requires WellFormed(block) && WellFormed(end) && Unpack(block) != [] && block <= end
    ensures Unpack(block)[|Unpack(block)| - 1] in Unpack(end)
  {
    hide DistinctKeys, Encodings, Unpack, Pack, Junk;
    WellFormedIsPacked(block);
    WellFormedIsPacked(end);
    var b, ms := Unpack(block), Unpack(end);
    FrontIsSuffix(ps, b, ms);
    assert ms[|ms| - 1] == b[|b| - 1];
  }

  // --------------------------------------------------- a run with a stale proposal

  const WHO: seq<Byte> := ZeroBytes(IDENTITY)

  /** A post whose entry in the log takes a thousand bytes. */
  function Filler(n: nat): Post { Post(WHO, n, ZeroBytes(965)) }

  /** The first n fillers, newest first. */
  function Fillers(n: nat): seq<Message> {
    if n == 0 then [] else [Encoded(Filler(n))] + Fillers(n - 1)
  }

  function Fill(n: nat, m: nat): seq<Event>
    requires n <= m
  {
    seq(m - n, i requires 0 <= i => Send(Filler(n + 1 + i)))
  }

  /** The members send 25 messages, this replica proposes the first 16 of them, 57 messages follow, and
      the proposal is accepted. */
  function StaleEvents(hash: seq<Byte> -> nat): seq<Event> {
    Fill(0, 25) + [Propose] + Fill(25, 82) + [Accept(hash(Pack(Fillers(16))))]
  }

  lemma {:induction false} FillerSize(n: nat)
    requires 1 <= n < 128
    ensures Encoded(Filler(n)) == WHO + [n] + ZeroBytes(965) && |Encoded(Filler(n))| == 998
  {
    assert Codec.EncodeInt(n) == [n];
  }

  lemma {:induction false} FillersStep(n: nat)
    requires n < 127
    ensures Pack(Fillers(n + 1)) == Pack(Fillers(n)) + Entry(Encoded(Filler(n + 1)))
    ensures |Entry(Encoded(Filler(n + 1)))| == 1000
  {
    hide Encoded, Filler;
    FillerSize(n + 1);
    EntryIs(Encoded(Filler(n + 1)));
    PackFirst(Encoded(Filler(n + 1)), Fillers(n));
  }

  lemma {:induction false} FillersSize(n: nat)
    requires n < 128
    ensures |Pack(Fillers(n))| == 1000 * n && |Fillers(n)| == n
    ensures forall m :: m in Fillers(n) ==> |m| == 998
  {
    hide Pack, Encoded, Entry;
    if n == 0 {
      PackNothing();
    } else {
      FillersSize(n - 1);
      FillersStep(n - 1);
      FillerSize(n);
    }
  }

  lemma {:induction false} FillersRead(n: nat)
    requires n < 128
    ensures Unpack(Pack(Fillers(n))) == Fillers(n)
  {
    hide Pack, Unpack, Junk;
    FillersSize(n);
    UnpackOfPack(Fillers(n));
  }

  lemma {:induction false} FillersFront(k: nat, n: nat)
    requires k <= n < 128
    ensures |Pack(Fillers(n))| == 1000 * n && Pack(Fillers(n))[..1000 * k] == Pack(Fillers(k))
    decreases n
  {
    hide Pack, Encoded, Entry, Fillers, Filler;
    FillersSize(n);
    FillersSize(k);
    if k == n {
      assert Pack(Fillers(n))[..1000 * k] == Pack(Fillers(n));
    } else {
      FillersFront(k, n - 1);
      FillersStep(n - 1);
      assert Pack(Fillers(n))[..1000 * k] == Pack(Fillers(n - 1))[..1000 * k];
    }
  }

  lemma {:induction false} FillersBoundary(n: nat, limit: nat, k: nat)
    requires k < n < 128 && 1000 * k <= limit < 1000 * (k + 1)
    ensures Boundary(Pack(Fillers(n)), limit) == 1000 * k
    decreases n
  {
    hide Pack, Encoded, Entry, Fillers, Filler, Fits, LastStart;
    FillersStep(n - 1);
    FillersSize(n - 1);
    FillerSize(n);
    EntryFits(Pack(Fillers(n - 1)), Encoded(Filler(n)));
    if k == n - 1 {
    } else {
      FillersBoundary(n - 1, limit, k);
    }
  }

  /** Byte 32 of the i-th filler is its nonce. */
  lemma {:induction false} FillersAt(n: nat, i: nat)
    requires i < n < 128
    ensures |Pack(Fillers(n))| == 1000 * n && Pack(Fillers(n))[1000 * i + 32] == i + 1
    decreases n
  {
    hide Pack, Encoded, Fillers, Filler;
    FillersSize(n);
    FillersSize(n - 1);
    FillersStep(n - 1);
    if i < n - 1 {
      FillersAt(n - 1, i);
    } else {
      FillerSize(n);
      EntryIs(Encoded(Filler(n)));
    }
  }

  /** Nothing but fillers has happened. */
  ghost predicate Filled(r: Replica, n: nat) {
    && !r.wrapped && r.buffer == Pack(Fillers(n)) && Stored(r.nonces, WHO) == n
    && r.finalized == [] && r.story.pieces == [] && r.story.accepted == [] && r.story.dropped == multiset{}
  }

  lemma {:induction false} FillStep(hash: seq<Byte> -> nat, r: Replica, n: nat)
    requires Filled(r, n) && n < 81
    ensures var s := Next(hash, r, Send(Filler(n + 1))); Filled(s, n + 1) && s.voting == r.voting
  {
    hide Pack, Encoded, Fillers, Entry, Unpack, Boundary;
    FillerSize(n + 1);
    FillersSize(n);
    FillersStep(n);
    var grown := r.buffer + Entry(Encoded(Filler(n + 1)));
    assert grown[..0] == [];
    UnpackNothing();
  }

  lemma {:induction false} FillRun(hash: seq<Byte> -> nat, r: Replica, n: nat, m: nat)
    requires Filled(r, n) && n <= m <= 81
    ensures var s := Run(hash, r, Fill(n, m)); Filled(s, m) && s.voting == r.voting
    decreases m
  {
    hide Next, Filled, Filler;
    if n == m {
      assert Fill(n, m) == [];
    } else {
      FillRun(hash, r, n, m - 1);
      assert Fill(n, m)[..m - n - 1] == Fill(n, m - 1);
      FillStep(hash, Run(hash, r, Fill(n, m - 1)), m - 1);
    }
  }

  /** The 82nd message takes the buffer past its cap, and the proposed block is dropped. */
  lemma {:induction false} LastFill(hash: seq<Byte> -> nat, r: Replica)
    requires Filled(r, 81)
    ensures var s := Next(hash, r, Send(Filler(82)));
            && |Pack(Fillers(82))| == 82000 && s.buffer == Pack(Fillers(82))[16000..] && s.story.dropped == multiset(Fillers(16))
            && !s.wrapped && s.voting == r.voting && s.finalized == [] && s.story.pieces == [] && s.story.accepted == []
  {
    hide Pack, Encoded, Fillers, Entry, Unpack, Boundary;
    FillerSize(82);
    FillersSize(82);
    FillersStep(81);
    FillersBoundary(82, BLOCK_SIZE, 16);
    FillersFront(16, 82);
    FillersRead(16);
    assert multiset{} + multiset(Fillers(16)) == multiset(Fillers(16));
  }

  lemma {:induction false} ProposeFilled(hash: seq<Byte> -> nat, r: Replica)
    requires Filled(r, 25)
    ensures ShouldFinalize(24000, |r.buffer|)
    ensures var s := Next(hash, r, Propose);
            Filled(s, 25) && s.voting == r.voting[hash(Pack(Fillers(16))) := Local(16000)]
  {
    hide Pack, Fillers, Boundary;
    FillersSize(25);
    FillersBoundary(25, BLOCK_SIZE, 16);
    FillersFront(16, 25);
    FillersSize(16);
  }

  lemma {:induction false} StaleRun(hash: seq<Byte> -> nat)
    ensures var r := Run(hash, START, StaleEvents(hash)[..83]);
            && |StaleEvents(hash)| == 84 && |Pack(Fillers(82))| == 82000 && r.buffer == Pack(Fillers(82))[16000..]
            && Voted(r.voting, hash(Pack(Fillers(16)))) == Local(16000) && r.story.dropped == multiset(Fillers(16))
            && !r.wrapped && r.finalized == [] && r.story.pieces == [] && r.story.accepted == []
  {
    hide Next, Fillers, Pack, Run, Filled;
    var a, b, c := Fill(0, 25), Fill(25, 81), [Send(Filler(82))];
    assert StaleEvents(hash)[..83] == a + ([Propose] + (b + c));
    assert Filled(START, 0) by { StartFilled(); }
    var r0 := Run(hash, START, a);
    FillRun(hash, START, 0, 25);
    RunAppend(hash, START, a, [Propose] + (b + c));
    var r1 := Next(hash, r0, Propose);
    ProposeFilled(hash, r0);
    RunOne(hash, r0, Propose);
    RunAppend(hash, r0, [Propose], b + c);
    var r2 := Run(hash, r1, b);
    FillRun(hash, r1, 25, 81);
    RunAppend(hash, r1, b, c);
    RunOne(hash, r2, Send(Filler(82)));
    LastFill(hash, r2);
  }

  lemma {:induction false} StartFilled()
    ensures Filled(START, 0)
  {
    PackNothing();
  }

  lemma {:induction false} AcceptFront(hash: seq<Byte> -> nat, r: Replica, h: nat, size: nat)
    requires !r.wrapped && Voted(r.voting, h) == Local(size) && size <= |r.buffer| && r.finalized == [] && r.story.accepted == []
    ensures var s := Next(hash, r, Accept(h));
            s.finalized == r.buffer[..size] && s.story.accepted == [h] && s.story.dropped == r.story.dropped
  {
    hide Older, Cut, Unpack;
  }

  lemma {:induction false} OtherBytes()
    ensures |Pack(Fillers(82))| == 82000 && |Pack(Fillers(16))| == 16000
    ensures Pack(Fillers(82))[16000..][..16000] != Pack(Fillers(16))
  {
    hide Fillers, Pack;
    FillersAt(82, 16);
    FillersAt(16, 0);
    assert Pack(Fillers(82))[16000..][..16000][32] == 17;
  }

  /** A stale acceptance: sixteen messages are proposed and then dropped with the oldest block, and the
      acceptance of their hash finalizes as many bytes of other messages. */
  lemma {:induction false} StaleProposal(hash: seq<Byte> -> nat)
    ensures var r := Run(hash, START, StaleEvents(hash));
            var block := Pack(Fillers(16));
            && r.story.accepted == [hash(block)] && |r.finalized| == |block| && r.finalized != block
            && r.story.dropped == multiset(Fillers(16))
  {
    hide Next, Fillers, Pack;
    StaleRun(hash);
    OtherBytes();
    var events := StaleEvents(hash);
    assert events[83] == Accept(hash(Pack(Fillers(16))));
    hide Fill, StaleEvents;
    AcceptFront(hash, Run(hash, START, events[..83]), hash(Pack(Fillers(16))), 16000);
  }

  /** The members send 25 messages, this replica proposes the first 16, accepts another replica's block of
      all 25, and then its own. */
  function WrapEvents(hash: seq<Byte> -> nat): seq<Event> {
    Fill(0, 25) + [Propose] + [Offer(Pack(Fillers(25)))] + [Accept(hash(Pack(Fillers(25))))] + [Accept(hash(Pack(Fillers(16))))]
  }

  /** Nothing is left of a buffer whose messages have all been accepted. */
  lemma {:induction false} FilterSelf(ms: seq<Message>, names: set<Message>)
    requires Elements(ms) <= names
    ensures Filter(Outside(names), ms) == []
  {
    hide Filter;
    if ms == [] {
      FilterNothing(Outside(names));
    } else {
      FilterFirst(Outside(names), ms);
      assert ms[0] in Elements(ms) && Elements(ms[1..]) <= Elements(ms);
      FilterSelf(ms[1..], names);
    }
  }

  lemma {:induction false} AcceptAll(hash: seq<Byte> -> nat, r: Replica, block: seq<Byte>)
    requires !r.wrapped && r.buffer == block && Voted(r.voting, hash(block)) == Remote(block)
    ensures var s := Next(hash, r, Accept(hash(block)));
            !s.wrapped && s.buffer == [] && s.voting == r.voting - {hash(block)}
  {
    hide Unpack, Pack, Filter;
    FilterSelf(Unpack(block), Elements(Unpack(block)));
    PackNothing();
  }

  /** The length of the buffer wraps: the block that is accepted first takes the messages that the own
      proposal, still recorded, stands for. */
  lemma {:induction false} WrapRun(hash: seq<Byte> -> nat)
    requires hash(Pack(Fillers(16))) != hash(Pack(Fillers(25)))
    ensures Run(hash, START, WrapEvents(hash)).wrapped
  {
    hide Next, Run, Fillers, Pack, Filled;
    var own, all := Pack(Fillers(16)), Pack(Fillers(25));
    var a, e1, e2, e3, e4 := Fill(0, 25), Propose, Offer(all), Accept(hash(all)), Accept(hash(own));
    assert Filled(START, 0) by { StartFilled(); }
    FillRun(hash, START, 0, 25);
    var r0 := Run(hash, START, a);
    ProposeFilled(hash, r0);
    RunAppend(hash, START, a, [e1]);
    RunOne(hash, r0, e1);
    var r1 := Next(hash, r0, e1);
    RunAppend(hash, START, a + [e1], [e2]);
    RunOne(hash, r1, e2);
    OfferAll(hash, r0, r1, all, own);
    var r2 := Next(hash, r1, e2);
    RunAppend(hash, START, a + [e1] + [e2], [e3]);
    RunOne(hash, r2, e3);
    AcceptAll(hash, r2, all);
    var r3 := Next(hash, r2, e3);
    RunAppend(hash, START, a + [e1] + [e2] + [e3], [e4]);
    RunOne(hash, r3, e4);
    AcceptTooLong(hash, r3, hash(own));
  }

  lemma {:induction false} OfferAll(hash: seq<Byte> -> nat, r0: Replica, r1: Replica, all: seq<Byte>, own: seq<Byte>)
    requires Filled(r1, 25) && all == Pack(Fillers(25)) && hash(own) != hash(all)
    requires r0.voting == map[] && r1.voting == r0.voting[hash(own) := Local(16000)]
    ensures var r2 := Next(hash, r1, Offer(all));
            && !r2.wrapped && r2.buffer == all
            && r2.voting == map[hash(own) := Local(16000), hash(all) := Remote(all)]
  {
    hide Pack, Fillers;
  }

  lemma {:induction false} AcceptTooLong(hash: seq<Byte> -> nat, r: Replica, h: nat)
    requires !r.wrapped && r.buffer == [] && Voted(r.voting, h) == Local(16000)
    ensures Next(hash, r, Accept(h)).wrapped
  {
  }
}
