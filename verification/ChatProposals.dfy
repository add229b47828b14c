/** When a replica that accepts its own proposal finalizes the block it proposed: exactly when it
    still holds every message of it. */
module ChatProposals {
  import opened Octets
  import opened Lists
  import opened ChatMessages
  import opened ChatBlocks
  import opened ChatLog
  import opened ChatPosts
  import opened ChatRuns

  // ------------------------------------------------------------ subsequences

  /** K in the order of B, possibly with messages missing. */
  ghost predicate Sub(k: seq<Message>, b: seq<Message>) {
    k == [] || (b != [] && if k[0] == b[0] then Sub(k[1..], b[1..]) else Sub(k, b[1..]))
  }

  lemma {:induction false} SubSelf(b: seq<Message>)
    ensures Sub(b, b)
  {
    if b == [] {
    } else {
      SubSelf(b[1..]);
    }
  }

  lemma {:induction false} SubLonger(k: seq<Message>, b: seq<Message>)
    requires b != [] && Sub(k, b[1..])
    ensures Sub(k, b)
    decreases |b|, 0
  {
    if k == [] || k[0] != b[0] {
    } else {
      SubTail(k, b[1..]);
    }
  }

  lemma {:induction false} SubTail(k: seq<Message>, b: seq<Message>)
    requires k != [] && Sub(k, b)
    ensures Sub(k[1..], b)
    decreases |b|, 1
  {
    if k[0] == b[0] {
      SubLonger(k[1..], b);
    } else {
      SubTail(k, b[1..]);
      SubLonger(k[1..], b);
    }
  }

  lemma {:induction false} SubPrefix(k: seq<Message>, n: nat, b: seq<Message>)
    requires Sub(k, b) && n <= |k|
    ensures Sub(k[..n], b)
    decreases |b|
  {
    if n == 0 {
    } else if k[0] == b[0] {
      SubPrefix(k[1..], n - 1, b[1..]);
      assert k[..n][1..] == k[1..][..n - 1];
    } else {
      SubPrefix(k, n, b[1..]);
    }
  }

  lemma {:induction false} SubFilter(keep: Message -> bool, k: seq<Message>, b: seq<Message>)
    requires Sub(k, b)
    ensures Sub(Filter(keep, k), b)
    decreases |b|
  {
    hide Filter;
    if k == [] {
      FilterNothing(keep);
    } else if k[0] == b[0] {
      FilterFirst(keep, k);
      SubFilter(keep, k[1..], b[1..]);
      var f := Filter(keep, k[1..]);
      if keep(k[0]) {
        assert Filter(keep, k)[1..] == f;
      } else {
        assert Filter(keep, k) == f;
        SubLonger(f, b);
      }
    } else {
      SubFilter(keep, k, b[1..]);
      SubLonger(Filter(keep, k), b);
    }
  }

  lemma {:induction false} SubOfSameLength(k: seq<Message>, b: seq<Message>)
    requires Sub(k, b)
    ensures |k| <= |b| && (|k| == |b| ==> k == b)
    decreases |b|
  {
    if k == [] {
    } else if k[0] == b[0] {
      SubOfSameLength(k[1..], b[1..]);
    } else {
      SubOfSameLength(k, b[1..]);
    }
  }

  // ------------------------------------------- what is left of a proposal

  /** The buffered messages are newer ones and, behind them, what is left of the block's. */
  ghost predicate Kin(ms: seq<Message>, b: seq<Message>) {
    exists n: nat :: KinAt(ms, b, n)
  }

  ghost predicate KinAt(ms: seq<Message>, b: seq<Message>, n: nat) {
    n <= |ms| && (forall i :: 0 <= i < n ==> ms[i] !in b) && Sub(ms[n..], b)
  }

  lemma {:induction false} KinAppend(m: Message, ms: seq<Message>, b: seq<Message>)
    requires Kin(ms, b) && m !in b
    ensures Kin([m] + ms, b)
  {
    var n: nat :| KinAt(ms, b, n);
    assert ([m] + ms)[n + 1..] == ms[n..];
    assert KinAt([m] + ms, b, n + 1);
  }

  lemma {:induction false} KinPrefix(k: seq<Message>, ms: seq<Message>, b: seq<Message>)
    requires Kin(ms, b) && k <= ms
    ensures Kin(k, b)
  {
    var n: nat :| KinAt(ms, b, n);
    assert forall i :: 0 <= i < |k| ==> k[i] == ms[i];
    if |k| <= n {
      assert k[|k|..] == [];
      assert KinAt(k, b, |k|);
    } else {
      SubPrefix(ms[n..], |k| - n, b);
      assert k[n..] == ms[n..][..|k| - n];
      assert KinAt(k, b, n);
    }
  }

  lemma {:induction false} FilterAppend(keep: Message -> bool, xs: seq<Message>, ys: seq<Message>)
    ensures Filter(keep, xs + ys) == Filter(keep, xs) + Filter(keep, ys)
  {
    hide Filter;
    if xs == [] {
      FilterNothing(keep);
      assert xs + ys == ys && [] + Filter(keep, ys) == Filter(keep, ys);
    } else {
      FilterAppend(keep, xs[1..], ys);
      assert (xs + ys)[1..] == xs[1..] + ys;
      FilterFirst(keep, xs + ys);
      FilterFirst(keep, xs);
      var a := if keep(xs[0]) then [xs[0]] else [];
      assert a + (Filter(keep, xs[1..]) + Filter(keep, ys)) == a + Filter(keep, xs[1..]) + Filter(keep, ys);
    }
  }

  lemma {:induction false} KinFilter(keep: Message -> bool, ms: seq<Message>, b: seq<Message>)
    requires Kin(ms, b)
    ensures Kin(Filter(keep, ms), b)
  {
    var n: nat :| KinAt(ms, b, n);
    FilterAppend(keep, ms[..n], ms[n..]);
    assert ms[..n] + ms[n..] == ms;
    SubFilter(keep, ms[n..], b);
    var newer, rest := Filter(keep, ms[..n]), Filter(keep, ms[n..]);
    hide Filter;
    assert (newer + rest)[|newer|..] == rest;
    forall i | 0 <= i < |newer| ensures (newer + rest)[i] !in b {
      assert newer[i] in ms[..n];
    }
    assert KinAt(newer + rest, b, |newer|);
  }

  lemma {:induction false} KinStart(newer: seq<Message>, b: seq<Message>)
    requires Distinct(newer + b)
    ensures Kin(newer + b, b)
  {
    SubSelf(b);
    assert (newer + b)[|newer|..] == b;
    assert forall j :: 0 <= j < |b| ==> b[j] == (newer + b)[|newer| + j];
    assert KinAt(newer + b, b, |newer|);
  }

  /** If none of the block's messages is missing, they are the oldest of the buffer. */
  lemma {:induction false} KinComplete(ms: seq<Message>, b: seq<Message>)
    requires Kin(ms, b) && Distinct(b) && Elements(b) <= Elements(ms)
    ensures |b| <= |ms| && ms[|ms| - |b|..] == b
  {
    var n: nat :| KinAt(ms, b, n);
    var k := ms[n..];
    forall m | m in b ensures m in k {
      assert m in Elements(b) && m in Elements(ms);
      var i :| 0 <= i < |ms| && ms[i] == m;
      assert k[i - n] == m;
    }
    assert Elements(b) <= Elements(k);
    DistinctSize(b);
    ElementsAtMost(k);
    SetSizes(Elements(b), Elements(k));
    SubOfSameLength(k, b);
  }

  lemma {:induction false} ElementsAtMost(s: seq<Message>)
    ensures |Elements(s)| <= |s|
  {
    RepeatsShrink(s);
  }

  lemma {:induction false} SetSizes(a: set<Message>, b: set<Message>)
    requires a <= b
    ensures |a| <= |b|
  {
    assert b == a + (b - a);
  }

  /** The block's bytes are the front of the buffer exactly when its messages are all there. */
  lemma {:induction false} FrontMeansHeld(ps: seq<Post>, buffer: seq<Byte>, block: seq<Byte>)
    requires DistinctKeys(ps) && From(Unpack(buffer), ps) && From(Unpack(block), ps)
    requires WellFormed(buffer) && WellFormed(block) && Distinct(Unpack(block)) && Kin(Unpack(buffer), Unpack(block))
    ensures block <= buffer <==> Elements(Unpack(block)) <= Elements(Unpack(buffer))
    ensures block <= buffer ==> |Unpack(block)| <= |Unpack(buffer)| && Unpack(block) == Unpack(buffer)[|Unpack(buffer)| - |Unpack(block)|..]
  {
    hide Unpack, Junk, Pack, DistinctKeys, Encodings, Distinct, Kin;
    var ms, b := Unpack(buffer), Unpack(block);
    WellFormedIsPacked(buffer);
    WellFormedIsPacked(block);
    if block <= buffer {
      FrontIsSuffix(ps, b, ms);
      forall m | m in Elements(b) ensures m in Elements(ms) {
        var i :| 0 <= i < |b| && b[i] == m;
        assert ms[|ms| - |b| + i] == m;
      }
    }
    if Elements(b) <= Elements(ms) {
      KinComplete(ms, b);
      var newer := ms[..|ms| - |b|];
      assert ms == newer + b;
      PackAppend(newer, b);
    }
  }

  // -------------------------------------------------------------------- runs

  ghost predicate Injective(hash: seq<Byte> -> nat) {
    forall x, y :: hash(x) == hash(y) ==> x == y
  }

  /** Nobody's nonce is reset. */
  ghost predicate NoResets(events: seq<Event>) {
    forall i :: 0 <= i < |events| ==> !events[i].Reset?
  }

  ghost predicate Holds(buffer: seq<Byte>, block: seq<Byte>) {
    Elements(Unpack(block)) <= Elements(Unpack(buffer))
  }

  /** If the event accepts a proposal of the replica's own, the replica still holds its messages. */
  ghost predicate HeldAt(r: Replica, e: Event) {
    e.Accept? && !r.wrapped && Voted(r.voting, e.hash).Local? ==>
      e.hash in r.story.proposed && Holds(r.buffer, r.story.proposed[e.hash])
  }

  /** Every own proposal that is accepted is still held when it is. */
  ghost predicate AllHeld(hash: seq<Byte> -> nat, events: seq<Event>)
    decreases |events|
  {
    events == [] || (AllHeld(hash, events[..|events| - 1]) && HeldAt(Run(hash, START, events[..|events| - 1]), events[|events| - 1]))
  }

  /** Each acceptance finalized the block with the accepted hash. */
  ghost predicate Finalizes(hash: seq<Byte> -> nat, pieces: seq<seq<Byte>>, accepted: seq<nat>) {
    && |pieces| == |accepted|
    && forall i :: 0 <= i < |pieces| ==> hash(pieces[i]) == accepted[i]
  }

  /** Nonces only grow, so no two posts have the same sender and nonce. */
  ghost predicate Numbered(nonces: map<seq<Byte>, nat>, posts: seq<Post>) {
    && DistinctKeys(posts)
    && forall i :: 0 <= i < |posts| ==> posts[i].nonce <= Stored(nonces, posts[i].sender)
  }

  /** The messages of a buffer are posts, each at most once. */
  ghost predicate Named(buffer: seq<Byte>, posts: seq<Post>) {
    Small(Unpack(buffer), MAX_ENCODED + 2) && From(Unpack(buffer), posts) && Distinct(Unpack(buffer))
  }

  ghost predicate Buffered(buffer: seq<Byte>, posts: seq<Post>) { WellFormed(buffer) && Named(buffer, posts) }

  ghost predicate OwnBlock(block: seq<Byte>, posts: seq<Post>) {
    block != [] && WellFormed(block) && From(Unpack(block), posts) && Distinct(Unpack(block))
  }

  /** The recorded proposals are what their hashes say, and the buffer is related to the own ones. */
  ghost predicate VotedOk(hash: seq<Byte> -> nat, r: Replica) {
    forall h :: h in r.voting ==>
      match r.voting[h]
      case Absent => true
      case Remote(block) => hash(block) == h
      case Local(size) =>
        && h in r.story.proposed
        && var block := r.story.proposed[h];
           hash(block) == h && |block| == size && OwnBlock(block, r.story.posts) && Kin(Unpack(r.buffer), Unpack(block))
  }

  ghost predicate Ordered(hash: seq<Byte> -> nat, r: Replica) {
    && !r.wrapped && Numbered(r.nonces, r.story.posts) && Buffered(r.buffer, r.story.posts)
    && VotedOk(hash, r) && Finalizes(hash, r.story.pieces, r.story.accepted)
  }

  lemma {:induction false} DistinctPrefix(xs: seq<Message>, ys: seq<Message>)
    requires xs <= ys && Distinct(ys)
    ensures Distinct(xs) && Elements(xs) <= Elements(ys)
  {
    assert forall i :: 0 <= i < |xs| ==> xs[i] == ys[i];
  }

  lemma {:induction false} DistinctSuffix(xs: seq<Message>, ys: seq<Message>)
    requires Distinct(xs + ys)
    ensures Distinct(ys) && Elements(ys) <= Elements(xs + ys)
  {
    assert forall i :: 0 <= i < |ys| ==> ys[i] == (xs + ys)[|xs| + i];
  }

  /** A new post is none of the old ones. */
  lemma {:induction false} NewPost(nonces: map<seq<Byte>, nat>, p: Post, posts: seq<Post>)
    requires Numbered(nonces, posts) && IsPost(p) && Stored(nonces, p.sender) < p.nonce
    ensures Numbered(nonces[p.sender := p.nonce], [p] + posts)
    ensures Encoded(p) !in Elements(Encodings(posts))
    ensures Elements(Encodings([p] + posts)) == {Encoded(p)} + Elements(Encodings(posts))
  {
    hide Encoded;
    var all := [p] + posts;
    assert forall i :: 0 < i < |all| ==> all[i] == posts[i - 1];
    assert DistinctKeys(all);
    EncodingsDistinct(all);
    EncodingsFirst(p, posts);
    hide DistinctKeys, Encodings;
    FirstIsNew(Encoded(p), Encodings(posts));
  }

  lemma {:induction false} FirstIsNew(m: Message, ms: seq<Message>)
    requires Distinct([m] + ms)
    ensures m !in Elements(ms) && Elements([m] + ms) == {m} + Elements(ms)
  {
    var all := [m] + ms;
    assert forall i :: 0 <= i < |ms| ==> ms[i] == all[i + 1] && all[0] != all[i + 1];
  }

  lemma {:induction false} SendBuffered(buffer: seq<Byte>, p: Post, posts: seq<Post>)
    requires Named(buffer, posts) && |Encoded(p)| <= MAX_ENCODED && |buffer| <= UNFINALIZED_BUFFER_CAP
    requires Encoded(p) !in Elements(Encodings(posts))
    requires Elements(Encodings([p] + posts)) == {Encoded(p)} + Elements(Encodings(posts))
    ensures var grown := buffer + Entry(Encoded(p));
            && Unpack(grown) == [Encoded(p)] + Unpack(buffer)
            && Unpack(Trimmed(grown)) <= Unpack(grown) && Distinct(Unpack(grown))
            && Named(Trimmed(grown), [p] + posts) && (WellFormed(buffer) ==> WellFormed(Trimmed(grown)))
  {
    hide Unpack, Junk, Trimmed, Entry, Encoded, Encodings;
    var m, ms := Encoded(p), Unpack(buffer);
    var grown := buffer + Entry(m);
    AppendFits(buffer, m);
    EntryIs(m);
    TrimmedFits(grown, MAX_ENCODED + 2);
    assert m !in Elements(ms);
    var all := [m] + ms;
    forall i, j | 0 <= i < j < |all| ensures all[i] != all[j] {
      assert all[j] == ms[j - 1] && all[j] in Elements(ms);
    }
    assert Elements(all) == {m} + Elements(ms);
    DistinctPrefix(Unpack(Trimmed(grown)), all);
  }

  lemma {:induction false} SendOrdered(hash: seq<Byte> -> nat, r: Replica, p: Post)
    requires Ordered(hash, r) && CanSend(r, p) && |Encoded(p)| <= MAX_ENCODED && |r.buffer| <= UNFINALIZED_BUFFER_CAP
    ensures Ordered(hash, Appended(r.(nonces := r.nonces[p.sender := p.nonce]), p))
  {
    hide Unpack, Junk, Trimmed, Entry, Encoded, Encodings, Distinct, Kin, Numbered, Small, CutAt, WellFormed;
    var posts := r.story.posts;
    NewPost(r.nonces, p, posts);
    SendBuffered(r.buffer, p, posts);
    var r' := Appended(r.(nonces := r.nonces[p.sender := p.nonce]), p);
    var grown := r.buffer + Entry(Encoded(p));
    forall h | h in r.voting && r.voting[h].Local?
      ensures OwnBlock(r.story.proposed[h], r'.story.posts) && Kin(Unpack(r'.buffer), Unpack(r.story.proposed[h]))
    {
      var b := Unpack(r.story.proposed[h]);
      assert Encoded(p) !in Elements(b);
      KinAppend(Encoded(p), Unpack(r.buffer), b);
      KinPrefix(Unpack(r'.buffer), Unpack(grown), b);
    }
  }

  lemma {:induction false} ProposeOrdered(hash: seq<Byte> -> nat, r: Replica)
    requires Ordered(hash, r) && CanPropose(r.buffer)
    ensures Ordered(hash, Next(hash, r, Propose))
  {
    hide Unpack, Junk, Encodings, Distinct, Kin, Numbered, ProposedBlock, Finalizes;
    var block := ProposedBlock(r.buffer);
    var ms, b := Unpack(r.buffer), Unpack(block);
    SameRound(r.buffer);
    var newer := Unpack(r.buffer[|block|..]);
    assert ms == newer + b;
    DistinctSuffix(newer, b);
    KinStart(newer, b);
    hide Small, WellFormed;
    var r' := Next(hash, r, Propose);
    assert OwnBlock(block, r.story.posts);
    hide OwnBlock, Buffered;
    assert VotedOk(hash, r');
  }

  /** What follows a held block is whole messages, which precede it in what is read. */
  lemma {:induction false} RestIsWhole(ps: seq<Post>, buffer: seq<Byte>, block: seq<Byte>)
    requires DistinctKeys(ps) && Buffered(buffer, ps) && OwnBlock(block, ps) && Kin(Unpack(buffer), Unpack(block))
    requires Holds(buffer, block)
    ensures block <= buffer && Buffered(buffer[|block|..], ps)
    ensures Unpack(buffer) == Unpack(buffer[|block|..]) + Unpack(block)
  {
    hide Unpack, Junk, Pack, DistinctKeys, Encodings, Distinct, Kin;
    var ms, b := Unpack(buffer), Unpack(block);
    FrontMeansHeld(ps, buffer, block);
    var newer, rest := ms[..|ms| - |b|], buffer[|block|..];
    assert ms == newer + b && buffer == block + rest;
    PackAppend(newer, b);
    WellFormedIsPacked(buffer);
    WellFormedIsPacked(block);
    assert rest == Pack(newer);
    PackOfUnpack(buffer);
    forall i | 0 <= i < |newer| ensures |newer[i]| < 0x1_0000 { assert newer[i] == ms[i]; }
    UnpackOfPack(newer);
    DistinctPrefix(newer, ms);
    SmallPrefix(newer, ms, MAX_ENCODED + 2);
  }

  /** An own proposal that is accepted finalizes the block it proposed exactly when it is held. */
  lemma {:induction false} PieceIsBlock(hash: seq<Byte> -> nat, r: Replica, h: nat)
    requires Injective(hash) && Ordered(hash, r) && Voted(r.voting, h).Local?
    ensures var size := r.voting[h].size;
            (size <= |r.buffer| && hash(r.buffer[..size]) == h) <==> Holds(r.buffer, r.story.proposed[h])
    ensures hash([]) != h
  {
    hide Unpack, Junk, DistinctKeys, Encodings, Distinct, Kin, Small, WellFormed, Finalizes, Elements;
    var size, block := r.voting[h].size, r.story.proposed[h];
    FrontMeansHeld(r.story.posts, r.buffer, block);
    assert block <= r.buffer <==> size <= |r.buffer| && r.buffer[..size] == block;
    assert hash(block) == h;
  }

  lemma {:induction false} LocalOrdered(hash: seq<Byte> -> nat, r: Replica, h: nat)
    requires Injective(hash) && Ordered(hash, r) && Voted(r.voting, h).Local? && Holds(r.buffer, r.story.proposed[h])
    ensures Ordered(hash, AcceptedLocal(r.(voting := r.voting - {h}), h, r.voting[h].size))
    ensures r.voting[h].size <= |r.buffer| && r.buffer[..r.voting[h].size] == r.story.proposed[h]
    ensures Unpack(r.buffer) == Unpack(r.buffer[r.voting[h].size..]) + Unpack(r.story.proposed[h])
    ensures WellFormed(r.buffer[r.voting[h].size..])
  {
    hide Unpack, Junk, DistinctKeys, Encodings, Distinct, Kin, Small, WellFormed, Older, Cut, Elements;
    var size, block := r.voting[h].size, r.story.proposed[h];
    RestIsWhole(r.story.posts, r.buffer, block);
    var rest := r.buffer[size..];
    var r' := AcceptedLocal(r.(voting := r.voting - {h}), h, size);
    forall g | g in r.voting && r.voting[g].Local? ensures Kin(Unpack(rest), Unpack(r.story.proposed[g])) {
      KinPrefix(Unpack(rest), Unpack(r.buffer), Unpack(r.story.proposed[g]));
    }
    LastPiece(hash, r.story.pieces, r.story.accepted, block, h);
    assert r.buffer[..size] == block;
    hide OwnBlock, Buffered, Finalizes, Numbered;
    assert VotedOk(hash, r');
    assert Finalizes(hash, r'.story.pieces, r'.story.accepted);
  }

  lemma {:induction false} RemoteOrdered(hash: seq<Byte> -> nat, r: Replica, h: nat)
    requires Ordered(hash, r) && Voted(r.voting, h).Remote?
    ensures Ordered(hash, AcceptedRemote(r.(voting := r.voting - {h}), h, r.voting[h].block))
  {
    hide Unpack, Junk, DistinctKeys, Encodings, Distinct, Kin, Small, WellFormed, Filter, Pack;
    var keep := Outside(Elements(Unpack(r.voting[h].block)));
    var ms := Unpack(r.buffer);
    var r' := AcceptedRemote(r.(voting := r.voting - {h}), h, r.voting[h].block);
    RetainedUnpacks(keep, r.buffer);
    FilteredSmall(keep, r.buffer, MAX_ENCODED + 2);
    FilterDistinct(keep, ms);
    assert Elements(Filter(keep, ms)) <= Elements(ms);
    forall g | g in r.voting && r.voting[g].Local? ensures Kin(Filter(keep, ms), Unpack(r.story.proposed[g])) {
      KinFilter(keep, ms, Unpack(r.story.proposed[g]));
    }
    hide OwnBlock;
    assert Buffered(r'.buffer, r.story.posts);
    hide Buffered;
    assert VotedOk(hash, r');
  }

  /** One step from an ordered state: it stays one, and finalizes what was accepted, exactly when
      no own proposal is accepted that is not held. */
  lemma {:induction false} StepFinalizes(hash: seq<Byte> -> nat, r: Replica, e: Event)
    requires Injective(hash) && Ordered(hash, r) && !e.Reset? && |r.buffer| <= UNFINALIZED_BUFFER_CAP
    ensures HeldAt(r, e) ==> Ordered(hash, Next(hash, r, e))
    ensures var s := Next(hash, r, e).story; HeldAt(r, e) <==> Finalizes(hash, s.pieces, s.accepted)
  {
    hide Buffered, Kin, OwnBlock, Holds, Encoded, ProposedBlock, Older, Cut, Trimmed, Filter, CutAt, Unpack, Pack;
    match e
    case Send(p) =>
      if CanSend(r, p) {
        if |Encoded(p)| <= MAX_ENCODED {
          SendOrdered(hash, r, p);
        } else {
          NonceOrdered(hash, r, p);
        }
      }
    case Propose => if CanPropose(r.buffer) { ProposeOrdered(hash, r); }
    case Offer(_) =>
    case Forget(_) =>
    case Accept(h) =>
      match Voted(r.voting, h) {
        case Absent =>
        case Remote(_) => RemoteOrdered(hash, r, h);
        case Local(size) =>
          PieceIsBlock(hash, r, h);
          LastPiece(hash, r.story.pieces, r.story.accepted, if size <= |r.buffer| then r.buffer[..size] else [], h);
          if Holds(r.buffer, r.story.proposed[h]) { LocalOrdered(hash, r, h); }
      }
  }

  /** A message too long to be appended still uses up its nonce. */
  lemma {:induction false} NonceOrdered(hash: seq<Byte> -> nat, r: Replica, p: Post)
    requires Ordered(hash, r) && CanSend(r, p)
    ensures Ordered(hash, r.(nonces := r.nonces[p.sender := p.nonce]))
  {
    hide Buffered, OwnBlock, Kin, Finalizes, Unpack;
  }

  lemma {:induction false} LastPiece(hash: seq<Byte> -> nat, pieces: seq<seq<Byte>>, accepted: seq<nat>, piece: seq<Byte>, h: nat)
    requires |pieces| == |accepted|
    ensures Finalizes(hash, pieces + [piece], accepted + [h]) <==> Finalizes(hash, pieces, accepted) && hash(piece) == h
  {
    var ps, hs := pieces + [piece], accepted + [h];
    if Finalizes(hash, ps, hs) {
      forall i | 0 <= i < |pieces| ensures hash(pieces[i]) == accepted[i] {
        assert hash(ps[i]) == hs[i];
      }
      assert hash(ps[|pieces|]) == hs[|pieces|];
    }
  }

  /** What was finalized wrongly once stays so. */
  lemma {:induction false} PiecesStay(hash: seq<Byte> -> nat, r: Replica, e: Event)
    requires |r.story.pieces| == |r.story.accepted|
    ensures var s := Next(hash, r, e).story;
            && |s.pieces| == |s.accepted|
            && (Finalizes(hash, s.pieces, s.accepted) ==> Finalizes(hash, r.story.pieces, r.story.accepted))
  {
    hide Finalizes, Unpack, Pack, Filter, Encoded, Trimmed, CutAt, ProposedBlock, Older, Cut;
    var s := Next(hash, r, e).story;
    if |s.pieces| > |r.story.pieces| {
      var n := |r.story.pieces|;
      LastPiece(hash, r.story.pieces, r.story.accepted, s.pieces[n], s.accepted[n]);
    }
  }

  lemma {:induction false} SameLengths(hash: seq<Byte> -> nat, events: seq<Event>)
    ensures var s := Run(hash, START, events).story; |s.pieces| == |s.accepted|
    decreases |events|
  {
    hide Next;
    if events == [] {
    } else {
      var before := events[..|events| - 1];
      SameLengths(hash, before);
      PiecesStay(hash, Run(hash, START, before), events[|events| - 1]);
    }
  }

  lemma {:induction false} StartOrdered(hash: seq<Byte> -> nat)
    ensures Ordered(hash, START)
  {
    UnpackNothing();
  }

  lemma {:induction false} RunFinalizes(hash: seq<Byte> -> nat, events: seq<Event>)
    requires Injective(hash) && NoResets(events)
    ensures AllHeld(hash, events) ==> Ordered(hash, Run(hash, START, events))
    ensures AllHeld(hash, events) <==> Finalizes(hash, Run(hash, START, events).story.pieces, Run(hash, START, events).story.accepted)
    decreases |events|
  {
    hide Next, Ordered, Finalizes, HeldAt, Injective;
    StartOrdered(hash);
    StartFinalizes(hash);
    if events == [] {
    } else {
      var n := |events| - 1;
      var before, r := events[..n], Run(hash, START, events[..n]);
      RunFinalizes(hash, before);
      EveryMessageIsAccounted(hash, before);
      if AllHeld(hash, before) {
        StepFinalizes(hash, r, events[n]);
      } else {
        SameLengths(hash, before);
        PiecesStay(hash, r, events[n]);
      }
    }
  }

  lemma {:induction false} StartFinalizes(hash: seq<Byte> -> nat)
    ensures Finalizes(hash, START.story.pieces, START.story.accepted)
  {
  }

  /** In every run without nonce resets: every acceptance finalizes the block with the accepted hash
      if and only if each own proposal is still held, message by message, when it is accepted. */
  lemma {:induction false} FinalizesProposals(hash: seq<Byte> -> nat, events: seq<Event>)
    requires Injective(hash) && NoResets(events)
    ensures Finalizes(hash, Run(hash, START, events).story.pieces, Run(hash, START, events).story.accepted) <==> AllHeld(hash, events)
  {
    RunFinalizes(hash, events);
  }

  lemma {:induction false} PiecesByHash(hash: seq<Byte> -> nat, s: Story, t: Story)
    requires Injective(hash) && Finalizes(hash, s.pieces, s.accepted) && s.accepted == t.accepted
    ensures Finalizes(hash, t.pieces, t.accepted) <==> s.pieces == t.pieces
  {
    if Finalizes(hash, t.pieces, t.accepted) {
      forall i | 0 <= i < |s.pieces| ensures s.pieces[i] == t.pieces[i] {
        assert hash(s.pieces[i]) == s.accepted[i] == hash(t.pieces[i]);
      }
    }
  }

  /** Replicas that accepted the same hashes, whether as their own proposals or as another
      replica's: if one held all it accepted, the other finalized the same blocks, and has the same
      finalized log, if and only if it held all its own as well. */
  lemma {:induction false} ReplicasAgree(hash: seq<Byte> -> nat, es: seq<Event>, fs: seq<Event>)
    requires Injective(hash) && NoResets(es) && NoResets(fs) && AllHeld(hash, es)
    requires Run(hash, START, es).story.accepted == Run(hash, START, fs).story.accepted
    ensures AllHeld(hash, fs) <==> Run(hash, START, es).story.pieces == Run(hash, START, fs).story.pieces
    ensures AllHeld(hash, fs) ==> Run(hash, START, es).finalized == Run(hash, START, fs).finalized
  {
    hide Run, AllHeld, Joined, Injective, Finalizes;
    FinalizesProposals(hash, es);
    FinalizesProposals(hash, fs);
    EveryMessageIsAccounted(hash, es);
    EveryMessageIsAccounted(hash, fs);
    PiecesByHash(hash, Run(hash, START, es).story, Run(hash, START, fs).story);
  }

  // ------------------------------------------------------- nothing lost, nothing twice

  /** If the event accepts another replica's block, it repeats no message and this replica still
      holds all of them. */
  ghost predicate SoundAt(r: Replica, e: Event) {
    e.Accept? && !r.wrapped && Voted(r.voting, e.hash).Remote? ==>
      var block := r.voting[e.hash].block;
      Distinct(Unpack(block)) && Holds(r.buffer, block)
  }

  ghost predicate AllSound(hash: seq<Byte> -> nat, events: seq<Event>)
    decreases |events|
  {
    events == [] || (AllSound(hash, events[..|events| - 1]) && SoundAt(Run(hash, START, events[..|events| - 1]), events[|events| - 1]))
  }

  ghost predicate Conserved(s: Story) { s.gained == multiset{} && s.lost == multiset{} && s.torn == multiset{} }

  /** A block takes from the buffer exactly what it brings. */
  lemma {:induction false} RemoteConserves(block: seq<Message>, buffered: seq<Message>)
    requires Distinct(buffered)
    ensures var came, left := multiset(block), multiset(Filter(Inside(Elements(block)), buffered));
            came - left == multiset{} == left - came <==> Distinct(block) && Elements(block) <= Elements(buffered)
  {
    hide Distinct, Filter;
    var came, left := multiset(block), multiset(Filter(Inside(Elements(block)), buffered));
    var rest := multiset(Filter(Outside(Elements(block)), buffered));
    AcceptanceConserves(block, buffered);
    Partition(Elements(block), buffered);
    if came + rest == left + rest {
      SumCancels(came, left, rest);
    }
    NoDifference(came, left);
  }

  lemma {:induction false} NoDifference(a: multiset<Message>, b: multiset<Message>)
    ensures a - b == multiset{} == b - a <==> a == b
  {
    if a - b == multiset{} == b - a {
      forall m ensures a[m] == b[m] {
        assert (a - b)[m] == 0 && (b - a)[m] == 0;
      }
    }
  }

  lemma {:induction false} LocalConserves(hash: seq<Byte> -> nat, r: Replica, h: nat)
    requires Injective(hash) && Ordered(hash, r) && Voted(r.voting, h).Local? && Holds(r.buffer, r.story.proposed[h])
    ensures var s := AcceptedLocal(r.(voting := r.voting - {h}), h, r.voting[h].size).story;
            && s.gained == r.story.gained && s.lost == r.story.lost && s.torn == r.story.torn
            && s.settled == r.story.settled + multiset(Unpack(r.story.proposed[h]))
  {
    var size, block := r.voting[h].size, r.story.proposed[h];
    hide Ordered, Injective, Unpack, Holds, Junk;
    LocalOrdered(hash, r, h);
    var older := Older(r.buffer, size);
    assert block + [] == block;
    assert older == Unpack(block) && Cut(r.buffer, size) == 0;
    assert older[0..] == older && older[..0] == [];
  }

  lemma {:induction false} StepConserves(hash: seq<Byte> -> nat, r: Replica, e: Event)
    requires Injective(hash) && Ordered(hash, r) && HeldAt(r, e)
    ensures Conserved(Next(hash, r, e).story) <==> Conserved(r.story) && SoundAt(r, e)
  {
    hide Injective, Unpack, Junk, Holds, Distinct, Filter, Encoded, ProposedBlock, Trimmed, CutAt, Pack, AcceptedLocal, VotedOk, Numbered, Finalizes, Elements;
    if e.Accept? {
      match Voted(r.voting, e.hash) {
        case Absent =>
        case Local(_) => LocalConserves(hash, r, e.hash);
        case Remote(block) =>
          RemoteConserves(Unpack(block), Unpack(r.buffer));
          HoldsMeans(r.buffer, block);
          var names := Elements(Unpack(block));
          var came, left := multiset(Unpack(block)), multiset(Filter(Inside(names), Unpack(r.buffer)));
          EmptySum(r.story.gained, came - left);
          EmptySum(r.story.lost, left - came);
      }
    }
  }

  lemma {:induction false} HoldsMeans(buffer: seq<Byte>, block: seq<Byte>)
    ensures Holds(buffer, block) <==> Elements(Unpack(block)) <= Elements(Unpack(buffer))
  {
  }

  lemma {:induction false} EmptySum(a: multiset<Message>, b: multiset<Message>)
    ensures a + b == multiset{} <==> a == multiset{} && b == multiset{}
  {
    if a + b == multiset{} {
      forall m ensures a[m] == 0 && b[m] == 0 { assert (a + b)[m] == 0; }
    }
  }

  /** In a run without resets in which own proposals are held: nothing is torn, gained or lost if
      and only if every other accepted block repeats no message and is held when it is accepted. */
  lemma {:induction false} ConservesExactly(hash: seq<Byte> -> nat, events: seq<Event>)
    requires Injective(hash) && NoResets(events) && AllHeld(hash, events)
    ensures Conserved(Run(hash, START, events).story) <==> AllSound(hash, events)
    decreases |events|
  {
    hide Next, Ordered, HeldAt, Injective, SoundAt;
    if events == [] {
    } else {
      var n := |events| - 1;
      ConservesExactly(hash, events[..n]);
      RunFinalizes(hash, events[..n]);
      StepConserves(hash, Run(hash, START, events[..n]), events[n]);
    }
  }

  /** In such a run each message sent is in exactly one of the finalized blocks, the buffer and the
      dropped blocks. */
  lemma {:induction false} NoMessageIsLost(hash: seq<Byte> -> nat, events: seq<Event>)
    requires Injective(hash) && NoResets(events) && AllHeld(hash, events) && AllSound(hash, events)
    ensures var r := Run(hash, START, events);
            && r.story.settled + multiset(Unpack(r.buffer)) + r.story.dropped == multiset(Encodings(r.story.posts))
            && Distinct(Encodings(r.story.posts)) && WellFormed(r.buffer)
  {
    hide Run, AllHeld, AllSound, Unpack, Encodings, Distinct, Joined, Finalizes, VotedOk;
    RunFinalizes(hash, events);
    ConservesExactly(hash, events);
    EveryMessageIsAccounted(hash, events);
    var s := Run(hash, START, events).story;
    EncodingsDistinct(s.posts);
    NothingMore(s.settled + multiset(Unpack(Run(hash, START, events).buffer)) + s.dropped, multiset(Encodings(s.posts)));
  }

  lemma {:induction false} NothingMore(a: multiset<Message>, b: multiset<Message>)
    requires a + multiset{} + multiset{} == b + multiset{}
    ensures a == b
  {
    assert a + multiset{} + multiset{} == a && b + multiset{} == b;
  }

  /** What was settled is what the finalized log reads, when the accepted blocks are well-formed. */
  ghost predicate Reads(r: Replica) { WellFormed(r.finalized) && multiset(Unpack(r.finalized)) == r.story.settled }

  ghost predicate WholePieces(s: Story) { forall i :: 0 <= i < |s.pieces| ==> WellFormed(s.pieces[i]) }

  lemma {:induction false} PieceReads(r: Replica, piece: seq<Byte>)
    requires Reads(r) && WellFormed(piece)
    ensures WellFormed(r.finalized + piece) && multiset(Unpack(r.finalized + piece)) == r.story.settled + multiset(Unpack(piece))
  {
    hide Unpack, Junk;
    WellFormedAppend(r.finalized, piece);
    Append(Unpack(piece), Unpack(r.finalized));
  }

  lemma {:induction false} StepReads(hash: seq<Byte> -> nat, r: Replica, e: Event)
    requires Injective(hash) && Ordered(hash, r) && HeldAt(r, e) && Reads(r) && WholePieces(Next(hash, r, e).story)
    ensures Reads(Next(hash, r, e))
  {
    hide Injective, Unpack, Junk, Holds, Filter, Encoded, ProposedBlock, Trimmed, CutAt, Pack, Numbered, Finalizes, Elements, WellFormed, Older, Cut;
    var r' := Next(hash, r, e);
    if e.Accept? {
      match Voted(r.voting, e.hash) {
        case Absent =>
        case Local(_) =>
          LocalConserves(hash, r, e.hash);
          LocalOrdered(hash, r, e.hash);
          PieceReads(r, r'.story.pieces[|r.story.pieces|]);
        case Remote(_) =>
          PieceReads(r, r'.story.pieces[|r.story.pieces|]);
      }
    }
  }

  lemma {:induction false} PiecesGrow(hash: seq<Byte> -> nat, r: Replica, e: Event)
    ensures r.story.pieces <= Next(hash, r, e).story.pieces
  {
    hide Unpack, Pack, Filter, Encoded, Trimmed, CutAt, ProposedBlock, Older, Cut;
  }

  lemma {:induction false} RunReads(hash: seq<Byte> -> nat, events: seq<Event>)
    requires Injective(hash) && NoResets(events) && AllHeld(hash, events) && WholePieces(Run(hash, START, events).story)
    ensures Reads(Run(hash, START, events))
    decreases |events|
  {
    hide Next, Ordered, HeldAt, Injective, WellFormed;
    if events == [] {
      StartReads();
    } else {
      var n := |events| - 1;
      var r := Run(hash, START, events[..n]);
      PiecesGrow(hash, r, events[n]);
      var all := Next(hash, r, events[n]).story.pieces;
      forall i | 0 <= i < |r.story.pieces| ensures WellFormed(r.story.pieces[i]) {
        assert all[i] == r.story.pieces[i];
      }
      RunReads(hash, events[..n]);
      RunFinalizes(hash, events[..n]);
      StepReads(hash, r, events[n]);
    }
  }

  lemma {:induction false} StartReads()
    ensures Reads(START)
  {
    UnpackNothing();
  }
}
