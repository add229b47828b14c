/** A replica over every run of messages, proposals and decisions, in any order. What each step does
    to the messages is accounted for, however stale the accepted proposal is. */
module ChatRuns {
  import opened Octets
  import opened Lists
  import opened ChatMessages
  import opened ChatBlocks
  import opened ChatLog
  import opened ChatPosts

  /** What has happened so far: the posts appended, newest first, the blocks this replica proposed by
      their hash, the hashes of the accepted blocks and the bytes each acceptance finalized. The
      messages: finalized as a whole, dropped with an oldest block, cut in two by an acceptance,
      finalized without having been buffered, and removed without having been finalized. */
  datatype Story = Story(
    posts: seq<Post>, proposed: map<nat, seq<Byte>>, accepted: seq<nat>, pieces: seq<seq<Byte>>,
    settled: multiset<Message>, dropped: multiset<Message>, torn: multiset<Message>,
    gained: multiset<Message>, lost: multiset<Message>)

  /** The file in its two parts, each member's last nonce, the proposals to be voted on, and whether
      the buffer's length has wrapped, after which the file cannot be used any more. */
  datatype Replica = Replica(
    finalized: seq<Byte>, buffer: seq<Byte>, wrapped: bool,
    nonces: map<seq<Byte>, nat>, voting: map<nat, Proposal>, story: Story)

  /** A message arrives; a member's record is rewritten, which resets the nonce; this replica proposes;
      another replica's block arrives, whether or not it passes the checks; votes are over without a
      block or proposals are outdated; a vote accepts. */
  datatype Event =
    | Send(post: Post)
    | Reset(sender: seq<Byte>)
    | Propose
    | Offer(block: seq<Byte>)
    | Forget(hashes: set<nat>)
    | Accept(hash: nat)

  const NOTHING := Story([], map[], [], [], multiset{}, multiset{}, multiset{}, multiset{}, multiset{})
  const START := Replica([], [], false, map[], map[], NOTHING)

  // ------------------------------------------------------------------- steps

  function Stored(nonces: map<seq<Byte>, nat>, sender: seq<Byte>): nat {
    if sender in nonces then nonces[sender] else 0
  }

  /** Where the buffer with the new message is cut. */
  function CutAt(grown: seq<Byte>): (l: nat)
    ensures l <= |grown|
  {
    if |grown| > UNFINALIZED_BUFFER_CAP then Boundary(grown, BLOCK_SIZE) else 0
  }

  ghost function Appended(r: Replica, p: Post): Replica {
    var grown := r.buffer + Entry(Encoded(p));
    r.(buffer := Trimmed(grown),
       story := r.story.(posts := [p] + r.story.posts,
                         dropped := r.story.dropped + multiset(Unpack(grown[..CutAt(grown)]))))
  }

  /** The messages that end in the front of a buffer or are cut by its end. */
  ghost function Older(buffer: seq<Byte>, size: nat): seq<Message>
    requires size <= |buffer|
  {
    Unpack(buffer[..size] + Junk(buffer[size..]))
  }

  /** How many messages the cut tears. */
  ghost function Cut(buffer: seq<Byte>, size: nat): (n: nat)
    requires size <= |buffer|
    ensures n <= |Older(buffer, size)|
  {
    if Junk(buffer[size..]) == [] || Older(buffer, size) == [] then 0 else 1
  }

  /** The front of the buffer is finalized, as many bytes as the proposal had. */
  ghost function AcceptedLocal(r: Replica, h: nat, size: nat): Replica {
    if size > |r.buffer| then
      r.(wrapped := true, story := r.story.(accepted := r.story.accepted + [h], pieces := r.story.pieces + [[]]))
    else
      var older, n := Older(r.buffer, size), Cut(r.buffer, size);
      r.(finalized := r.finalized + r.buffer[..size], buffer := r.buffer[size..],
         story := r.story.(accepted := r.story.accepted + [h], pieces := r.story.pieces + [r.buffer[..size]],
                           settled := r.story.settled + multiset(older[n..]),
                           torn := r.story.torn + multiset(older[..n])))
  }

  /** The block is finalized and its messages leave the buffer. */
  ghost function AcceptedRemote(r: Replica, h: nat, block: seq<Byte>): Replica {
    var names := Elements(Unpack(block));
    var came, left := multiset(Unpack(block)), multiset(Filter(Inside(names), Unpack(r.buffer)));
    r.(finalized := r.finalized + block, buffer := Pack(Filter(Outside(names), Unpack(r.buffer))),
       story := r.story.(accepted := r.story.accepted + [h], pieces := r.story.pieces + [block],
                         settled := r.story.settled + came,
                         gained := r.story.gained + (came - left), lost := r.story.lost + (left - came)))
  }

  ghost predicate CanSend(r: Replica, p: Post) { IsPost(p) && Stored(r.nonces, p.sender) < p.nonce }

  /** A buffer that `ShouldFinalize` may be true of. */
  predicate CanPropose(buffer: seq<Byte>) {
    |buffer| > BLOCK_SIZE && |buffer| % BLOCK_SIZE > BLOCK_SIZE / 2
  }

  function Voted(voting: map<nat, Proposal>, h: nat): Proposal {
    if h in voting then voting[h] else Absent
  }

  ghost function Next(hash: seq<Byte> -> nat, r: Replica, e: Event): Replica {
    if r.wrapped then r
    else
      match e
      case Send(p) =>
        if !CanSend(r, p) then r
        else
          var s := r.(nonces := r.nonces[p.sender := p.nonce]);
          if |Encoded(p)| > MAX_ENCODED then s else Appended(s, p)
      case Reset(sender) => r.(nonces := r.nonces - {sender})
      case Propose =>
        if !CanPropose(r.buffer) then r
        else
          var block := ProposedBlock(r.buffer);
          r.(voting := r.voting[hash(block) := Local(|block|)],
             story := r.story.(proposed := r.story.proposed[hash(block) := block]))
      case Offer(block) =>
        if Voted(r.voting, hash(block)) != Absent then r else r.(voting := r.voting[hash(block) := Remote(block)])
      case Forget(hs) => r.(voting := r.voting - hs)
      case Accept(h) =>
        var s := r.(voting := r.voting - {h});
        match Voted(r.voting, h)
        case Absent => r
        case Local(size) => AcceptedLocal(s, h, size)
        case Remote(block) => AcceptedRemote(s, h, block)
  }

  ghost function Run(hash: seq<Byte> -> nat, r: Replica, events: seq<Event>): Replica
    decreases |events|
  {
    if events == [] then r else Next(hash, Run(hash, r, events[..|events| - 1]), events[|events| - 1])
  }

  lemma {:induction false} RunAppend(hash: seq<Byte> -> nat, r: Replica, es: seq<Event>, fs: seq<Event>)
    ensures Run(hash, r, es + fs) == Run(hash, Run(hash, r, es), fs)
    decreases |fs|
  {
    hide Next;
    if fs == [] {
      assert es + fs == es;
    } else {
      RunAppend(hash, r, es, fs[..|fs| - 1]);
      assert (es + fs)[..|es + fs| - 1] == es + fs[..|fs| - 1];
    }
  }

  lemma {:induction false} RunOne(hash: seq<Byte> -> nat, r: Replica, e: Event)
    ensures Run(hash, r, [e]) == Next(hash, r, e)
  {
    hide Next;
    assert [e][..0] == [];
    assert Run(hash, r, []) == r;
  }

  function Joined(pieces: seq<seq<Byte>>): seq<Byte> {
    if pieces == [] then [] else Joined(pieces[..|pieces| - 1]) + pieces[|pieces| - 1]
  }

  // -------------------------------------------------------------- the account

  ghost predicate Balances(buffered: seq<Message>, s: Story) {
    s.settled + multiset(buffered) + s.dropped + s.torn + s.lost == multiset(Encodings(s.posts)) + s.gained
  }

  ghost predicate Accounted(r: Replica) {
    && Small(Unpack(r.buffer), MAX_ENCODED + 2) && |r.buffer| <= UNFINALIZED_BUFFER_CAP
    && Balances(Unpack(r.buffer), r.story) && r.finalized == Joined(r.story.pieces)
  }

  lemma {:induction false} Append(xs: seq<Message>, ys: seq<Message>)
    ensures multiset(xs + ys) == multiset(xs) + multiset(ys)
  {
  }

  lemma {:induction false} EncodingsFirst(p: Post, ps: seq<Post>)
    ensures Encodings([p] + ps) == [Encoded(p)] + Encodings(ps)
  {
    hide Encoded;
  }

  lemma {:induction false} JoinedSnoc(pieces: seq<seq<Byte>>, b: seq<Byte>)
    ensures Joined(pieces + [b]) == Joined(pieces) + b
  {
    assert (pieces + [b])[..|pieces|] == pieces;
  }

  lemma {:induction false} TrimSplits(grown: seq<Byte>)
    requires Small(Unpack(grown), MAX_ENCODED + 2)
    ensures Unpack(grown) == Unpack(Trimmed(grown)) + Unpack(grown[..CutAt(grown)])
  {
    hide Unpack, Junk, Boundary;
    if |grown| > UNFINALIZED_BUFFER_CAP {
      BoundarySplits(grown, BLOCK_SIZE, MAX_ENCODED + 2);
    } else {
      assert grown[..0] == [];
      UnpackNothing();
      assert Unpack(grown) + [] == Unpack(grown);
    }
  }

  lemma {:induction false} SumAfterSend(
    rest: multiset<Message>, b: multiset<Message>, d: multiset<Message>, m: multiset<Message>,
    kept: multiset<Message>, gone: multiset<Message>, s: multiset<Message>, g: multiset<Message>,
    t: multiset<Message>, l: multiset<Message>)
    requires rest + b + d + t + l == s + g && m + b == kept + gone
    ensures rest + kept + (d + gone) + t + l == (m + s) + g
  {
    assert rest + kept + (d + gone) + t + l == rest + (kept + gone) + d + t + l;
    assert rest + (m + b) + d + t + l == m + (rest + b + d + t + l);
  }

  lemma {:induction false} SendBalances(r: Replica, p: Post)
    requires Accounted(r) && |Encoded(p)| <= MAX_ENCODED
    ensures Accounted(Appended(r, p))
  {
    hide Unpack, Junk, Trimmed, CutAt, Entry, Joined, Encoded, Encodings;
    var m := Encoded(p);
    var grown := r.buffer + Entry(m);
    AppendFits(r.buffer, m);
    EntryIs(m);
    TrimmedFits(grown, MAX_ENCODED + 2);
    TrimSplits(grown);
    var gone, kept := Unpack(grown[..CutAt(grown)]), Unpack(Trimmed(grown));
    EncodingsFirst(p, r.story.posts);
    hide Small;
    Append([m], Unpack(r.buffer));
    Append(kept, gone);
    Append([m], Encodings(r.story.posts));
    SumAfterSend(r.story.settled, multiset(Unpack(r.buffer)), r.story.dropped, multiset([m]), multiset(kept), multiset(gone),
                 multiset(Encodings(r.story.posts)), r.story.gained, r.story.torn, r.story.lost);
  }

  lemma {:induction false} SumAfterLocal(
    f: multiset<Message>, b: multiset<Message>, kept: multiset<Message>, whole: multiset<Message>,
    cut: multiset<Message>, d: multiset<Message>, t: multiset<Message>, l: multiset<Message>, s: multiset<Message>)
    requires f + b + d + t + l == s && b == kept + (cut + whole)
    ensures (f + whole) + kept + d + (t + cut) + l == s
  {
    assert (f + whole) + kept + d + (t + cut) + l == f + (kept + (cut + whole)) + d + t + l;
  }

  /** The messages of the buffer are those of its tail and the older ones. */
  lemma {:induction false} CutSplits(buffer: seq<Byte>, size: nat)
    requires size <= |buffer|
    ensures Unpack(buffer) == Unpack(buffer[size..]) + Older(buffer, size)
  {
    hide Unpack, Junk;
    assert buffer == buffer[..size] + buffer[size..];
    WindowReadsTheSame(buffer[..size], buffer[size..]);
  }

  lemma {:induction false} LocalBalances(r: Replica, h: nat, size: nat)
    requires Accounted(r) && size <= |r.buffer|
    ensures Accounted(AcceptedLocal(r, h, size))
  {
    hide Unpack, Junk, Joined, Encodings, Older, Cut;
    var older, n, tail := Older(r.buffer, size), Cut(r.buffer, size), Unpack(r.buffer[size..]);
    CutSplits(r.buffer, size);
    SmallPrefix(tail, Unpack(r.buffer), MAX_ENCODED + 2);
    JoinedSnoc(r.story.pieces, r.buffer[..size]);
    hide Small;
    assert older == older[..n] + older[n..];
    Append(older[..n], older[n..]);
    Append(tail, older);
    SumAfterLocal(r.story.settled, multiset(Unpack(r.buffer)), multiset(tail), multiset(older[n..]), multiset(older[..n]),
                  r.story.dropped, r.story.torn, r.story.lost, multiset(Encodings(r.story.posts)) + r.story.gained);
  }

  lemma {:induction false} SumAfterRemote(
    f: multiset<Message>, b: multiset<Message>, came: multiset<Message>, left: multiset<Message>, rest: multiset<Message>,
    d: multiset<Message>, t: multiset<Message>, l: multiset<Message>, s: multiset<Message>, g: multiset<Message>)
    requires f + b + d + t + l == s + g && b == left + rest
    ensures (f + came) + rest + d + t + (l + (left - came)) == s + (g + (came - left))
  {
    MaxEitherWay(came, left);
    assert (f + came) + rest + d + t + (l + (left - came)) == f + (came + (left - came)) + rest + d + t + l;
    assert f + (left + (came - left)) + rest + d + t + l == f + (left + rest) + d + t + l + (came - left);
  }

  lemma {:induction false} MaxEitherWay(a: multiset<Message>, b: multiset<Message>)
    ensures a + (b - a) == b + (a - b)
  {
  }

  lemma {:induction false} RemoteBalances(r: Replica, h: nat, block: seq<Byte>)
    requires Accounted(r)
    ensures Accounted(AcceptedRemote(r, h, block))
  {
    hide Unpack, Junk, Pack, Filter, Joined, Encodings;
    var names, buffered := Elements(Unpack(block)), Unpack(r.buffer);
    RetainedUnpacks(Outside(names), r.buffer);
    FilteredSmall(Outside(names), r.buffer, MAX_ENCODED + 2);
    JoinedSnoc(r.story.pieces, block);
    Partition(names, buffered);
    hide Small;
    var s := r.story;
    SumAfterRemote(s.settled, multiset(buffered), multiset(Unpack(block)), multiset(Filter(Inside(names), buffered)),
                   multiset(Filter(Outside(names), buffered)), s.dropped, s.torn, s.lost, multiset(Encodings(s.posts)), s.gained);
  }

  lemma {:induction false} WrapBalances(r: Replica, h: nat, size: nat)
    requires Accounted(r) && |r.buffer| < size
    ensures Accounted(AcceptedLocal(r, h, size))
  {
    hide Unpack, Encodings;
    JoinedSnoc(r.story.pieces, []);
    hide Joined;
    assert r.finalized + [] == r.finalized;
  }

  lemma {:induction false} NextBalances(hash: seq<Byte> -> nat, r: Replica, e: Event)
    requires Accounted(r)
    ensures Accounted(Next(hash, r, e))
  {
    hide Unpack, Junk, Joined, Encodings, Encoded, Appended, AcceptedLocal, AcceptedRemote, ProposedBlock, Small;
    if r.wrapped {
    } else {
      match e
      case Send(p) =>
        var s := r.(nonces := r.nonces[p.sender := p.nonce]);
        assert Accounted(s);
        if CanSend(r, p) && |Encoded(p)| <= MAX_ENCODED { SendBalances(s, p); }
      case Accept(h) =>
        var s := r.(voting := r.voting - {h});
        assert Accounted(s);
        match Voted(r.voting, h) {
          case Absent =>
          case Local(size) => if size <= |r.buffer| { LocalBalances(s, h, size); } else { WrapBalances(s, h, size); }
          case Remote(block) => RemoteBalances(s, h, block);
        }
      case _ =>
    }
  }

  /** In every run, with any messages, nonce resets and blocks, in any order: each message sent is
      finalized, buffered, dropped, cut or removed, as often as it was sent; what was finalized on
      top of that is counted; the finalized part is the accepted pieces; the buffer is within its cap.
      That the bytes of the finalized part read as the messages counted here is `RunReads` in
      `ChatProposals`. */
  lemma {:induction false} EveryMessageIsAccounted(hash: seq<Byte> -> nat, events: seq<Event>)
    ensures var r := Run(hash, START, events);
            && r.story.settled + multiset(Unpack(r.buffer)) + r.story.dropped + r.story.torn + r.story.lost
               == multiset(Encodings(r.story.posts)) + r.story.gained
            && r.finalized == Joined(r.story.pieces)
            && |r.buffer| <= UNFINALIZED_BUFFER_CAP
  {
    hide Next, Unpack, Joined, Encodings, Small;
    StartBalances();
    RunBalances(hash, START, events);
  }

  lemma {:induction false} RunBalances(hash: seq<Byte> -> nat, r: Replica, events: seq<Event>)
    requires Accounted(r)
    ensures Accounted(Run(hash, r, events))
    decreases |events|
  {
    hide Next, Accounted;
    if events == [] {
    } else {
      var n := |events| - 1;
      RunBalances(hash, r, events[..n]);
      NextBalances(hash, Run(hash, r, events[..n]), events[n]);
    }
  }

  lemma {:induction false} StartBalances()
    ensures Accounted(START)
  {
    UnpackNothing();
    assert Encodings([]) == [];
  }
}
