/** The server's operations on a replica's file and votes, each proved to do what `ChatServer` says of its
    input, and so a replica over any inputs. */
module ChatReplica {
  import opened Wrappers
  import opened Octets
  import opened Lists
  import opened ChatMessages
  import opened ChatBlocks
  import opened ChatLog
  import opened ChatPosts
  import opened ChatRuns
  import opened ChatServer

  /** The file is what the run has made of it; when the length has wrapped it is close to 2^64. */
  ghost predicate IsFile(h: Handle, r: Replica)
    reads h
  {
    if r.wrapped then U64 <= h.bufferLen + UNFINALIZED_BUFFER_CAP
    else h.Valid() && h.Finalized() == r.finalized && h.Buffer() == r.buffer
  }

  ghost predicate Is(h: Handle, s: Server)
    reads h
  {
    IsFile(h, s.r) && h.number == s.number && h.latestBlock == s.latest && h.voting == s.voting
  }

  // --------------------------------------------------------------- operations

  /** `send_message`, when history is not due for compaction. */
  method SendPost(h: Handle, post: Post, members: seq<nat>, ghost s: Server) returns (res: Result<Option<(nat, seq<Byte>)>, ChatError>)
    requires Is(h, s) && Consistent(s) && Accepts(s, post, members) && !h.Due()
    modifies h
    ensures Is(h, Served(h.hash, h.self, s, Message(post, members)))
    ensures res.Err? <==> |Encoded(post)| > MAX_ENCODED
    ensures res.Ok? ==> (res.value.Some? <==> Proposes(h.hash, h.self, s, post, members))
    ensures res.Ok? && res.value.Some? ==> res.value.value == (s.number, OwnProposal(h.hash, s, post))
  {
    hide Unpack, Junk, Trimmed, ProposedBlock, Small, Encoded, Boundary, CutAt, Entry, IsFinalizer, Consistent, Run, WellFormed, Served, Next;
    ghost var t := Next(h.hash, s.r, Send(post));
    SendFile(h.hash, s.r, post);
    NotWrapped(s);
    MessageServed(h.hash, h.self, s, post, members);
    res := h.SendMessage(Encoded(post), members);
  }

  lemma {:induction false} NotWrapped(s: Server)
    requires Consistent(s)
    ensures !s.r.wrapped
  {
  }

  /** The file after a message. */
  lemma {:induction false} SendFile(hash: seq<Byte> -> nat, r: Replica, post: Post)
    ensures !r.wrapped && CanSend(r, post) ==>
              var t := Next(hash, r, Send(post));
              && !t.wrapped && t.finalized == r.finalized
              && t.buffer == if |Encoded(post)| <= MAX_ENCODED then Trimmed(r.buffer + Entry(Encoded(post))) else r.buffer
  {
    hide Encoded, Trimmed, Unpack, CutAt, Entry;
  }

  /** A proposal changes nothing of the file. */
  lemma {:induction false} MessageServed(hash: seq<Byte> -> nat, self: nat, s: Server, post: Post, members: seq<nat>)
    requires Accepts(s, post, members) && !s.r.wrapped
    ensures var t := Next(hash, s.r, Send(post));
            var u := Served(hash, self, s, Message(post, members));
            && u.r.wrapped == t.wrapped && u.r.finalized == t.finalized && u.r.buffer == t.buffer
            && u.number == s.number && u.latest == s.latest
            && u.voting == if Proposes(hash, self, s, post, members)
                           then s.voting[hash(OwnProposal(hash, s, post)) :=
                             BlockProposal(s.number, 1, 0, Local(|OwnProposal(hash, s, post)|), [])]
                           else s.voting
  {
    hide Proposes, Run, Accepts, Encoded, OwnProposal, CanSend;
    RunOne(hash, s.r, Send(post));
    RunTwo(hash, s.r, Send(post), Propose);
    ProposeFile(hash, Next(hash, s.r, Send(post)));
  }

  lemma {:induction false} ProposeFile(hash: seq<Byte> -> nat, r: Replica)
    ensures var t := Next(hash, r, Propose); t.wrapped == r.wrapped && t.finalized == r.finalized && t.buffer == r.buffer
  {
    hide ProposedBlock;
  }

  /** What an accepted hash does to the file. */
  lemma {:induction false} AcceptFile(hash: seq<Byte> -> nat, r: Replica, key: nat, stale: set<nat>)
    requires !r.wrapped && Voted(r.voting, key) != Absent
    ensures var t := Run(hash, r, [Accept(key), Forget(stale)]);
            match Voted(r.voting, key)
            case Local(size) =>
              && (t.wrapped <==> size > |r.buffer|)
              && (!t.wrapped ==> t.finalized == r.finalized + r.buffer[..size] && t.buffer == r.buffer[size..])
            case Remote(block) =>
              && !t.wrapped && t.finalized == r.finalized + block
              && t.buffer == Pack(Filter(Outside(Elements(Unpack(block))), Unpack(r.buffer)))
            case Absent => true
  {
    hide Unpack, Pack, Filter, Older, Cut, Run;
    RunTwo(hash, r, Accept(key), Forget(stale));
  }

  /** `accept_block` for an own proposal, after it was taken out of its entry. */
  method SettleLocal(h: Handle, key: nat, number: nat, size: nat, ghost r: Replica, ghost stale: set<nat>)
    requires IsFile(h, r) && !r.wrapped && Voted(r.voting, key) == Local(size) && size <= UNFINALIZED_BUFFER_CAP
    modifies h
    ensures IsFile(h, Run(h.hash, r, [Accept(key), Forget(stale)]))
    ensures h.number == number && h.latestBlock == key && h.voting == Retained(old(h.voting), number)
  {
    hide Unpack, Small, Run, Retained;
    AcceptFile(h.hash, r, key, stale);
    h.AcceptLocal(key, number, size);
  }

  /** The same for a received block. */
  method SettleRemote(h: Handle, key: nat, number: nat, block: seq<Byte>, ghost r: Replica, ghost stale: set<nat>)
    requires IsFile(h, r) && !r.wrapped && Voted(r.voting, key) == Remote(block)
    modifies h
    ensures IsFile(h, Run(h.hash, r, [Accept(key), Forget(stale)]))
    ensures h.number == number && h.latestBlock == key && h.voting == Retained(old(h.voting), number)
  {
    hide Unpack, Small, Run, Retained, Pack, Filter, Elements;
    AcceptFile(h.hash, r, key, stale);
    h.AcceptRemote(key, number, block);
  }

  /** Deciding on an entry once it has its new counts. */
  method Decide(h: Handle, key: nat, number: nat, entry: BlockProposal, drop: bool, ghost s: Server)
    requires Is(h, s) && Counted(s, key, entry)
    modifies h
    ensures Is(h, Decided(s.(r := Run(h.hash, s.r, DecisionMoves(s.voting, key, number, entry, drop))), key, number, entry, drop))
  {
    hide Run, Counted, Retained, Stale, Unpack, Small;
    var (next, decision) := TryResolve(entry);
    ghost var stale := Stale(s.voting[key := next], number);
    CountedIs(h, s, key, entry);
    RunNothing(h.hash, s.r);
    RunOne(h.hash, s.r, Forget({key}));
    ForgetNext(h.hash, s.r, {key});
    h.voting := h.voting[key := next];
    match decision
    case Accepted(Local(size)) =>
      SettleLocal(h, key, number, size, s.r, stale);
    case Accepted(Remote(block)) =>
      SettleRemote(h, key, number, block, s.r, stale);
    case Rejected =>
      if drop {
        h.voting := h.voting - {key};
      }
    case Undecided =>
  }

  lemma {:induction false} CountedIs(h: Handle, s: Server, key: nat, entry: BlockProposal)
    requires Is(h, s) && Counted(s, key, entry)
    ensures !s.r.wrapped && entry.proposal == Voted(s.r.voting, key)
    ensures entry.proposal.Local? ==> entry.proposal.size <= UNFINALIZED_BUFFER_CAP
  {
    RecordedUnder(s, key, entry);
  }

  /** `proposal`: a block arrives from another replica. */
  method Receive(h: Handle, origin: nat, group: seq<nat>, number: nat, block: seq<Byte>, ghost s: Server) returns (res: Result<(), ChatError>)
    requires Is(h, s) && Consistent(s) && group != [] && Distinct(group)
    modifies h
    ensures Is(h, Served(h.hash, h.self, s, Delivery(origin, group, number, block)))
    ensures res == if number < s.number then Err(OutdatedBlockNumber) else CheckOf(s, origin, group, number, block, h.hash(block))
  {
    hide Run, Consistent, Checked, DecisionMoves, Decided, Counted, Records;
    NotWrapped(s);
    RunNothing(h.hash, s.r);
    if number < h.number {
      return Err(OutdatedBlockNumber);
    }
    var key := h.hash(block);
    var entry := EntryOf(h.voting, key, number);
    var next;
    res, next := h.ProposalLow(origin, group, number, block, entry);
    next := Delivered(next, res.Ok?);
    ghost var offers := if Records(s, origin, group, number, block, key) then [Offer(block)] else [];
    ghost var t := s.(r := Run(h.hash, s.r, offers));
    OfferOk(h.hash, s, origin, group, number, block);
    RunAppend(h.hash, s.r, offers, DecisionMoves(s.voting, key, number, next, true));
    DecidedSame(t, key, number, next, true);
    Decide(h, key, number, next, true, t);
  }

  lemma {:induction false} DecidedSame(t: Server, key: nat, number: nat, entry: BlockProposal, drop: bool)
    ensures forall r :: Decided(t.(r := r), key, number, entry, drop) == Decided(t, key, number, entry, drop).(r := r)
  {
  }

  /** `vote`: another replica votes on a block, seen or not. */
  method Vote(h: Handle, origin: nat, number: nat, key: nat, agrees: bool, ghost s: Server) returns (res: Result<(), ChatError>)
    requires Is(h, s) && Consistent(s)
    modifies h
    ensures Is(h, Served(h.hash, h.self, s, Ballot(origin, number, key, agrees)))
    ensures res == Refusal(EntryOf(s.voting, key, number), origin, number)
  {
    hide Run, Consistent, DecisionMoves, Decided, Counted, Unpack, Small;
    var entry := EntryOf(h.voting, key, number);
    RunNothing(h.hash, s.r);
    EntryRecorded(s.voting, key, number);
    SameProposal(s, key, Balloted(entry, origin, agrees));
    h.voting := h.voting[key := entry];
    if entry.number != number { return Err(WrongBlockNumber); }
    if origin in entry.votes { return Err(AlreadyVoted); }
    if |entry.votes| == REPLICATION_FACTOR { return Err(TooManyVotes); }
    ghost var t := s.(voting := s.voting[key := entry]);
    EntryMade(h.hash, s, key, number, Balloted(entry, origin, agrees));
    Decide(h, key, number, Balloted(entry, origin, agrees), false, t);
    res := Ok(());
  }

  /** An entry made when there was none makes no difference to the decision on it. */
  lemma {:induction false} EntryMade(hash: seq<Byte> -> nat, s: Server, key: nat, number: nat, entry: BlockProposal)
    requires Counted(s, key, entry)
    ensures var t := s.(voting := s.voting[key := EntryOf(s.voting, key, number)]);
            && Counted(t, key, entry)
            && DecisionMoves(t.voting, key, number, entry, false) == DecisionMoves(s.voting, key, number, entry, false)
            && forall r :: Decided(t.(r := r), key, number, entry, false) == Decided(s.(r := r), key, number, entry, false)
  {
    hide Retained, Stale, SameVotes, SmallProposals;
    var made := EntryOf(s.voting, key, number);
    assert s.voting[key := made][key := entry] == s.voting[key := entry];
    var next := TryResolve(entry).0;
    assert s.voting[key := made][key := next] == s.voting[key := next];
  }

  // ---------------------------------------------------------------- any inputs

  lemma {:induction false} NewIs(h: Handle)
    requires h.Valid() && h.Finalized() == [] && h.Buffer() == [] && h.voting == map[] && h.number == 0 && h.latestBlock == 0
    ensures Is(h, NEW) && Consistent(NEW) && Accounted(NEW.r) && NEW.r.nonces == map[]
  {
    StartBalances();
  }

  lemma {:induction false} IsBounds(h: Handle, s: Server)
    requires Is(h, s) && Consistent(s)
    ensures h.bufferLen <= |h.blocks| && h.number == s.number
  {
  }

  lemma {:induction false} WrappedIs(h: Handle, s: Server)
    requires Is(h, s)
    ensures s.r.wrapped <==> h.bufferLen > UNFINALIZED_BUFFER_CAP
  {
  }

  lemma {:induction false} ServedBalances(hash: seq<Byte> -> nat, self: nat, s: Server, input: Input)
    requires Accounted(s.r)
    ensures Accounted(Served(hash, self, s, input).r)
  {
    hide Accounted, Served, Moves, Run;
    ServedRuns(hash, self, s, input);
    RunBalances(hash, s.r, Moves(hash, self, s, input));
  }

  lemma {:induction false} ServedSnoc(hash: seq<Byte> -> nat, self: nat, inputs: seq<Input>)
    requires inputs != []
    ensures ServedAll(hash, self, inputs)
         == Served(hash, self, ServedAll(hash, self, inputs[..|inputs| - 1]), inputs[|inputs| - 1])
  {
    hide Served;
  }

  lemma {:induction false} ServedNothing(hash: seq<Byte> -> nat, self: nat)
    ensures ServedAll(hash, self, []) == NEW
  {
  }

  /** Inputs that are passed over. */
  lemma {:induction false} PassedOver(hash: seq<Byte> -> nat, self: nat, s: Server, input: Input)
    requires match input
             case Message(post, members) => !Accepts(s, post, members)
             case Delivery(_, group, number, _) => !Considers(s, group, number)
             case _ => false
    ensures Served(hash, self, s, input) == s
  {
    hide Run, Accepts, Considers;
    RunNothing(hash, s.r);
    if input.Message? {
      ProposesAccepts(hash, self, s, input.post, input.members);
    }
  }

  lemma {:induction false} ProposesAccepts(hash: seq<Byte> -> nat, self: nat, s: Server, post: Post, members: seq<nat>)
    ensures Proposes(hash, self, s, post, members) ==> Accepts(s, post, members)
  {
    hide Next, Accepts, Encoded, IsFinalizer;
  }

  lemma {:induction false} RewriteServed(hash: seq<Byte> -> nat, self: nat, s: Server, sender: seq<Byte>)
    requires !s.r.wrapped
    ensures Served(hash, self, s, Rewrite(sender)) == s.(r := s.r.(nonces := s.r.nonces - {sender}))
  {
    hide Run;
    RunOne(hash, s.r, Reset(sender));
    ResetNext(hash, s.r, sender);
  }

  /** The nonces after an input. */
  function NoncesAfter(nonces: map<seq<Byte>, nat>, input: Input): map<seq<Byte>, nat> {
    match input
    case Message(post, members) => if Taken(nonces, post, members) then nonces[post.sender := post.nonce] else nonces
    case Rewrite(sender) => nonces - {sender}
    case _ => nonces
  }

  predicate Taken(nonces: map<seq<Byte>, nat>, post: Post, members: seq<nat>) {
    |post.sender| == IDENTITY && post.nonce < U64 && Stored(nonces, post.sender) < post.nonce && members != [] && Distinct(members)
  }

  lemma {:induction false} ServedNonces(hash: seq<Byte> -> nat, self: nat, s: Server, input: Input)
    requires !s.r.wrapped
    ensures Served(hash, self, s, input).r.nonces == NoncesAfter(s.r.nonces, input)
    ensures input.Message? ==> (Taken(s.r.nonces, input.post, input.members) <==> Accepts(s, input.post, input.members))
  {
    hide Served, Moves, Run, Encoded;
    ServedRuns(hash, self, s, input);
    MovesPost(hash, self, s, input);
  }

  /** One input. */
  method ServeInput(h: Handle, input: Input, nonces: map<seq<Byte>, nat>, ghost s: Server)
    requires Is(h, s) && Consistent(s) && s.r.nonces == nonces && (input.Message? ==> !h.Due())
    modifies h
    ensures Is(h, Served(h.hash, h.self, s, input))
  {
    hide Is, Consistent, Served, Run, Accepts, Proposes, Checked, Encoded;
    NotWrapped(s);
    ServedNonces(h.hash, h.self, s, input);
    match input
    case Message(post, members) =>
      if Taken(nonces, post, members) {
        var res := SendPost(h, post, members, s);
      } else {
        PassedOver(h.hash, h.self, s, input);
      }
    case Rewrite(sender) =>
      RewriteServed(h.hash, h.self, s, sender);
      SameFile(h, s, s.(r := s.r.(nonces := s.r.nonces - {sender})));
    case Delivery(origin, group, number, block) =>
      if group != [] && Distinct(group) {
        var res := Receive(h, origin, group, number, block, s);
      } else {
        PassedOver(h.hash, h.self, s, input);
      }
    case Ballot(origin, number, key, agrees) =>
      var res := Vote(h, origin, number, key, agrees, s);
  }

  lemma {:induction false} SameFile(h: Handle, s: Server, t: Server)
    requires Is(h, s) && t == s.(r := s.r.(nonces := t.r.nonces))
    ensures Is(h, t)
  {
  }

  datatype Stop = Played | HistoryDue | LengthWrapped

  /** Plays inputs on a new replica, until history is due for compaction or the buffer's length has wrapped.
      The replica is what `ServedAll` makes of the inputs played. */
  method Play(hash: seq<Byte> -> nat, self: nat, inputs: seq<Input>) returns (h: Handle, stop: Stop, played: nat)
    ensures h.hash == hash && h.self == self && played <= |inputs|
    ensures Is(h, ServedAll(hash, self, inputs[..played]))
    ensures forall k :: 0 <= k < played ==> !ServedAll(hash, self, inputs[..k]).r.wrapped
    ensures stop == LengthWrapped <==> ServedAll(hash, self, inputs[..played]).r.wrapped
    ensures stop == HistoryDue ==> played < |inputs| && inputs[played].Message? && h.Due()
    ensures stop == Played ==> played == |inputs|
    ensures ServedAll(hash, self, inputs[..played]).r.story.posts == Posted(inputs[..played]).0
  {
    hide Is, Consistent, Served, ServedAll, Run, Posted;
    h := new Handle(hash, self);
    var nonces: map<seq<Byte>, nat> := map[];
    played := 0;
    stop := Played;
    NewIs(h);
    ghost var s := NEW;
    assert inputs[..0] == [];
    ServedNothing(hash, self);
    while played < |inputs|
      invariant h.hash == hash && h.self == self && fresh(h) && played <= |inputs| && stop == Played
      invariant s == ServedAll(hash, self, inputs[..played]) && s.r.nonces == nonces
      invariant Is(h, s) && Consistent(s) && Accounted(s.r)
      invariant forall k :: 0 <= k <= played ==> !ServedAll(hash, self, inputs[..k]).r.wrapped
    {
      var input := inputs[played];
      IsBounds(h, s);
      if input.Message? && h.Due() {
        PlayedPosts(hash, self, inputs, played);
        stop := HistoryDue;
        return;
      }
      ghost var t := Served(hash, self, s, input);
      ServedOk(hash, self, s, input);
      ServedBalances(hash, self, s, input);
      ServedNonces(hash, self, s, input);
      assert inputs[..played + 1][..played] == inputs[..played];
      ServedSnoc(hash, self, inputs[..played + 1]);
      ServeInput(h, input, nonces, s);
      nonces := NoncesAfter(nonces, input);
      s := t;
      played := played + 1;
      WrappedIs(h, s);
      if h.bufferLen > UNFINALIZED_BUFFER_CAP {
        PlayedPosts(hash, self, inputs, played);
        stop := LengthWrapped;
        return;
      }
    }
    PlayedPosts(hash, self, inputs, played);
  }

  lemma {:induction false} PlayedPosts(hash: seq<Byte> -> nat, self: nat, inputs: seq<Input>, played: nat)
    requires played <= |inputs| && forall k :: 0 <= k < played ==> !ServedAll(hash, self, inputs[..k]).r.wrapped
    ensures ServedAll(hash, self, inputs[..played]).r.story.posts == Posted(inputs[..played]).0
  {
    hide ServedAll, Posted;
    forall k | 0 <= k < played ensures !ServedAll(hash, self, inputs[..played][..k]).r.wrapped {
      assert inputs[..played][..k] == inputs[..k];
    }
    PostsAreInputs(hash, self, inputs[..played]);
  }

  // ---------------------------------------------------------- a lost message

  /** A new replica accepts a block longer than the history that is kept, and the next message triggers
      compaction: unless the block ends with that very message, the message is gone. */
  method CompactionRun(hash: seq<Byte> -> nat, self: nat, key: nat, block: seq<Byte>, m: Message, members: seq<nat>)
    returns (h: Handle, res: Result<Option<(nat, seq<Byte>)>, ChatError>)
    requires BLOCK_HISTORY * BLOCK_SIZE < |block| && |m| <= MAX_ENCODED && members != [] && Distinct(members)
    ensures res.Ok? && h.bufferLen <= |h.blocks|
    ensures m in Unpack(h.Buffer()) <==> block[|block| - |Entry(m)|..] == Entry(m)
  {
    hide Unpack, Junk, Pack, Filter, Entry, Small, ProposedBlock, WellFormed, Elements, Trimmed, IsFinalizer, Outside;
    h := new Handle(hash, self);
    NothingKept(Outside(Elements(Unpack(block))));
    h.AcceptRemote(key, 0, block);
    BlockAlone(h, block);
    ShortTail(block, m);
    res := SendWhenDue(h, block, m, members);
  }

  method SendWhenDue(h: Handle, block: seq<Byte>, m: Message, members: seq<nat>) returns (res: Result<Option<(nat, seq<Byte>)>, ChatError>)
    requires h.Valid() && h.Due() && h.Buffer() == [] && WellFormed(h.Buffer()) && h.Finalized()[h.checkpoint..] == block
    requires |m| <= MAX_ENCODED && members != [] && Distinct(members)
    modifies h
    ensures res.Ok? && h.bufferLen <= |h.blocks| && |Entry(m)| <= |block|
    ensures h.Buffer() == Trimmed(block[|block| - |Entry(m)|..] + [])
  {
    hide Unpack, Junk, Entry, Small, ProposedBlock, WellFormed, Trimmed, IsFinalizer, Distinct;
    res := h.SendMessage(m, members);
  }

  /** A file that is one block. */
  lemma {:induction false} BlockAlone(h: Handle, block: seq<Byte>)
    requires h.Valid() && h.Buffer() == [] && h.Finalized() == block && h.checkpoint == 0 && BLOCK_HISTORY * BLOCK_SIZE < |block|
    ensures h.Due() && h.Finalized()[h.checkpoint..] == block
  {
    hide Unpack, Small;
    assert block[0..] == block;
  }

  /** The end of the block, taken for the buffer. */
  lemma {:induction false} ShortTail(block: seq<Byte>, m: Message)
    requires BLOCK_HISTORY * BLOCK_SIZE < |block| && |m| <= MAX_ENCODED
    ensures |Entry(m)| <= |block|
    ensures var front := block[|block| - |Entry(m)|..];
            Trimmed(front + []) == front && (m in Unpack(front) <==> front == Entry(m))
  {
    hide Unpack, Junk, Entry, Boundary;
    EntryIs(m);
    UnpackNothing();
    var front := block[|block| - |Entry(m)|..];
    assert front + [] == front;
    CompactionLosesMessage(front, [], m);
  }

  lemma {:induction false} NothingKept(keep: Message -> bool)
    ensures Pack(Filter(keep, Unpack([]))) == []
  {
  }
}
