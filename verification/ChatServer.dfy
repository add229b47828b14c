/** What a replica's server makes of its inputs: messages, rewritten records, delivered blocks and votes.
    Its file moves by the steps of `ChatRuns`, which are a function of the inputs; its votes are counted
    as the server counts them. */
module ChatServer {
  import opened Wrappers
  import opened Octets
  import opened Lists
  import opened ChatMessages
  import opened ChatBlocks
  import opened ChatLog
  import opened ChatPosts
  import opened ChatRuns
  import opened ChatProposals

  // ------------------------------------------------------------------- votes

  datatype Decision = Undecided | Rejected | Accepted(proposal: Proposal)

  /** `try_resolve`: more than half for, or else more than half against. */
  function TryResolve(p: BlockProposal): (BlockProposal, Decision) {
    if p.yes > REPLICATION_FACTOR / 2 && p.proposal != Absent then (p.(proposal := Absent), Accepted(p.proposal))
    else if p.no > REPLICATION_FACTOR / 2 then (p, Rejected)
    else (p, Undecided)
  }

  /** A delivery of a block counts for it, once more when it passes the checks, and otherwise against it. */
  function Delivered(p: BlockProposal, ok: bool): BlockProposal {
    if ok then p.(yes := p.yes + 2) else p.(yes := p.yes + 1, no := p.no + 1)
  }

  function Balloted(p: BlockProposal, origin: nat, agrees: bool): BlockProposal {
    p.(votes := p.votes + [origin], yes := p.yes + if agrees then 1 else 0, no := p.no + if agrees then 0 else 1)
  }

  /** A proposal after its first delivery and n more, which are refused because it is recorded by then. */
  function Redelivered(first: BlockProposal, ok: bool, n: nat): BlockProposal {
    if n == 0 then Delivered(first, ok) else Delivered(Redelivered(first, ok, n - 1), false)
  }

  /** Deliveries alone decide: with nobody's vote, a recorded proposal is accepted at its second delivery
      when it passed the checks, and at its third when it did not. */
  lemma {:induction false} DeliveriesAloneAccept(first: BlockProposal, ok: bool, n: nat)
    requires first.yes == 0 && first.no == 0 && first.proposal != Absent
    ensures var p := Redelivered(first, ok, n);
            && p == first.(yes := n + if ok then 2 else 1, no := n + if ok then 0 else 1)
            && (TryResolve(p).1 == Accepted(first.proposal) <==> n >= if ok then 1 else 2)
            && TryResolve(p).1 != Rejected
  {
    if n == 0 {
    } else {
      DeliveriesAloneAccept(first, ok, n - 1);
    }
  }

  /** The entry of a proposal, made when there is none. */
  function EntryOf(voting: map<nat, BlockProposal>, key: nat, number: nat): BlockProposal {
    if key in voting then voting[key] else BlockProposal(number, 0, 0, Absent, [])
  }

  // ------------------------------------------------------------------- inputs

  datatype Input =
    | Message(post: Post, members: seq<nat>)
    | Rewrite(sender: seq<Byte>)
    | Delivery(origin: nat, group: seq<nat>, number: nat, block: seq<Byte>)
    | Ballot(origin: nat, number: nat, key: nat, agrees: bool)

  /** The file and what has happened to it, the number and hash of the latest block, and the votes. */
  datatype Server = Server(r: Replica, number: nat, latest: nat, voting: map<nat, BlockProposal>)

  const NEW := Server(START, 0, 0, map[])

  /** The message is taken in. */
  ghost predicate Accepts(s: Server, post: Post, members: seq<nat>) {
    CanSend(s.r, post) && members != [] && Distinct(members)
  }

  /** And it is this replica's turn to propose a block. */
  ghost predicate Proposes(hash: seq<Byte> -> nat, self: nat, s: Server, post: Post, members: seq<nat>) {
    var len := |Next(hash, s.r, Send(post)).buffer|;
    && Accepts(s, post, members) && |Encoded(post)| <= MAX_ENCODED
    && ShouldFinalize(|s.r.buffer|, len) && IsFinalizer(self, s.latest, members, len)
  }

  ghost function OwnProposal(hash: seq<Byte> -> nat, s: Server, post: Post): seq<Byte> {
    ProposedBlock(Next(hash, s.r, Send(post)).buffer)
  }

  /** The block is looked at. */
  ghost predicate Considers(s: Server, group: seq<nat>, number: nat) {
    s.number <= number && group != [] && Distinct(group)
  }

  ghost function CheckOf(s: Server, origin: nat, group: seq<nat>, number: nat, block: seq<Byte>, key: nat): Result<(), ChatError> {
    Checked(s.latest, s.r.buffer, origin, group, number, block, EntryOf(s.voting, key, number))
  }

  /** The entry of a delivered block once it is recorded and counted. */
  ghost function DeliveredEntry(s: Server, origin: nat, group: seq<nat>, number: nat, block: seq<Byte>, key: nat): BlockProposal {
    var res := CheckOf(s, origin, group, number, block, key);
    Delivered(Recorded(res, EntryOf(s.voting, key, number), block), res.Ok?)
  }

  /** The delivery records the block. */
  ghost predicate Records(s: Server, origin: nat, group: seq<nat>, number: nat, block: seq<Byte>, key: nat) {
    EntryOf(s.voting, key, number).proposal == Absent && DeliveredEntry(s, origin, group, number, block, key).proposal != Absent
  }

  /** The vote is counted; the source panics when the list of voters is full. */
  function Refusal(entry: BlockProposal, origin: nat, number: nat): Result<(), ChatError> {
    if entry.number != number then Err(WrongBlockNumber)
    else if origin in entry.votes then Err(AlreadyVoted)
    else if |entry.votes| == REPLICATION_FACTOR then Err(TooManyVotes)
    else Ok(())
  }

  function Stale(voting: map<nat, BlockProposal>, number: nat): set<nat> {
    set k | k in voting && voting[k].number < number
  }

  /** The steps that a decision on an entry makes. */
  function DecisionMoves(voting: map<nat, BlockProposal>, key: nat, number: nat, entry: BlockProposal, drop: bool): seq<Event> {
    var (next, decision) := TryResolve(entry);
    match decision
    case Undecided => []
    case Rejected => if drop then [Forget({key})] else []
    case Accepted(_) => [Accept(key), Forget(Stale(voting[key := next], number))]
  }

  /** And what it does to the votes, the number and the latest hash. */
  function Decided(s: Server, key: nat, number: nat, entry: BlockProposal, drop: bool): Server {
    var (next, decision) := TryResolve(entry);
    match decision
    case Undecided => s.(voting := s.voting[key := next])
    case Rejected => s.(voting := if drop then s.voting - {key} else s.voting[key := next])
    case Accepted(_) => s.(number := number, latest := key, voting := Retained(s.voting[key := next], number))
  }

  /** The steps that an input makes. */
  ghost function Moves(hash: seq<Byte> -> nat, self: nat, s: Server, input: Input): seq<Event> {
    match input
    case Message(post, members) =>
      if !Accepts(s, post, members) then []
      else if Proposes(hash, self, s, post, members) then [Send(post), Propose] else [Send(post)]
    case Rewrite(sender) => [Reset(sender)]
    case Delivery(origin, group, number, block) =>
      var key := hash(block);
      if !Considers(s, group, number) then []
      else (if Records(s, origin, group, number, block, key) then [Offer(block)] else [])
           + DecisionMoves(s.voting, key, number, DeliveredEntry(s, origin, group, number, block, key), true)
    case Ballot(origin, number, key, agrees) =>
      var entry := EntryOf(s.voting, key, number);
      if Refusal(entry, origin, number).Err? then []
      else DecisionMoves(s.voting, key, number, Balloted(entry, origin, agrees), false)
  }

  /** The server after an input. */
  ghost function Served(hash: seq<Byte> -> nat, self: nat, s: Server, input: Input): Server {
    var t := s.(r := Run(hash, s.r, Moves(hash, self, s, input)));
    match input
    case Message(post, members) =>
      if !Proposes(hash, self, s, post, members) then t
      else
        var block := OwnProposal(hash, s, post);
        t.(voting := s.voting[hash(block) := BlockProposal(s.number, 1, 0, Local(|block|), [])])
    case Rewrite(_) => t
    case Delivery(origin, group, number, block) =>
      var key := hash(block);
      if !Considers(s, group, number) then t
      else Decided(t, key, number, DeliveredEntry(s, origin, group, number, block, key), true)
    case Ballot(origin, number, key, agrees) =>
      var entry := EntryOf(s.voting, key, number);
      if Refusal(entry, origin, number).Err? then t.(voting := s.voting[key := entry])
      else Decided(t, key, number, Balloted(entry, origin, agrees), false)
  }

  ghost function ServedAll(hash: seq<Byte> -> nat, self: nat, inputs: seq<Input>): Server
    decreases |inputs|
  {
    if inputs == [] then NEW
    else Served(hash, self, ServedAll(hash, self, inputs[..|inputs| - 1]), inputs[|inputs| - 1])
  }

  ghost function AllMoves(hash: seq<Byte> -> nat, self: nat, inputs: seq<Input>): seq<Event>
    decreases |inputs|
  {
    if inputs == [] then []
    else AllMoves(hash, self, inputs[..|inputs| - 1])
         + Moves(hash, self, ServedAll(hash, self, inputs[..|inputs| - 1]), inputs[|inputs| - 1])
  }

  lemma {:induction false} ServedRuns(hash: seq<Byte> -> nat, self: nat, s: Server, input: Input)
    ensures Served(hash, self, s, input).r == Run(hash, s.r, Moves(hash, self, s, input))
  {
    hide Moves, Run;
  }

  /** The file is where the steps of all inputs take it, so that every statement about runs is one about
      the inputs. */
  lemma {:induction false} ServedIsRun(hash: seq<Byte> -> nat, self: nat, inputs: seq<Input>)
    ensures ServedAll(hash, self, inputs).r == Run(hash, START, AllMoves(hash, self, inputs))
    decreases |inputs|
  {
    hide Moves, Run, Served;
    if inputs == [] {
      RunNothing(hash, START);
    } else {
      var before := inputs[..|inputs| - 1];
      var s := ServedAll(hash, self, before);
      ServedIsRun(hash, self, before);
      ServedRuns(hash, self, s, inputs[|inputs| - 1]);
      RunAppend(hash, START, AllMoves(hash, self, before), Moves(hash, self, s, inputs[|inputs| - 1]));
    }
  }

  lemma {:induction false} RunNothing(hash: seq<Byte> -> nat, r: Replica)
    ensures Run(hash, r, []) == r
  {
  }

  lemma {:induction false} RunTwo(hash: seq<Byte> -> nat, r: Replica, e: Event, f: Event)
    ensures Run(hash, r, [e, f]) == Next(hash, Next(hash, r, e), f)
  {
    hide Next;
    RunOne(hash, r, e);
    RunAppend(hash, r, [e], [f]);
    RunOne(hash, Next(hash, r, e), f);
    assert [e] + [f] == [e, f];
  }

  // --------------------------------------------------- votes and recorded blocks

  function ProposalOf(voting: map<nat, BlockProposal>, h: nat): Proposal {
    if h in voting then voting[h].proposal else Absent
  }

  ghost predicate SameVotes(voting: map<nat, BlockProposal>, recorded: map<nat, Proposal>) {
    forall h :: ProposalOf(voting, h) == Voted(recorded, h)
  }

  /** Own proposals are at most as long as a buffer. */
  ghost predicate SmallProposals(voting: map<nat, BlockProposal>) {
    forall h :: ProposalOf(voting, h).Local? ==> ProposalOf(voting, h).size <= UNFINALIZED_BUFFER_CAP
  }

  lemma {:induction false} VotesUpdate(voting: map<nat, BlockProposal>, recorded: map<nat, Proposal>, k: nat, p: BlockProposal)
    ensures SameVotes(voting, recorded) ==>
              && SameVotes(voting[k := p], recorded[k := p.proposal])
              && SameVotes(voting - {k}, recorded - {k})
              && (p.proposal == Absent ==> SameVotes(voting[k := p], recorded - {k}))
    ensures SmallProposals(voting) ==>
              && SmallProposals(voting - {k})
              && ((p.proposal.Local? ==> p.proposal.size <= UNFINALIZED_BUFFER_CAP) ==> SmallProposals(voting[k := p]))
  {
    var v, w := voting[k := p], recorded[k := p.proposal];
    if SameVotes(voting, recorded) {
      forall h ensures ProposalOf(v, h) == Voted(w, h) {
        assert ProposalOf(voting, h) == Voted(recorded, h);
      }
      assert SameVotes(v, w);
      forall h ensures ProposalOf(voting - {k}, h) == Voted(recorded - {k}, h) {
        assert ProposalOf(voting, h) == Voted(recorded, h);
      }
      assert p.proposal == Absent ==> forall h :: Voted(w, h) == Voted(recorded - {k}, h);
    }
    if SmallProposals(voting) {
      forall h ensures ProposalOf(v, h) == if h == k then p.proposal else ProposalOf(voting, h) {
      }
      forall h ensures ProposalOf(voting - {k}, h) == if h == k then Absent else ProposalOf(voting, h) {
      }
    }
  }

  lemma {:induction false} ProposedFits(buffer: seq<Byte>)
    ensures |ProposedBlock(buffer)| <= |buffer|
  {
  }

  /** Forgetting the proposals of earlier blocks. */
  lemma {:induction false} VotesRetained(voting: map<nat, BlockProposal>, recorded: map<nat, Proposal>, number: nat)
    ensures var stale := Stale(voting, number);
            && (SameVotes(voting, recorded) ==> SameVotes(Retained(voting, number), recorded - stale))
            && (SmallProposals(voting) ==> SmallProposals(Retained(voting, number)))
  {
    var stale := Stale(voting, number);
    forall h ensures ProposalOf(Retained(voting, number), h) == if h in stale then Absent else ProposalOf(voting, h) {
    }
    forall h ensures Voted(recorded - stale, h) == if h in stale then Absent else Voted(recorded, h) {
    }
    hide ProposalOf, Voted, Retained;
  }

  /** The votes have recorded what the run has. */
  ghost predicate Consistent(s: Server) {
    !s.r.wrapped && SameVotes(s.voting, s.r.voting) && SmallProposals(s.voting)
  }

  /** An entry that is about to be decided on holds what is recorded under its key. */
  ghost predicate Counted(s: Server, key: nat, entry: BlockProposal) {
    !s.r.wrapped && SameVotes(s.voting[key := entry], s.r.voting) && SmallProposals(s.voting[key := entry])
  }

  lemma {:induction false} AcceptNext(hash: seq<Byte> -> nat, r: Replica, key: nat, stale: set<nat>)
    requires !r.wrapped && Voted(r.voting, key) != Absent
    ensures var t := Next(hash, Next(hash, r, Accept(key)), Forget(stale));
            && t.story.accepted == r.story.accepted + [key]
            && (!t.wrapped ==> t.voting == r.voting - {key} - stale)
            && t.wrapped == (Voted(r.voting, key).Local? && Voted(r.voting, key).size > |r.buffer|)
  {
    hide Unpack, Pack, Filter, Older, Cut;
  }

  lemma {:induction false} ForgetNext(hash: seq<Byte> -> nat, r: Replica, hs: set<nat>)
    requires !r.wrapped
    ensures Next(hash, r, Forget(hs)) == r.(voting := r.voting - hs)
  {
  }

  /** A decision keeps the votes consistent, and accepts its key exactly when more than half are for it. */
  lemma {:induction false} DecisionOk(hash: seq<Byte> -> nat, s: Server, key: nat, number: nat, entry: BlockProposal, drop: bool)
    requires Counted(s, key, entry)
    ensures var r := Run(hash, s.r, DecisionMoves(s.voting, key, number, entry, drop));
            && r.story.accepted == s.r.story.accepted + (if TryResolve(entry).1.Accepted? then [key] else [])
            && (!r.wrapped ==> Consistent(Decided(s.(r := r), key, number, entry, drop)))
  {
    hide Next, Run, SameVotes, SmallProposals, Retained, Stale;
    var (next, decision) := TryResolve(entry);
    var counted := s.voting[key := entry];
    assert counted[key := next] == s.voting[key := next] && counted - {key} == s.voting - {key};
    assert entry.proposal == Voted(s.r.voting, key) by {
      RecordedUnder(s, key, entry);
    }
    VotesUpdate(counted, s.r.voting, key, next);
    match decision
    case Undecided =>
      RunNothing(hash, s.r);
    case Rejected =>
      RunNothing(hash, s.r);
      RunOne(hash, s.r, Forget({key}));
      ForgetNext(hash, s.r, {key});
    case Accepted(_) =>
      var stale := Stale(s.voting[key := next], number);
      RunTwo(hash, s.r, Accept(key), Forget(stale));
      AcceptNext(hash, s.r, key, stale);
      VotesRetained(s.voting[key := next], s.r.voting - {key}, number);
  }

  lemma {:induction false} RecordedUnder(s: Server, key: nat, entry: BlockProposal)
    requires Counted(s, key, entry)
    ensures entry.proposal == Voted(s.r.voting, key)
    ensures entry.proposal.Local? ==> entry.proposal.size <= UNFINALIZED_BUFFER_CAP
  {
    assert ProposalOf(s.voting[key := entry], key) == entry.proposal;
  }

  /** Counting changes nothing that is recorded. */
  lemma {:induction false} SameProposal(s: Server, key: nat, entry: BlockProposal)
    requires Consistent(s) && entry.proposal == ProposalOf(s.voting, key)
    ensures Counted(s, key, entry)
  {
    VotesUpdate(s.voting, s.r.voting, key, entry);
    var recorded := s.r.voting[key := entry.proposal];
    assert ProposalOf(s.voting, key) == Voted(s.r.voting, key);
    forall h ensures Voted(recorded, h) == Voted(s.r.voting, h) {
    }
    hide ProposalOf, Voted;
  }

  lemma {:induction false} EntryRecorded(voting: map<nat, BlockProposal>, key: nat, number: nat)
    ensures EntryOf(voting, key, number).proposal == ProposalOf(voting, key)
  {
  }

  /** Recording a delivered block, or not. */
  lemma {:induction false} OfferOk(hash: seq<Byte> -> nat, s: Server, origin: nat, group: seq<nat>, number: nat, block: seq<Byte>)
    requires Consistent(s)
    ensures var key := hash(block);
            var r := Run(hash, s.r, if Records(s, origin, group, number, block, key) then [Offer(block)] else []);
            && Counted(s.(r := r), key, DeliveredEntry(s, origin, group, number, block, key))
            && r == s.r.(voting := r.voting)
  {
    hide Run, Next, SameVotes, SmallProposals, Checked;
    var key := hash(block);
    var entry, next := EntryOf(s.voting, key, number), DeliveredEntry(s, origin, group, number, block, key);
    EntryRecorded(s.voting, key, number);
    if Records(s, origin, group, number, block, key) {
      RunOne(hash, s.r, Offer(block));
      RecordedAbsent(hash, s, key, block);
      assert next.proposal == Remote(block);
      VotesUpdate(s.voting, s.r.voting, key, next);
    } else {
      RunNothing(hash, s.r);
      CheckedAbsent(s.latest, s.r.buffer, origin, group, number, block, entry);
      SameProposal(s, key, next);
    }
  }

  /** Only an entry without a proposal gets as far as being recorded. */
  lemma {:induction false} CheckedAbsent(latest: nat, buffer: seq<Byte>, origin: nat, group: seq<nat>, number: nat, block: seq<Byte>,
                                         entry: BlockProposal)
    ensures var res := Checked(latest, buffer, origin, group, number, block, entry);
            Recorded(res, entry, block) != entry ==> entry.proposal == Absent
    ensures var res := Checked(latest, buffer, origin, group, number, block, entry);
            entry.proposal != Absent ==> Recorded(res, entry, block) == entry
  {
  }

  lemma {:induction false} RecordedAbsent(hash: seq<Byte> -> nat, s: Server, key: nat, block: seq<Byte>)
    requires Consistent(s) && key == hash(block) && ProposalOf(s.voting, key) == Absent
    ensures Next(hash, s.r, Offer(block)) == s.r.(voting := s.r.voting[key := Remote(block)])
  {
    assert Voted(s.r.voting, key) == Absent;
  }

  /** An own proposal is recorded as such. */
  lemma {:induction false} ProposeOk(hash: seq<Byte> -> nat, self: nat, s: Server, post: Post, members: seq<nat>)
    requires Consistent(s) && Proposes(hash, self, s, post, members) && |s.r.buffer| <= UNFINALIZED_BUFFER_CAP
    ensures var t, block := Next(hash, s.r, Send(post)), OwnProposal(hash, s, post);
            && !t.wrapped && t.voting == s.r.voting && |t.buffer| <= UNFINALIZED_BUFFER_CAP ==>
              && Next(hash, t, Propose) == t.(voting := t.voting[hash(block) := Local(|block|)], story := t.story.(proposed := t.story.proposed[hash(block) := block]))
              && Consistent(Server(Next(hash, t, Propose), s.number, s.latest,
                                   s.voting[hash(block) := BlockProposal(s.number, 1, 0, Local(|block|), [])]))
  {
    hide SameVotes, SmallProposals, ProposedBlock, IsFinalizer, Encoded, Accepts;
    var t, block := Next(hash, s.r, Send(post)), OwnProposal(hash, s, post);
    assert CanPropose(t.buffer);
    ProposedFits(t.buffer);
    hide Next;
    VotesUpdate(s.voting, s.r.voting, hash(block), BlockProposal(s.number, 1, 0, Local(|block|), []));
  }

  lemma {:induction false} SendNext(hash: seq<Byte> -> nat, r: Replica, post: Post)
    requires !r.wrapped
    ensures var t := Next(hash, r, Send(post)); !t.wrapped && t.voting == r.voting && t.story.accepted == r.story.accepted
  {
    hide Encoded, Trimmed, Unpack, CutAt, Entry;
  }

  /** The hash that an input gets accepted, if any. */
  ghost function AcceptedBy(hash: seq<Byte> -> nat, s: Server, input: Input): seq<nat> {
    match input
    case Delivery(origin, group, number, block) =>
      var key := hash(block);
      if Considers(s, group, number) && TryResolve(DeliveredEntry(s, origin, group, number, block, key)).1.Accepted? then [key] else []
    case Ballot(origin, number, key, agrees) =>
      var entry := EntryOf(s.voting, key, number);
      if Refusal(entry, origin, number).Ok? && TryResolve(Balloted(entry, origin, agrees)).1.Accepted? then [key] else []
    case _ => []
  }

  /** Every input keeps the votes consistent with the run, and the run accepts a hash exactly when more
      than half of the votes on a recorded block are for it. */
  lemma {:induction false} ServedOk(hash: seq<Byte> -> nat, self: nat, s: Server, input: Input)
    requires Consistent(s) && Accounted(s.r)
    ensures var t := Served(hash, self, s, input);
            && (!t.r.wrapped ==> Consistent(t))
            && t.r.story.accepted == s.r.story.accepted + AcceptedBy(hash, s, input)
  {
    match input
    case Message(post, members) => MessageOk(hash, self, s, post, members);
    case Rewrite(sender) =>
      RunOne(hash, s.r, Reset(sender));
      ResetNext(hash, s.r, sender);
    case Delivery(origin, group, number, block) => DeliveryOk(hash, self, s, origin, group, number, block);
    case Ballot(origin, number, key, agrees) => BallotOk(hash, self, s, origin, number, key, agrees);
  }

  lemma {:induction false} MessageOk(hash: seq<Byte> -> nat, self: nat, s: Server, post: Post, members: seq<nat>)
    requires Consistent(s) && Accounted(s.r)
    ensures var t := Served(hash, self, s, Message(post, members));
            !t.r.wrapped && Consistent(t) && t.r.story.accepted == s.r.story.accepted
  {
    hide SameVotes, SmallProposals, Next, Run, OwnProposal, Accepts, IsFinalizer, Encoded;
    RunNothing(hash, s.r);
    var t := Next(hash, s.r, Send(post));
    SendNext(hash, s.r, post);
    NextBalances(hash, s.r, Send(post));
    RunOne(hash, s.r, Send(post));
    RunTwo(hash, s.r, Send(post), Propose);
    if Proposes(hash, self, s, post, members) {
      ProposeOk(hash, self, s, post, members);
    }
  }

  lemma {:induction false} DeliveryOk(hash: seq<Byte> -> nat, self: nat, s: Server, origin: nat, group: seq<nat>, number: nat, block: seq<Byte>)
    requires Consistent(s)
    ensures var t := Served(hash, self, s, Delivery(origin, group, number, block));
            && (!t.r.wrapped ==> Consistent(t))
            && t.r.story.accepted == s.r.story.accepted + AcceptedBy(hash, s, Delivery(origin, group, number, block))
  {
    hide Consistent, Run, DeliveredEntry, Records, Counted, DecisionMoves, Considers;
    var key := hash(block);
    RunNothing(hash, s.r);
    if Considers(s, group, number) {
      var offers := if Records(s, origin, group, number, block, key) then [Offer(block)] else [];
      var entry := DeliveredEntry(s, origin, group, number, block, key);
      OfferOk(hash, s, origin, group, number, block);
      var r := Run(hash, s.r, offers);
      RunAppend(hash, s.r, offers, DecisionMoves(s.voting, key, number, entry, true));
      DecisionOk(hash, s.(r := r), key, number, entry, true);
    }
  }

  lemma {:induction false} BallotOk(hash: seq<Byte> -> nat, self: nat, s: Server, origin: nat, number: nat, key: nat, agrees: bool)
    requires Consistent(s)
    ensures var t := Served(hash, self, s, Ballot(origin, number, key, agrees));
            && (!t.r.wrapped ==> Consistent(t))
            && t.r.story.accepted == s.r.story.accepted + AcceptedBy(hash, s, Ballot(origin, number, key, agrees))
  {
    hide Run, DecisionMoves, SameVotes, SmallProposals;
    var entry := EntryOf(s.voting, key, number);
    RunNothing(hash, s.r);
    EntryRecorded(s.voting, key, number);
    SameProposal(s, key, entry);
    SameProposal(s, key, Balloted(entry, origin, agrees));
    DecisionOk(hash, s, key, number, Balloted(entry, origin, agrees), false);
  }

  // ------------------------------------------------------- accepted once more

  /** The entry of an accepted block is kept, without its proposal but with its votes, unless it is older
      than the number it was accepted under. */
  lemma {:induction false} AcceptedEntryStays(s: Server, key: nat, number: nat, entry: BlockProposal, drop: bool)
    requires TryResolve(entry).1.Accepted?
    ensures var t := Decided(s, key, number, entry, drop);
            && (key in t.voting <==> number <= entry.number)
            && (key in t.voting ==> t.voting[key] == entry.(proposal := Absent) && t.voting[key].yes > REPLICATION_FACTOR / 2)
  {
  }

  /** A block that has been accepted is accepted again at its next delivery if and only if that comes from the
      finalizer of the round and not from a replica that voted: its messages are not asked for any more. */
  lemma {:induction false} AcceptedAgain(hash: seq<Byte> -> nat, self: nat, s: Server, origin: nat, group: seq<nat>, number: nat, block: seq<Byte>)
    requires Consistent(s) && Considers(s, group, number) && hash(block) in s.voting
    requires var entry := s.voting[hash(block)]; entry.proposal == Absent && entry.yes > REPLICATION_FACTOR / 2
    ensures var input := Delivery(origin, group, number, block);
            && (AcceptedBy(hash, s, input) == [hash(block)]
                <==> origin !in s.voting[hash(block)].votes && IsFinalizer(origin, s.latest, group, |block| + BLOCK_SIZE - 1))
            && (AcceptedBy(hash, s, input) != [] ==> Served(hash, self, s, input).r.finalized == s.r.finalized + block)
  {
    hide IsFinalizer, Present, Run, SameVotes, SmallProposals;
    var key := hash(block);
    if AcceptedBy(hash, s, Delivery(origin, group, number, block)) != [] {
      var entry := DeliveredEntry(s, origin, group, number, block, key);
      var stale := Stale(s.voting[key := TryResolve(entry).0], number);
      OfferOk(hash, s, origin, group, number, block);
      RunThree(hash, s.r, Offer(block), Accept(key), Forget(stale));
      assert [Offer(block)] + [Accept(key), Forget(stale)] == [Offer(block), Accept(key), Forget(stale)];
      RunOne(hash, s.r, Offer(block));
      RecordedUnder(s.(r := Next(hash, s.r, Offer(block))), key, entry);
      AcceptFinalizes(hash, Next(hash, s.r, Offer(block)), key, block, stale);
    }
  }

  lemma {:induction false} RunThree(hash: seq<Byte> -> nat, r: Replica, d: Event, e: Event, f: Event)
    ensures Run(hash, r, [d, e, f]) == Next(hash, Next(hash, Next(hash, r, d), e), f)
  {
    hide Next;
    RunOne(hash, r, d);
    RunAppend(hash, r, [d], [e, f]);
    RunTwo(hash, Next(hash, r, d), e, f);
    assert [d] + [e, f] == [d, e, f];
  }

  lemma {:induction false} AcceptFinalizes(hash: seq<Byte> -> nat, r: Replica, key: nat, block: seq<Byte>, stale: set<nat>)
    requires !r.wrapped && Voted(r.voting, key) == Remote(block)
    ensures var t := Next(hash, Next(hash, r, Accept(key)), Forget(stale));
            t.finalized == r.finalized + block && t.buffer == Pack(Filter(Outside(Elements(Unpack(block))), Unpack(r.buffer))) && !t.wrapped
  {
    hide Unpack, Pack, Filter;
  }

  /** Deliveries of one block: three from the finalizer of the first round, one from that of the next. */
  function TwiceInputs(block: seq<Byte>, origin: nat, group: seq<nat>, later: nat, others: seq<nat>): seq<Input> {
    [Delivery(origin, group, 0, block), Delivery(origin, group, 0, block), Delivery(origin, group, 0, block),
     Delivery(later, others, 0, block)]
  }

  /** A new replica after n of those deliveries, before it has accepted the block. */
  ghost predicate Waiting(s: Server, key: nat, block: seq<Byte>, n: nat) {
    && Consistent(s) && s.number == 0 && s.latest == 0 && s.r.finalized == [] && s.r.buffer == [] && s.r.story.accepted == []
    && s.voting == (if n == 0 then map[] else map[key := BlockProposal(0, n, n, Remote(block), [])])
  }

  lemma {:induction false} WaitMore(hash: seq<Byte> -> nat, self: nat, s: Server, block: seq<Byte>, origin: nat, group: seq<nat>, n: nat)
    requires Waiting(s, hash(block), block, n) && n < 2 && Unpack(block) != []
    requires group != [] && Distinct(group) && IsFinalizer(origin, 0, group, |block| + BLOCK_SIZE - 1)
    ensures Waiting(Served(hash, self, s, Delivery(origin, group, 0, block)), hash(block), block, n + 1)
  {
    hide IsFinalizer, Run, SameVotes, SmallProposals, Unpack, Present, Next;
    var key := hash(block);
    NotPresent(block);
    OfferOk(hash, s, origin, group, 0, block);
    var entry := DeliveredEntry(s, origin, group, 0, block, key);
    assert entry == BlockProposal(0, n + 1, n + 1, Remote(block), []);
    assert DecisionMoves(s.voting, key, 0, entry, true) == [];
    var offers := if Records(s, origin, group, 0, block, key) then [Offer(block)] else [];
    assert offers + [] == offers;
  }

  lemma {:induction false} NotPresent(block: seq<Byte>)
    requires Unpack(block) != []
    ensures !Present(Elements(Unpack(block)), Unpack([]))
  {
    UnpackNothing();
    assert Unpack(block)[0] in Elements(Unpack(block));
  }

  lemma {:induction false} ThirdAccepts(hash: seq<Byte> -> nat, self: nat, s: Server, block: seq<Byte>, origin: nat, group: seq<nat>)
    requires Waiting(s, hash(block), block, 2) && group != [] && Distinct(group)
    ensures var t := Served(hash, self, s, Delivery(origin, group, 0, block));
            && Consistent(t) && t.number == 0 && t.latest == hash(block) && t.r.finalized == block && t.r.buffer == []
            && t.voting == map[hash(block) := BlockProposal(0, 3, 3, Absent, [])]
            && t.r.story.accepted == [hash(block)]
  {
    hide IsFinalizer, Run, SameVotes, SmallProposals, Unpack, Present, Next, Pack, Filter;
    var key := hash(block);
    OfferOk(hash, s, origin, group, 0, block);
    var entry := DeliveredEntry(s, origin, group, 0, block, key);
    assert entry == BlockProposal(0, 3, 3, Remote(block), []);
    var stale := Stale(s.voting[key := TryResolve(entry).0], 0);
    assert !Records(s, origin, group, 0, block, key);
    assert [] + DecisionMoves(s.voting, key, 0, entry, true) == [Accept(key), Forget(stale)];
    RunNothing(hash, s.r);
    RunTwo(hash, s.r, Accept(key), Forget(stale));
    RecordedUnder(s, key, entry);
    AcceptFinalizes(hash, s.r, key, block, stale);
    NothingLeft(block);
    DeliveryOk(hash, self, s, origin, group, 0, block);
  }

  lemma {:induction false} NothingLeft(block: seq<Byte>)
    ensures Pack(Filter(Outside(Elements(Unpack(block))), Unpack([]))) == []
  {
    UnpackNothing();
  }

  lemma {:induction false} ServedFour(hash: seq<Byte> -> nat, self: nat, inputs: seq<Input>)
    requires |inputs| == 4
    ensures ServedAll(hash, self, inputs) ==
      Served(hash, self, Served(hash, self, Served(hash, self, Served(hash, self, NEW, inputs[0]), inputs[1]), inputs[2]), inputs[3])
  {
    hide Served;
    assert inputs[..3][..2] == inputs[..2] && inputs[..2][..1] == inputs[..1] && inputs[..1][..0] == [];
    assert ServedAll(hash, self, inputs[..1]) == Served(hash, self, NEW, inputs[0]);
    assert ServedAll(hash, self, inputs[..2]) == Served(hash, self, ServedAll(hash, self, inputs[..1]), inputs[1]);
    assert ServedAll(hash, self, inputs[..3]) == Served(hash, self, ServedAll(hash, self, inputs[..2]), inputs[2]);
  }

  lemma {:induction false} NewWaits(key: nat, block: seq<Byte>)
    ensures Waiting(NEW, key, block, 0)
  {
  }

  /** One block is finalized twice. */
  lemma {:induction false} TwiceFinalized(hash: seq<Byte> -> nat, self: nat, block: seq<Byte>, origin: nat, group: seq<nat>, later: nat, others: seq<nat>)
    requires Unpack(block) != []
    requires group != [] && Distinct(group) && IsFinalizer(origin, 0, group, |block| + BLOCK_SIZE - 1)
    requires others != [] && Distinct(others) && IsFinalizer(later, hash(block), others, |block| + BLOCK_SIZE - 1)
    ensures var s := ServedAll(hash, self, TwiceInputs(block, origin, group, later, others));
            s.r.finalized == block + block && s.r.story.accepted == [hash(block), hash(block)]
  {
    hide IsFinalizer, Served, ServedAll, Waiting, Unpack, Consistent, AcceptedBy, Distinct;
    NewWaits(hash(block), block);
    var inputs := TwiceInputs(block, origin, group, later, others);
    ServedFour(hash, self, inputs);
    var s1 := Served(hash, self, NEW, inputs[0]);
    var s2 := Served(hash, self, s1, inputs[1]);
    var s3 := Served(hash, self, s2, inputs[2]);
    WaitMore(hash, self, NEW, block, origin, group, 0);
    WaitMore(hash, self, s1, block, origin, group, 1);
    ThirdAccepts(hash, self, s2, block, origin, group);
    AcceptedAgain(hash, self, s3, later, others, 0, block);
    DeliveryOk(hash, self, s3, later, others, 0, block);
  }

  // ----------------------------------------------------- what the inputs determine

  /** The messages taken in, newest first, and the nonces that were used last. */
  ghost function Posted(inputs: seq<Input>): (seq<Post>, map<seq<Byte>, nat>)
    decreases |inputs|
  {
    if inputs == [] then ([], map[])
    else
      var (posts, nonces) := Posted(inputs[..|inputs| - 1]);
      match inputs[|inputs| - 1]
      case Message(post, members) =>
        if !IsPost(post) || post.nonce <= Stored(nonces, post.sender) || members == [] || !Distinct(members) then (posts, nonces)
        else (if |Encoded(post)| <= MAX_ENCODED then [post] + posts else posts, nonces[post.sender := post.nonce])
      case Rewrite(sender) => (posts, nonces - {sender})
      case _ => (posts, nonces)
  }

  ghost predicate Quiet(e: Event) { !e.Send? && !e.Reset? }

  lemma {:induction false} QuietRun(hash: seq<Byte> -> nat, r: Replica, events: seq<Event>)
    requires forall i :: 0 <= i < |events| ==> Quiet(events[i])
    ensures Run(hash, r, events).story.posts == r.story.posts && Run(hash, r, events).nonces == r.nonces
    decreases |events|
  {
    hide Next;
    if events == [] {
    } else {
      var n := |events| - 1;
      QuietRun(hash, r, events[..n]);
      QuietNext(hash, Run(hash, r, events[..n]), events[n]);
    }
  }

  lemma {:induction false} QuietNext(hash: seq<Byte> -> nat, r: Replica, e: Event)
    requires Quiet(e)
    ensures Next(hash, r, e).story.posts == r.story.posts && Next(hash, r, e).nonces == r.nonces
  {
    hide Unpack, Pack, Filter, ProposedBlock, Older, Cut;
  }

  lemma {:induction false} SendPosts(hash: seq<Byte> -> nat, r: Replica, p: Post)
    requires !r.wrapped && CanSend(r, p)
    ensures var t := Next(hash, r, Send(p));
            && t.story.posts == (if |Encoded(p)| <= MAX_ENCODED then [p] + r.story.posts else r.story.posts)
            && t.nonces == r.nonces[p.sender := p.nonce]
  {
    hide Encoded, Trimmed, Unpack, CutAt, Entry;
  }

  /** Until the length of the buffer wraps, the messages that have been sent are those of the inputs. */
  lemma {:induction false} PostsAreInputs(hash: seq<Byte> -> nat, self: nat, inputs: seq<Input>)
    requires forall k :: 0 <= k < |inputs| ==> !ServedAll(hash, self, inputs[..k]).r.wrapped
    ensures var s := ServedAll(hash, self, inputs);
            (s.r.story.posts, s.r.nonces) == Posted(inputs)
    decreases |inputs|
  {
    hide Next, Run, Served, Proposes, DecisionMoves, DeliveredEntry, Records, Considers, Encoded;
    if inputs == [] {
    } else {
      var n := |inputs| - 1;
      var before, s, input := inputs[..n], ServedAll(hash, self, inputs[..n]), inputs[n];
      forall k | 0 <= k < n ensures !ServedAll(hash, self, before[..k]).r.wrapped {
        assert before[..k] == inputs[..k];
      }
      PostsAreInputs(hash, self, before);
      assert !s.r.wrapped;
      ServedRuns(hash, self, s, input);
      MovesPost(hash, self, s, input);
    }
  }

  lemma {:induction false} MovesPost(hash: seq<Byte> -> nat, self: nat, s: Server, input: Input)
    requires !s.r.wrapped
    ensures var r := Run(hash, s.r, Moves(hash, self, s, input));
            match input
            case Message(post, members) =>
              if Accepts(s, post, members) then
                && r.story.posts == (if |Encoded(post)| <= MAX_ENCODED then [post] + s.r.story.posts else s.r.story.posts)
                && r.nonces == s.r.nonces[post.sender := post.nonce]
              else r.story.posts == s.r.story.posts && r.nonces == s.r.nonces
            case Rewrite(sender) => r.story.posts == s.r.story.posts && r.nonces == s.r.nonces - {sender}
            case _ => r.story.posts == s.r.story.posts && r.nonces == s.r.nonces
  {
    hide Next, Run, Proposes, DeliveredEntry, Records, Considers, Encoded, CanSend;
    var moves := Moves(hash, self, s, input);
    match input
    case Message(post, members) =>
      if Accepts(s, post, members) {
        SendPosts(hash, s.r, post);
        RunOne(hash, s.r, Send(post));
        RunTwo(hash, s.r, Send(post), Propose);
        QuietNext(hash, Next(hash, s.r, Send(post)), Propose);
      } else {
        RunNothing(hash, s.r);
      }
    case Rewrite(sender) =>
      RunOne(hash, s.r, Reset(sender));
      ResetNext(hash, s.r, sender);
    case _ =>
      QuietRun(hash, s.r, moves);
  }

  lemma {:induction false} ResetNext(hash: seq<Byte> -> nat, r: Replica, sender: seq<Byte>)
    requires !r.wrapped
    ensures Next(hash, r, Reset(sender)) == r.(nonces := r.nonces - {sender})
  {
  }

  lemma {:induction false} MovesNoReset(hash: seq<Byte> -> nat, self: nat, s: Server, input: Input)
    requires !input.Rewrite?
    ensures NoResets(Moves(hash, self, s, input))
  {
    hide Proposes, DeliveredEntry, Records, Considers, Accepts, Refusal, TryResolve;
  }

  lemma {:induction false} NoResetsAppend(es: seq<Event>, fs: seq<Event>)
    requires NoResets(es) && NoResets(fs)
    ensures NoResets(es + fs)
  {
  }

  /** Without rewritten records there are no resets. */
  lemma {:induction false} MovesWithoutResets(hash: seq<Byte> -> nat, self: nat, inputs: seq<Input>)
    requires forall i :: 0 <= i < |inputs| ==> !inputs[i].Rewrite?
    ensures NoResets(AllMoves(hash, self, inputs))
    decreases |inputs|
  {
    hide Moves, ServedAll;
    if inputs == [] {
    } else {
      var before := inputs[..|inputs| - 1];
      var s := ServedAll(hash, self, before);
      MovesWithoutResets(hash, self, before);
      MovesNoReset(hash, self, s, inputs[|inputs| - 1]);
      NoResetsAppend(AllMoves(hash, self, before), Moves(hash, self, s, inputs[|inputs| - 1]));
    }
  }

  /** A replica of different messages: with the last two lemmas, what `ChatProposals` shows of runs
      holds of inputs without rewritten records. */
  lemma {:induction false} InputsFinalize(hash: seq<Byte> -> nat, self: nat, inputs: seq<Input>)
    requires Injective(hash) && forall i :: 0 <= i < |inputs| ==> !inputs[i].Rewrite?
    ensures var story := ServedAll(hash, self, inputs).r.story;
            Finalizes(hash, story.pieces, story.accepted) <==> AllHeld(hash, AllMoves(hash, self, inputs))
  {
    hide Run, AllHeld, Finalizes, AllMoves, ServedAll, NoResets, Injective;
    ServedIsRun(hash, self, inputs);
    MovesWithoutResets(hash, self, inputs);
    FinalizesProposals(hash, AllMoves(hash, self, inputs));
  }
}
