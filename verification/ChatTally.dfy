/** What the votes on a block come to: each entry's counts are a count over the inputs, and these counts alone
    decide when a block is accepted and when it is rejected. */
module ChatTally {
  import opened Wrappers
  import opened Octets
  import opened Lists
  import opened ChatMessages
  import opened ChatBlocks
  import opened ChatLog
  import opened ChatPosts
  import opened ChatRuns
  import opened ChatServer

  // ---------------------------------------------------------- one input at a time

  function For(voting: map<nat, BlockProposal>, key: nat): nat { if key in voting then voting[key].yes else 0 }

  function Against(voting: map<nat, BlockProposal>, key: nat): nat { if key in voting then voting[key].no else 0 }

  function Voters(voting: map<nat, BlockProposal>, key: nat): seq<nat> { if key in voting then voting[key].votes else [] }

  function Proposed(voting: map<nat, BlockProposal>, key: nat): Proposal {
    if key in voting then voting[key].proposal else Absent
  }

  /** The number an entry has, or is made with. */
  function NumberOf(voting: map<nat, BlockProposal>, key: nat, number: nat): nat {
    if key in voting then voting[key].number else number
  }

  /** A ballot counts unless the entry is for another block number, has the voter's vote, or has four votes. */
  predicate BallotCounts(voting: map<nat, BlockProposal>, origin: nat, number: nat, key: nat) {
    NumberOf(voting, key, number) == number && origin !in Voters(voting, key) && |Voters(voting, key)| != 4
  }

  /** A delivered block is recorded when none is, its sender has not voted, and it is the sender's turn. */
  ghost predicate TakesDown(s: Server, origin: nat, group: seq<nat>, block: seq<Byte>, key: nat) {
    && Proposed(s.voting, key) == Absent && origin !in Voters(s.voting, key)
    && IsFinalizer(origin, s.latest, group, |block| + BLOCK_SIZE - 1)
  }

  /** And it passes when it is for the entry's number and all its messages are held. */
  ghost predicate Passes(s: Server, origin: nat, group: seq<nat>, number: nat, block: seq<Byte>, key: nat) {
    && TakesDown(s, origin, group, block, key) && NumberOf(s.voting, key, number) == number
    && Present(Elements(Unpack(block)), Unpack(s.r.buffer))
  }

  /** After the block is accepted, its entry is kept without the proposal, and entries of earlier numbers are dropped. */
  ghost predicate AcceptedInto(s: Server, t: Server, key: nat, number: nat, entry: BlockProposal) {
    && t.number == number && t.latest == key
    && (forall k :: k in t.voting <==> (k == key || k in s.voting) && number <= (if k == key then entry else s.voting[k]).number)
    && (forall k :: k in t.voting ==> t.voting[k] == if k == key then entry.(proposal := Absent) else s.voting[k])
  }

  /** A counted ballot adds one, for or against. With three or more for it a recorded block is accepted; otherwise the
      entry has the new counts and nothing else changes. A ballot never removes an entry, however many are against. */
  lemma {:induction false} BallotLaw(hash: seq<Byte> -> nat, self: nat, s: Server, origin: nat, number: nat, key: nat, agrees: bool)
    ensures var input := Ballot(origin, number, key, agrees);
            var t := Served(hash, self, s, input);
            if !BallotCounts(s.voting, origin, number, key) then t == s && AcceptedBy(hash, s, input) == []
            else
              var y := For(s.voting, key) + if agrees then 1 else 0;
              var n := Against(s.voting, key) + if agrees then 0 else 1;
              var entry := BlockProposal(number, y, n, Proposed(s.voting, key), Voters(s.voting, key) + [origin]);
              if y >= 3 && entry.proposal != Absent then AcceptedBy(hash, s, input) == [key] && AcceptedInto(s, t, key, number, entry)
              else AcceptedBy(hash, s, input) == [] && t == s.(voting := s.voting[key := entry])
  {
    hide Run;
    RunNothing(hash, s.r);
    if !BallotCounts(s.voting, origin, number, key) {
      assert key in s.voting && s.voting[key := s.voting[key]] == s.voting;
    }
  }

  /** What the check of a delivered block answers, and what the delivery leaves in its entry. */
  lemma {:induction false} CheckLaw(s: Server, origin: nat, group: seq<nat>, number: nat, block: seq<Byte>, key: nat)
    ensures CheckOf(s, origin, group, number, block, key).Ok? <==> Passes(s, origin, group, number, block, key)
    ensures !Passes(s, origin, group, number, block, key) ==>
              CheckOf(s, origin, group, number, block, key)
              == Err(if Proposed(s.voting, key) != Absent || origin in Voters(s.voting, key) then AlreadyVoted
                     else if !TakesDown(s, origin, group, block, key) then WrongProposer
                     else if NumberOf(s.voting, key, number) != number then WrongBlockNumber
                     else BlockUnexpectedMessages)
    ensures var ok := Passes(s, origin, group, number, block, key);
            DeliveredEntry(s, origin, group, number, block, key)
            == BlockProposal(NumberOf(s.voting, key, number), For(s.voting, key) + 1 + (if ok then 1 else 0),
                             Against(s.voting, key) + (if ok then 0 else 1),
                             if TakesDown(s, origin, group, block, key) then Remote(block) else Proposed(s.voting, key),
                             Voters(s.voting, key))
  {
    hide IsFinalizer, Present, Elements, Unpack;
  }

  /** A considered delivery adds one for the block, and one more for or against it as it passes or not. With three or more
      for it a recorded block is accepted; else with three or more against it the entry is removed; else it has the
      new counts. */
  lemma {:induction false} DeliveryLaw(hash: seq<Byte> -> nat, self: nat, s: Server, origin: nat, group: seq<nat>, number: nat, block: seq<Byte>)
    ensures var input := Delivery(origin, group, number, block);
            var key := hash(block);
            var t := Served(hash, self, s, input);
            if number < s.number || group == [] || !Distinct(group) then t == s && AcceptedBy(hash, s, input) == []
            else
              var ok := Passes(s, origin, group, number, block, key);
              var y := For(s.voting, key) + 1 + if ok then 1 else 0;
              var n := Against(s.voting, key) + if ok then 0 else 1;
              var entry := BlockProposal(NumberOf(s.voting, key, number), y, n,
                             if TakesDown(s, origin, group, block, key) then Remote(block) else Proposed(s.voting, key),
                             Voters(s.voting, key));
              if y >= 3 && entry.proposal != Absent then AcceptedBy(hash, s, input) == [key] && AcceptedInto(s, t, key, number, entry)
              else
                && AcceptedBy(hash, s, input) == [] && t.number == s.number && t.latest == s.latest
                && t.voting == if n >= 3 then s.voting - {key} else s.voting[key := entry]
  {
    hide Run, IsFinalizer, Present, Elements, Unpack, DeliveredEntry, Passes, TakesDown, Records;
    RunNothing(hash, s.r);
    CheckLaw(s, origin, group, number, block, hash(block));
  }

  /** A message leaves the votes alone, unless this replica proposes a block: that is an entry with its own vote. */
  lemma {:induction false} MessageLaw(hash: seq<Byte> -> nat, self: nat, s: Server, post: Post, members: seq<nat>)
    ensures var t := Served(hash, self, s, Message(post, members));
            var block := OwnProposal(hash, s, post);
            && t.number == s.number && t.latest == s.latest
            && t.voting == if Proposes(hash, self, s, post, members)
                           then s.voting[hash(block) := BlockProposal(s.number, 1, 0, Local(|block|), [])] else s.voting
  {
    hide Run, Moves, Proposes, OwnProposal;
  }

  /** A rewritten record leaves the votes alone. */
  lemma {:induction false} RewriteLaw(hash: seq<Byte> -> nat, self: nat, s: Server, sender: seq<Byte>)
    ensures var t := Served(hash, self, s, Rewrite(sender)); t.number == s.number && t.latest == s.latest && t.voting == s.voting
  {
    hide Run, Moves;
  }

  // -------------------------------------------------------------- over all inputs

  /** What was counted under a key since its entry was made. */
  datatype Tally = Tally(own: nat, deliveries: nat, passed: nat, agreeing: nat, disagreeing: nat)

  const NOTHING := Tally(0, 0, 0, 0, 0)

  /** The input's part. */
  ghost function Tallied(hash: seq<Byte> -> nat, self: nat, s: Server, input: Input, key: nat, so: Tally): Tally {
    match input
    case Message(post, members) =>
      if Proposes(hash, self, s, post, members) && hash(OwnProposal(hash, s, post)) == key then NOTHING.(own := 1) else so
    case Rewrite(_) => so
    case Delivery(origin, group, number, block) =>
      if hash(block) == key && s.number <= number && group != [] && Distinct(group) then
        so.(deliveries := so.deliveries + 1,
            passed := so.passed + if Passes(s, origin, group, number, block, key) then 1 else 0)
      else so
    case Ballot(origin, number, k, agrees) =>
      if k == key && BallotCounts(s.voting, origin, number, key) then
        if agrees then so.(agreeing := so.agreeing + 1) else so.(disagreeing := so.disagreeing + 1)
      else so
  }

  /** Counting starts again when the entry is gone. */
  ghost function TallyOf(hash: seq<Byte> -> nat, self: nat, inputs: seq<Input>, key: nat): Tally
    decreases |inputs|
  {
    if inputs == [] || key !in ServedAll(hash, self, inputs).voting then NOTHING
    else
      var before := inputs[..|inputs| - 1];
      Tallied(hash, self, ServedAll(hash, self, before), inputs[|inputs| - 1], key, TallyOf(hash, self, before, key))
  }

  /** What an entry holds against what was counted. */
  ghost predicate Comes(voting: map<nat, BlockProposal>, key: nat, t: Tally) {
    && For(voting, key) == t.own + t.deliveries + t.passed + t.agreeing
    && Against(voting, key) == t.deliveries - t.passed + t.disagreeing
  }

  lemma {:induction false} StepTally(hash: seq<Byte> -> nat, self: nat, s: Server, input: Input, key: nat, so: Tally)
    requires Comes(s.voting, key, so)
    ensures var t := Served(hash, self, s, input);
            key in t.voting ==> Comes(t.voting, key, Tallied(hash, self, s, input, key, so))
  {
    hide Served, AcceptedBy, Passes, Proposes, OwnProposal, TakesDown;
    match input
    case Message(post, members) => MessageLaw(hash, self, s, post, members);
    case Rewrite(sender) => RewriteLaw(hash, self, s, sender);
    case Delivery(origin, group, number, block) => DeliveryLaw(hash, self, s, origin, group, number, block);
    case Ballot(origin, number, k, agrees) => BallotLaw(hash, self, s, origin, number, k, agrees);
  }

  /** In every run of inputs, an entry's votes for a block are this replica's own, one for each delivery, one for each delivery
      that passed, and the counted ballots that agree; the votes against it are the deliveries that did
      not pass and the counted ballots that disagree. */
  lemma {:induction false} VotesAreCounted(hash: seq<Byte> -> nat, self: nat, inputs: seq<Input>, key: nat)
    ensures var voting, t := ServedAll(hash, self, inputs).voting, TallyOf(hash, self, inputs, key);
            key in voting ==> && voting[key].yes == t.own + t.deliveries + t.passed + t.agreeing
                              && voting[key].no == t.deliveries - t.passed + t.disagreeing
  {
    hide Served, ServedAll, TallyOf;
    EveryTallyComes(hash, self, inputs, key);
  }

  lemma {:induction false} EveryTallyComes(hash: seq<Byte> -> nat, self: nat, inputs: seq<Input>, key: nat)
    ensures Comes(ServedAll(hash, self, inputs).voting, key, TallyOf(hash, self, inputs, key))
    decreases |inputs|
  {
    if inputs == [] || key !in ServedAll(hash, self, inputs).voting {
    } else {
      hide Served, Tallied;
      var before := inputs[..|inputs| - 1];
      EveryTallyComes(hash, self, before, key);
      StepTally(hash, self, ServedAll(hash, self, before), inputs[|inputs| - 1], key, TallyOf(hash, self, before, key));
    }
  }

  /** In every run, an input gets a block accepted exactly when it is counted under its hash, a block is recorded there by
      then, and with this input the votes for it are at least three. */
  lemma {:induction false} ThreeVotesAccept(hash: seq<Byte> -> nat, self: nat, inputs: seq<Input>, input: Input)
    ensures var s := ServedAll(hash, self, inputs);
            match input
            case Delivery(origin, group, number, block) =>
              var key := hash(block);
              var t := Tallied(hash, self, s, input, key, TallyOf(hash, self, inputs, key));
              AcceptedBy(hash, s, input) ==
              (if s.number <= number && group != [] && Distinct(group)
                  && (Proposed(s.voting, key) != Absent || TakesDown(s, origin, group, block, key))
                  && t.own + t.deliveries + t.passed + t.agreeing >= 3 then [key] else [])
            case Ballot(origin, number, key, agrees) =>
              var t := Tallied(hash, self, s, input, key, TallyOf(hash, self, inputs, key));
              AcceptedBy(hash, s, input) ==
              (if BallotCounts(s.voting, origin, number, key) && Proposed(s.voting, key) != Absent
                  && t.own + t.deliveries + t.passed + t.agreeing >= 3 then [key] else [])
            case _ => AcceptedBy(hash, s, input) == []
  {
    hide Served, ServedAll, TallyOf, TakesDown, Passes;
    var s := ServedAll(hash, self, inputs);
    match input
    case Delivery(origin, group, number, block) =>
      EveryTallyComes(hash, self, inputs, hash(block));
      DeliveryLaw(hash, self, s, origin, group, number, block);
    case Ballot(origin, number, key, agrees) =>
      EveryTallyComes(hash, self, inputs, key);
      BallotLaw(hash, self, s, origin, number, key, agrees);
    case _ =>
  }

  /** In every run, an entry disappears with a delivery that leaves at least three votes against its block and does not get it
      accepted, or else by being older than a block that is accepted. */
  lemma {:induction false} ThreeVotesReject(hash: seq<Byte> -> nat, self: nat, inputs: seq<Input>, input: Input, key: nat)
    requires key in ServedAll(hash, self, inputs).voting
    ensures var s, u := ServedAll(hash, self, inputs), ServedAll(hash, self, inputs + [input]);
            var t := Tallied(hash, self, s, input, key, TallyOf(hash, self, inputs, key));
            if AcceptedBy(hash, s, input) != [] then key !in u.voting <==> s.voting[key].number < u.number
            else key !in u.voting <==>
                   input.Delivery? && t != TallyOf(hash, self, inputs, key) && t.deliveries - t.passed + t.disagreeing >= 3
  {
    assert (inputs + [input])[..|inputs|] == inputs;
    assert ServedAll(hash, self, inputs + [input]) == Served(hash, self, ServedAll(hash, self, inputs), input);
    EveryTallyComes(hash, self, inputs, key);
    hide Served, ServedAll, TallyOf, TakesDown, Passes, Proposes, OwnProposal;
    var s := ServedAll(hash, self, inputs);
    match input
    case Delivery(origin, group, number, block) => DeliveryLaw(hash, self, s, origin, group, number, block);
    case Ballot(origin, number, k, agrees) => BallotLaw(hash, self, s, origin, number, k, agrees);
    case Message(post, members) => MessageLaw(hash, self, s, post, members);
    case Rewrite(sender) => RewriteLaw(hash, self, s, sender);
  }
}
