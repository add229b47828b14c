/** Every run of two honest ratchets, with any loss, duplication and reordering of headers. */
module RatchetRuns {
  import opened Wrappers
  import opened Arithmetic
  import opened DoubleRatchet

  /** A header together with the key the sender's `send` returned for it. */
  datatype Message = Message(header: Header, key: Bytes)

  /** One party: its ratchet, everything it sent, and every header it accepted with the key
      its `recv` returned. */
  datatype Party = Party(st: State, sent: seq<Message>, got: seq<Message>)

  /** What a root step fixed: the root key after it, the chain it started, and that chain's hash. */
  datatype Round = Round(root: Bytes, chain: Chain, hash: Bytes)

  /** The initiator owns the even root steps, the recipient the odd ones. */
  datatype World = World(alice: Party, bob: Party, rounds: seq<Round>)

  datatype Action =
    | SendBy(alice: bool)
    | Deliver(toAlice: bool, index: nat, coins: Coins)

  // -------------------------------------------------------------------- runs

  function Init(c: Suite, secret: Bytes, kyberA: Bytes, x25519A: Bytes, coinsB: Coins): World {
    var a := InitSender(c, secret, kyberA, x25519A);
    var b := InitRecipient(c, secret, c.dhPublic(x25519A), c.kemPublic(kyberA), coinsB);
    World(Party(a, [], []), Party(b, [], []),
          [Round(c.zero, Chain(0, c.zero), c.zero),
           Round(c.zero, Chain(0, c.zero), c.hash(secret)),
           Round(a.root.root, a.sender, a.senderHash)])
  }

  /** Fewer than 2^32 - 1 messages per chain, and as many root steps. */
  predicate CanSend(p: Party) {
    if p.st.sender.step == U32_MAX then p.st.root.step + 1 < U32_MAX else p.st.sender.step + 1 < U32_MAX
  }

  function SendParty(c: Suite, p: Party): Party {
    var (st, header, key) := SendStep(c, p.st);
    Party(st, p.sent + [Message(header, key)], p.got)
  }

  function RecvParty(c: Suite, p: Party, h: Header, coins: Coins): Party
    requires IsHeader(h)
  {
    var (st, r) := RecvStep(c, p.st, h, coins);
    Party(st, p.sent, if r.Ok? then p.got + [Message(h, r.value)] else p.got)
  }

  /** The rounds after a send: a send from the guarded state starts a new one. */
  function RoundsAfterSend(c: Suite, p: Party, rounds: seq<Round>): seq<Round> {
    if p.st.sender.step == U32_MAX then
      var t := StartSending(c, p.st);
      rounds + [Round(t.root.root, t.sender, t.senderHash)]
    else rounds
  }

  function Next(c: Suite, w: World, a: Action): World {
    match a
    case SendBy(alice) =>
      var p := if alice then w.alice else w.bob;
      if !CanSend(p) then w
      else
        var rounds := RoundsAfterSend(c, p, w.rounds);
        if alice then w.(alice := SendParty(c, p), rounds := rounds)
        else w.(bob := SendParty(c, p), rounds := rounds)
    case Deliver(toAlice, index, coins) =>
      var p, q := if toAlice then w.alice else w.bob, if toAlice then w.bob else w.alice;
      if index >= |q.sent| || !IsHeader(q.sent[index].header) then w
      else
        var p' := RecvParty(c, p, q.sent[index].header, coins);
        if toAlice then w.(alice := p') else w.(bob := p')
  }

  function Run(c: Suite, w: World, actions: seq<Action>): World
    decreases |actions|
  {
    if actions == [] then w else Next(c, Run(c, w, actions[..|actions| - 1]), actions[|actions| - 1])
  }

  // --------------------------------------------------------------- invariant

  predicate Mine(even: bool, step: nat) { (step % 2 == 0) == even }

  /** The chain's key state after reaching counter n, and the message key taken there. */
  ghost function RootAfter(c: Suite, chain: Chain, n: nat): Bytes
    requires chain.step <= n
    decreases n
  {
    if n == chain.step then chain.root else c.kdf(RootAfter(c, chain, n - 1), c.zero, "sub chain").0
  }

  ghost function KeyAt(c: Suite, chain: Chain, n: nat): Bytes
    requires chain.step <= n
  {
    c.kdf(RootAfter(c, chain, n), c.zero, "sub chain").1
  }

  /** The live chain is the one round `step` started, advanced. */
  ghost predicate OnChain(c: Suite, rounds: seq<Round>, step: nat, live: Chain) {
    step < |rounds| && rounds[step].chain.step <= live.step && live.root == RootAfter(c, rounds[step].chain, live.step)
  }

  /** The round whose chain the party receives on. */
  function ReceivingStep(st: State, even: bool): nat
    requires 1 <= st.root.step
  {
    if Mine(even, st.root.step) then st.root.step - 1 else st.root.step
  }

  /** A message carries the key of the peer's or own chain at its id. */
  ghost predicate Genuine(c: Suite, rounds: seq<Round>, id: MessageId, key: Bytes) {
    && 2 <= id.step < |rounds|
    && rounds[id.step].chain.step <= id.subStep
    && key == KeyAt(c, rounds[id.step].chain, id.subStep)
  }

  ghost predicate SentOk(c: Suite, rounds: seq<Round>, p: Party, even: bool) {
    forall i :: 0 <= i < |p.sent| ==>
      var h := p.sent[i].header;
      && Genuine(c, rounds, h.id, p.sent[i].key)
      && h.id.step <= p.st.root.step && Mine(even, h.id.step)
      && IsHeader(h)
      && (h.id.step == p.st.root.step ==> h.id.subStep < p.st.sender.step && h == HeaderOf(c, p.st).(id := h.id))
  }

  /** The id lies before the receiver's position. */
  ghost predicate Passed(id: MessageId, step: nat, live: Chain) {
    id.step <= step && (id.step == step ==> id.subStep < live.step)
  }

  ghost predicate MissingOk(c: Suite, rounds: seq<Round>, missing: seq<(MessageId, Bytes)>, got: seq<Message>,
                            even: bool, step: nat, live: Chain)
  {
    && |missing| <= MAX_KEPT_MISSING_MESSAGES
    && (forall i :: 0 <= i < |missing| && !Mine(even, missing[i].0.step) ==>
          && Genuine(c, rounds, missing[i].0, missing[i].1)
          && Passed(missing[i].0, step, live)
          && (forall g :: 0 <= g < |got| ==> got[g].header.id != missing[i].0))
    && (forall i, j :: 0 <= i < j < |missing| && !Mine(even, missing[i].0.step) ==> missing[i].0 != missing[j].0)
  }

  ghost predicate GotOk(got: seq<Message>, peerSent: seq<Message>, step: nat, live: Chain) {
    && (forall g :: 0 <= g < |got| ==> got[g] in peerSent && Passed(got[g].header.id, step, live))
    && (forall i, j :: 0 <= i < j < |got| ==> got[i].header.id != got[j].header.id)
  }

  ghost predicate StateOk(c: Suite, rounds: seq<Round>, st: State, even: bool) {
    && 2 <= st.root.step < |rounds| && st.root.step < U32_MAX
    && st.root.root == rounds[st.root.step].root
    && OnChain(c, rounds, ReceivingStep(st, even), st.receiver)
    && st.receiverHash == rounds[ReceivingStep(st, even)].hash
    && st.prevSubCount < U32_MAX
    && if Mine(even, st.root.step)
       then OnChain(c, rounds, st.root.step, st.sender) && st.sender.step < U32_MAX && st.senderHash == rounds[st.root.step].hash
       else st.sender.step == U32_MAX && st.senderHash == rounds[st.root.step - 1].hash
  }

  /** The receiver never runs ahead of what the sender of that chain sent. */
  function SentCount(st: State, even: bool, step: nat): nat {
    if Mine(even, st.root.step) && step == st.root.step then st.sender.step else st.prevSubCount
  }

  /** The ratchet input of a round: the Diffie-Hellman value, mixed with a secret every 35th step. */
  function RoundInput(c: Suite, dh: Bytes, step: nat, ss: Bytes): Bytes {
    if step % KYBER_PERIOD == 0 then c.xor(dh, ss) else dh
  }

  /** Whose encapsulated secret goes into the next mixed round after `step`. The period is odd,
      so the parties alternate. */
  predicate KemTurn(even: bool, step: nat) { Mine(even, step / KYBER_PERIOD + 1) }

  /** What ties p's ratchet to q's. */
  ghost predicate Linked(c: Suite, rounds: seq<Round>, p: State, q: State, even: bool)
    requires 2 <= p.root.step && 2 <= q.root.step
  {
    && q.receiver.step <= SentCount(p, even, ReceivingStep(q, !even))
    && (!Mine(even, p.root.step) ==>
          q.root.step == p.root.step && p.sender.root == c.dh(p.x25519, c.dhPublic(q.x25519)))
    && (p.root.step > q.root.step ==>
          && Mine(even, p.root.step) && p.root.step == q.root.step + 1 < |rounds|
          && rounds[p.root.step].chain.step == 0
          && rounds[p.root.step].hash == c.hash(rounds[p.root.step].chain.root)
          && c.kdf(q.root.root, RoundInput(c, c.dh(q.x25519, c.dhPublic(p.x25519)), p.root.step, p.ss), "root chain")
             == (rounds[p.root.step].root, rounds[p.root.step].chain.root))
    && (KemTurn(even, Min(p.root.step, q.root.step)) ==> c.decapsulate(p.cp, q.kyber) == Some(p.ss))
  }

  ghost predicate PartyOk(c: Suite, rounds: seq<Round>, p: Party, q: Party, even: bool) {
    && StateOk(c, rounds, p.st, even)
    && SentOk(c, rounds, p, even)
    && MissingOk(c, rounds, p.st.missing, p.got, even, ReceivingStep(p.st, even), p.st.receiver)
    && GotOk(p.got, q.sent, ReceivingStep(p.st, even), p.st.receiver)
  }

  /** The invariant of two parties, p owning the steps of parity `even`. */
  ghost predicate PairOk(c: Suite, rounds: seq<Round>, p: Party, q: Party, even: bool) {
    && PartyOk(c, rounds, p, q, even) && PartyOk(c, rounds, q, p, !even)
    && Linked(c, rounds, p.st, q.st, even) && Linked(c, rounds, q.st, p.st, !even)
    && |rounds| == 1 + if p.st.root.step < q.st.root.step then q.st.root.step else p.st.root.step
  }

  ghost predicate Inv(c: Suite, w: World) {
    PairOk(c, w.rounds, w.alice, w.bob, true)
  }

  lemma {:induction false} InitOk(c: Suite, secret: Bytes, kyberA: Bytes, x25519A: Bytes, coinsB: Coins)
    requires c.Lawful()
    ensures Inv(c, Init(c, secret, kyberA, x25519A, coinsB))
  {
  }

  // ------------------------------------------------------------------- sends

  /** What was derived from the rounds so far stays true when a round is added. */
  lemma {:induction false} GenuineGrows(c: Suite, rounds: seq<Round>, r: Round, id: MessageId, key: Bytes)
    requires Genuine(c, rounds, id, key)
    ensures Genuine(c, rounds + [r], id, key)
  {
    assert (rounds + [r])[id.step] == rounds[id.step];
  }

  lemma {:induction false} PartyGrows(c: Suite, rounds: seq<Round>, r: Round, p: Party, q: Party, even: bool)
    requires PartyOk(c, rounds, p, q, even)
    ensures PartyOk(c, rounds + [r], p, q, even)
  {
    var rounds' := rounds + [r];
    assert forall i :: 0 <= i < |rounds| ==> rounds'[i] == rounds[i];
    forall i | 0 <= i < |p.sent| ensures Genuine(c, rounds', p.sent[i].header.id, p.sent[i].key) {
      GenuineGrows(c, rounds, r, p.sent[i].header.id, p.sent[i].key);
    }
    forall i | 0 <= i < |p.st.missing| && !Mine(even, p.st.missing[i].0.step)
      ensures Genuine(c, rounds', p.st.missing[i].0, p.st.missing[i].1)
    {
      GenuineGrows(c, rounds, r, p.st.missing[i].0, p.st.missing[i].1);
    }
  }

  /** Leaving the guarded state: the sender derives the next round, which the peer will be able
      to derive from the header. */
  lemma {:induction false} StartOk(c: Suite, rounds: seq<Round>, p: Party, q: Party, even: bool)
    requires c.Lawful() && PairOk(c, rounds, p, q, even)
    requires p.st.sender.step == U32_MAX && p.st.root.step + 1 < U32_MAX
    ensures PairOk(c, RoundsAfterSend(c, p, rounds), p.(st := StartSending(c, p.st)), q, even)
  {
    hide RootAfter, KeyAt, KemTurn, Genuine, Passed, MissingOk, GotOk;
    var t := StartSending(c, p.st);
    var r := Round(t.root.root, t.sender, t.senderHash);
    StartOfChain(c, rounds + [r], p.st.root.step + 1);
    PartyGrows(c, rounds, r, p, q, even);
    PartyGrows(c, rounds, r, q, p, !even);
    assert !Mine(even, p.st.root.step);
    assert ReceivingStep(t, even) == ReceivingStep(p.st, even);
    KemTurnAlternates(even, p.st.root.step);
  }

  lemma {:induction false} StartOfChain(c: Suite, rounds: seq<Round>, step: nat)
    requires step < |rounds|
    ensures OnChain(c, rounds, step, rounds[step].chain)
  {
  }

  /** Before a mixed round it is its owner's turn. */
  lemma {:induction false} KemTurnAlternates(even: bool, step: nat)
    ensures (step + 1) % KYBER_PERIOD == 0 ==> (KemTurn(even, step) <==> Mine(even, step + 1))
    ensures (step + 1) % KYBER_PERIOD == 0 ==> (KemTurn(even, step + 1) <==> !KemTurn(even, step))
    ensures (step + 1) % KYBER_PERIOD != 0 ==> (KemTurn(even, step + 1) <==> KemTurn(even, step))
  {
  }

  lemma {:induction false} SentGrows(c: Suite, rounds: seq<Round>, p: Party, even: bool)
    requires StateOk(c, rounds, p.st, even) && SentOk(c, rounds, p, even)
    requires Mine(even, p.st.root.step) && p.st.sender.step + 1 < U32_MAX
    ensures SentOk(c, rounds, SendParty(c, p), even)
  {
    var p' := SendParty(c, p);
    NextScOk(c, rounds, p.st.root.step, p.st.sender);
    assert HeaderOf(c, p'.st).(id := MessageId(0, 0)) == HeaderOf(c, p.st).(id := MessageId(0, 0));
  }

  lemma {:induction false} ActiveSendOk(c: Suite, rounds: seq<Round>, p: Party, q: Party, even: bool)
    requires c.Lawful() && PairOk(c, rounds, p, q, even)
    requires p.st.sender.step + 1 < U32_MAX
    ensures PairOk(c, rounds, SendParty(c, p), q, even)
  {
    var p' := SendParty(c, p);
    assert Mine(even, p.st.root.step);
    NextScOk(c, rounds, p.st.root.step, p.st.sender);
    assert p'.st == p.st.(sender := NextSc(c, p.st.sender).0);
    assert StateOk(c, rounds, p'.st, even);
    SentGrows(c, rounds, p, even);
    assert Linked(c, rounds, p'.st, q.st, even);
    assert Linked(c, rounds, q.st, p'.st, !even);
    assert GotOk(q.got, p'.sent, ReceivingStep(q.st, !even), q.st.receiver);
  }

  lemma {:induction false} SendOk(c: Suite, rounds: seq<Round>, p: Party, q: Party, even: bool)
    requires c.Lawful() && PairOk(c, rounds, p, q, even) && CanSend(p)
    ensures PairOk(c, RoundsAfterSend(c, p, rounds), SendParty(c, p), q, even)
  {
    if p.st.sender.step == U32_MAX {
      StartOk(c, rounds, p, q, even);
      ActiveSendOk(c, RoundsAfterSend(c, p, rounds), p.(st := StartSending(c, p.st)), q, even);
    } else {
      ActiveSendOk(c, rounds, p, q, even);
    }
  }

  // ---------------------------------------------------------------- receives

  lemma {:induction false} NextScOk(c: Suite, rounds: seq<Round>, step: nat, live: Chain)
    requires OnChain(c, rounds, step, live) && live.step < U32_MAX
    ensures OnChain(c, rounds, step, NextSc(c, live).0) && NextSc(c, live).0.step == live.step + 1
    ensures NextSc(c, live).1 == KeyAt(c, rounds[step].chain, live.step)
  {
  }

  /** Storing a skipped key: under an own step it is never looked up; under the receiving step it
      is the key of that id. */
  lemma {:induction false} PushOk(c: Suite, rounds: seq<Round>, missing: seq<(MessageId, Bytes)>, got: seq<Message>, peerSent: seq<Message>,
               even: bool, step: nat, live: Chain, under: nat)
    requires OnChain(c, rounds, step, live) && live.step < U32_MAX
    requires MissingOk(c, rounds, missing, got, even, step, live) && GotOk(got, peerSent, step, live)
    requires Mine(even, under) || (under == step && 2 <= step)
    ensures var (live', key) := NextSc(c, live);
            && MissingOk(c, rounds, Push(missing, (MessageId(under, live.step), key)), got, even, step, live')
            && GotOk(got, peerSent, step, live')
  {
    hide Mine, RootAfter, KeyAt, NextSc;
    NextScOk(c, rounds, step, live);
    var (live', key) := NextSc(c, live);
    var e := (MessageId(under, live.step), key);
    var kept := if |missing| >= MAX_KEPT_MISSING_MESSAGES then missing[1..] else missing;
    assert MissingOk(c, rounds, kept, got, even, step, live);
    assert !Mine(even, under) ==> Genuine(c, rounds, e.0, e.1);
    StoreOk(c, rounds, kept, got, peerSent, even, step, live, live', e);
    assert Push(missing, e) == kept + [e];
  }

  /** A key stored for the id the chain has just passed joins the others. */
  lemma {:induction false} StoreOk(
    c: Suite, rounds: seq<Round>, kept: seq<(MessageId, Bytes)>, got: seq<Message>, peerSent: seq<Message>,
    even: bool, step: nat, live: Chain, live': Chain, e: (MessageId, Bytes))
    requires MissingOk(c, rounds, kept, got, even, step, live) && |kept| < MAX_KEPT_MISSING_MESSAGES
    requires GotOk(got, peerSent, step, live) && live'.step == live.step + 1
    requires Mine(even, e.0.step) || (e.0 == MessageId(step, live.step) && Genuine(c, rounds, e.0, e.1))
    ensures MissingOk(c, rounds, kept + [e], got, even, step, live') && GotOk(got, peerSent, step, live')
  {
    hide Mine, Genuine;
    assert !Passed(MessageId(step, live.step), step, live);
    forall id | Passed(id, step, live) ensures Passed(id, step, live') {
    }
    hide Passed;
  }

  lemma {:induction false} SkipOk(c: Suite, rounds: seq<Round>, s: State, got: seq<Message>, peerSent: seq<Message>,
                                  even: bool, step: nat, latest: nat)
    requires OnChain(c, rounds, step, s.receiver) && s.receiver.step <= latest <= U32_MAX
    requires MissingOk(c, rounds, s.missing, got, even, step, s.receiver) && GotOk(got, peerSent, step, s.receiver)
    requires Mine(even, s.root.step) || (s.root.step == step && 2 <= step)
    ensures var t := Skip(c, s, latest);
            && t.receiver.step == latest && OnChain(c, rounds, step, t.receiver)
            && MissingOk(c, rounds, t.missing, got, even, step, t.receiver) && GotOk(got, peerSent, step, t.receiver)
    decreases latest - s.receiver.step
  {
    if s.receiver.step == latest {
    } else {
      var (receiver, key) := NextSc(c, s.receiver);
      PushOk(c, rounds, s.missing, got, peerSent, even, step, s.receiver, s.root.step);
      NextScOk(c, rounds, step, s.receiver);
      SkipOk(c, rounds, s.(receiver := receiver,
                           missing := Push(s.missing, (MessageId(s.root.step, s.receiver.step), key))),
             got, peerSent, even, step, latest);
    }
  }

  /** Taking the next key on the receiving chain yields the key of the message's id. */
  lemma {:induction false} TakeOk(c: Suite, rounds: seq<Round>, s: State, got: seq<Message>, peerSent: seq<Message>, even: bool, m: Message)
    requires !Mine(even, s.root.step) && 2 <= s.root.step && m.header.id.step == s.root.step
    requires OnChain(c, rounds, s.root.step, s.receiver) && s.receiver.step <= m.header.id.subStep < U32_MAX
    requires MissingOk(c, rounds, s.missing, got, even, s.root.step, s.receiver)
    requires GotOk(got, peerSent, s.root.step, s.receiver)
    requires m in peerSent && Genuine(c, rounds, m.header.id, m.key)
    ensures var (t, r) := Take(c, s, m.header.id.subStep);
            && r == Ok(m.key)
            && t == s.(receiver := t.receiver, missing := t.missing)
            && OnChain(c, rounds, s.root.step, t.receiver) && t.receiver.step == m.header.id.subStep + 1
            && MissingOk(c, rounds, t.missing, got + [m], even, s.root.step, t.receiver)
            && GotOk(got + [m], peerSent, s.root.step, t.receiver)
  {
    var n := m.header.id.subStep;
    SkipOk(c, rounds, s, got, peerSent, even, s.root.step, n);
    var u := Skip(c, s, n);
    NextScOk(c, rounds, s.root.step, u.receiver);
    var t := Take(c, s, n).0;
    assert t.missing == u.missing;
    forall i, g | 0 <= i < |t.missing| && !Mine(even, t.missing[i].0.step) && 0 <= g < |got + [m]|
      ensures (got + [m])[g].header.id != t.missing[i].0
    {
      assert Passed(t.missing[i].0, s.root.step, u.receiver);
    }
  }

  /** Taking a stored key out of the list leaves one that does not hold its id any more. */
  lemma {:induction false} WithoutOk(c: Suite, rounds: seq<Round>, missing: seq<(MessageId, Bytes)>, got: seq<Message>,
                                     even: bool, step: nat, live: Chain, i: nat)
    requires MissingOk(c, rounds, missing, got, even, step, live) && i < |missing| && !Mine(even, missing[i].0.step)
    ensures var rest := Without(missing, i);
            && MissingOk(c, rounds, rest, got, even, step, live)
            && forall j :: 0 <= j < |rest| ==> rest[j].0 != missing[i].0
  {
    hide Mine, Genuine, Passed;
    var rest := Without(missing, i);
    forall j | 0 <= j < |rest| ensures rest[j] == missing[if j < i then j else j + 1] {
    }
    forall j | 0 <= j < |rest| && !Mine(even, rest[j].0.step) ensures rest[j].0 != missing[i].0 {
      var k := if j < i then j else j + 1;
      assert missing[if k < i then k else i].0 != missing[if k < i then i else k].0;
    }
  }

  /** An id that is not in the list may be got. */
  lemma {:induction false} GotOneMore(c: Suite, rounds: seq<Round>, missing: seq<(MessageId, Bytes)>, got: seq<Message>,
                                      peerSent: seq<Message>, even: bool, step: nat, live: Chain, m: Message)
    requires MissingOk(c, rounds, missing, got, even, step, live) && GotOk(got, peerSent, step, live)
    requires m in peerSent && Passed(m.header.id, step, live)
    requires forall j :: 0 <= j < |missing| ==> missing[j].0 != m.header.id
    requires forall g :: 0 <= g < |got| ==> got[g].header.id != m.header.id
    ensures MissingOk(c, rounds, missing, got + [m], even, step, live) && GotOk(got + [m], peerSent, step, live)
  {
    hide Mine, Genuine, Passed;
  }

  /** Looking up a skipped key yields the key of the message's id, once. */
  lemma {:induction false} FindOk(c: Suite, rounds: seq<Round>, s: State, got: seq<Message>, peerSent: seq<Message>, even: bool, step: nat, m: Message)
    requires MissingOk(c, rounds, s.missing, got, even, step, s.receiver) && GotOk(got, peerSent, step, s.receiver)
    requires m in peerSent && Genuine(c, rounds, m.header.id, m.key) && !Mine(even, m.header.id.step)
    ensures var (t, r) := FindMissing(s, m.header.id);
            && t == s.(missing := t.missing)
            && r == (if IndexOf(s.missing, m.header.id).Some? then Ok(m.key) else Err(MissingMessage))
            && var got' := if r.Ok? then got + [m] else got;
               MissingOk(c, rounds, t.missing, got', even, step, t.receiver) && GotOk(got', peerSent, step, t.receiver)
  {
    match IndexOf(s.missing, m.header.id)
    case None =>
    case Some(i) =>
      assert Passed(m.header.id, step, s.receiver) && s.missing[i].1 == m.key;
      assert forall g :: 0 <= g < |got| ==> got[g].header.id != m.header.id;
      hide MissingOk, GotOk, Genuine, Mine, Passed, Without;
      WithoutOk(c, rounds, s.missing, got, even, step, s.receiver, i);
      GotOneMore(c, rounds, Without(s.missing, i), got, peerSent, even, step, s.receiver, m);
  }

  /** A header of the peer's next round lets the receiver derive exactly that round. */
  lemma {:induction false} NewRoundOk(c: Suite, rounds: seq<Round>, s: State, q: State, even: bool, h: Header, coins: Coins)
    requires c.Lawful() && 2 <= s.root.step && q.root.step == s.root.step + 1 < U32_MAX
    requires Linked(c, rounds, q, s, !even)
    requires h == HeaderOf(c, q).(id := h.id)
    ensures var r := NewRound(c, s, h, coins);
            && r.Ok?
            && r.value == s.(root := Chain(s.root.step + 1, rounds[s.root.step + 1].root),
                             receiver := rounds[s.root.step + 1].chain,
                             receiverHash := rounds[s.root.step + 1].hash,
                             prevSubCount := s.sender.step, x25519 := coins.x25519,
                             sender := Chain(U32_MAX, c.dh(coins.x25519, c.dhPublic(q.x25519))),
                             kyber := r.value.kyber, cp := r.value.cp, ss := r.value.ss)
            && (KemTurn(even, s.root.step + 1) ==>
                  (KemTurn(even, s.root.step) && r.value.cp == s.cp && r.value.ss == s.ss) ||
                  c.decapsulate(r.value.cp, q.kyber) == Some(r.value.ss))
            && (KemTurn(!even, s.root.step + 1) ==> r.value.kyber == s.kyber && KemTurn(!even, s.root.step))
  {
    KemTurnAlternates(even, s.root.step);
    KemTurnAlternates(!even, s.root.step);
    assert c.dh(s.x25519, c.dhPublic(q.x25519)) == c.dh(s.x25519, h.x25519);
  }

  /** Reading on the current chain touches nothing the peer depends on. */
  lemma {:induction false} ReceiverMoves(c: Suite, rounds: seq<Round>, p: Party, q: Party, even: bool, p': Party)
    requires PairOk(c, rounds, p, q, even)
    requires p'.st == p.st.(receiver := p'.st.receiver, missing := p'.st.missing) && p'.sent == p.sent
    requires OnChain(c, rounds, ReceivingStep(p.st, even), p'.st.receiver)
    requires p'.st.receiver.step <= SentCount(q.st, !even, ReceivingStep(p.st, even))
    requires MissingOk(c, rounds, p'.st.missing, p'.got, even, ReceivingStep(p.st, even), p'.st.receiver)
    requires GotOk(p'.got, q.sent, ReceivingStep(p.st, even), p'.st.receiver)
    ensures PairOk(c, rounds, p', q, even)
  {
    assert SentOk(c, rounds, p', even) by {
      assert HeaderOf(c, p'.st) == HeaderOf(c, p.st);
    }
    assert StateOk(c, rounds, p'.st, even);
    assert Linked(c, rounds, p'.st, q.st, even);
    assert Linked(c, rounds, q.st, p'.st, !even);
  }

  /** What the peer's log says about one of its messages. */
  lemma {:induction false} SentFacts(c: Suite, rounds: seq<Round>, q: Party, even: bool, m: Message)
    requires SentOk(c, rounds, q, even) && m in q.sent
    ensures Genuine(c, rounds, m.header.id, m.key) && IsHeader(m.header)
    ensures m.header.id.step <= q.st.root.step && Mine(even, m.header.id.step)
    ensures m.header.id.step == q.st.root.step ==>
              m.header.id.subStep < q.st.sender.step && m.header == HeaderOf(c, q.st).(id := m.header.id)
  {
  }

  /** A delivered header of the current or an older round. */
  lemma {:induction false} RecvOldOk(c: Suite, rounds: seq<Round>, p: Party, q: Party, even: bool, m: Message, coins: Coins)
    requires c.Lawful() && PairOk(c, rounds, p, q, even) && m in q.sent && m.header.id.step <= p.st.root.step
    ensures RecvOutcome(c, p, m, coins)
    ensures PairOk(c, rounds, RecvParty(c, p, m.header, coins), q, even)
  {
    SentFacts(c, rounds, q, !even, m);
    if m.header.id.step < p.st.root.step || m.header.id.subStep < p.st.receiver.step {
      FindOk(c, rounds, p.st, p.got, q.sent, even, ReceivingStep(p.st, even), m);
    } else {
      TakeOk(c, rounds, p.st, p.got, q.sent, even, m);
    }
    ReceiverMoves(c, rounds, p, q, even, RecvParty(c, p, m.header, coins));
  }

  /** When `recv` succeeds on a header the peer sent, and with which error it fails otherwise. */
  ghost predicate RecvOutcome(c: Suite, p: Party, m: Message, coins: Coins) {
    && IsHeader(m.header)
    && var r := RecvStep(c, p.st, m.header, coins).1;
       var id := m.header.id;
       if id.step > p.st.root.step || (id.step == p.st.root.step && id.subStep >= p.st.receiver.step)
          || exists i :: 0 <= i < |p.st.missing| && p.st.missing[i].0 == id
       then r == Ok(m.key)
       else r == Err(MissingMessage)
  }

  /** The receiver's state after entering the peer's round satisfies the invariant. */
  lemma {:induction false} EnterRoundOk(c: Suite, rounds: seq<Round>, p: Party, q: Party, even: bool, h: Header, coins: Coins)
    requires c.Lawful() && PairOk(c, rounds, p, q, even)
    requires q.st.root.step == p.st.root.step + 1 && h == HeaderOf(c, q.st).(id := h.id)
    ensures p.st.receiver.step <= h.prevSubCount <= U32_MAX
    ensures var r := NewRound(c, Skip(c, p.st, h.prevSubCount), h, coins);
            r.Ok? && r.value.root.step == q.st.root.step && r.value.receiver.step == 0 && PairOk(c, rounds, p.(st := r.value), q, even)
  {
    hide RootAfter, KeyAt, Skip, NewRound, KemTurn;
    var step := p.st.root.step;
    assert Mine(!even, step + 1);
    SkipOk(c, rounds, p.st, p.got, q.sent, even, step - 1, h.prevSubCount);
    var s := Skip(c, p.st, h.prevSubCount);
    NewRoundOk(c, rounds, s, q.st, even, h, coins);
    var u := NewRound(c, s, h, coins).value;
    StartOfChain(c, rounds, step + 1);
    assert MissingOk(c, rounds, u.missing, p.got, even, step + 1, u.receiver);
    assert GotOk(p.got, q.sent, step + 1, u.receiver);
    assert StateOk(c, rounds, u, even);
    assert SentOk(c, rounds, p.(st := u), even);
    assert Linked(c, rounds, u, q.st, even);
    assert Linked(c, rounds, q.st, u, !even);
  }

  /** A delivered header of the peer's next round: enter it, then read on its chain. */
  lemma {:induction false} RecvNewOk(c: Suite, rounds: seq<Round>, p: Party, q: Party, even: bool, m: Message, coins: Coins)
    requires c.Lawful() && PairOk(c, rounds, p, q, even) && m in q.sent && p.st.root.step < m.header.id.step
    ensures RecvOutcome(c, p, m, coins)
    ensures PairOk(c, rounds, RecvParty(c, p, m.header, coins), q, even)
  {
    var h := m.header;
    SentFacts(c, rounds, q, !even, m);
    EnterRoundOk(c, rounds, p, q, even, h, coins);
    var u := NewRound(c, Skip(c, p.st, h.prevSubCount), h, coins).value;
    RecvOldOk(c, rounds, p.(st := u), q, even, m, coins);
    assert RecvStep(c, p.st, h, coins) == Take(c, u, h.id.subStep) == RecvStep(c, u, h, coins);
  }

  lemma {:induction false} RecvOk(c: Suite, rounds: seq<Round>, p: Party, q: Party, even: bool, m: Message, coins: Coins)
    requires c.Lawful() && PairOk(c, rounds, p, q, even) && m in q.sent
    ensures RecvOutcome(c, p, m, coins)
    ensures PairOk(c, rounds, RecvParty(c, p, m.header, coins), q, even)
  {
    if m.header.id.step <= p.st.root.step {
      RecvOldOk(c, rounds, p, q, even, m, coins);
    } else {
      RecvNewOk(c, rounds, p, q, even, m, coins);
    }
  }

  // ---------------------------------------------------------------- theorems

  lemma {:induction false} NextKeepsInv(c: Suite, w: World, a: Action)
    requires c.Lawful() && Inv(c, w)
    ensures Inv(c, Next(c, w, a))
  {
    hide RootAfter, KeyAt;
    match a
    case SendBy(alice) =>
      if alice && CanSend(w.alice) {
        SendOk(c, w.rounds, w.alice, w.bob, true);
      } else if !alice && CanSend(w.bob) {
        SendOk(c, w.rounds, w.bob, w.alice, false);
      }
    case Deliver(toAlice, index, coins) =>
      if toAlice && index < |w.bob.sent| {
        RecvOk(c, w.rounds, w.alice, w.bob, true, w.bob.sent[index], coins);
      } else if !toAlice && index < |w.alice.sent| {
        RecvOk(c, w.rounds, w.bob, w.alice, false, w.alice.sent[index], coins);
      }
  }

  lemma {:induction false} RunKeepsInv(c: Suite, w: World, actions: seq<Action>)
    requires c.Lawful() && Inv(c, w)
    ensures Inv(c, Run(c, w, actions))
    decreases |actions|
  {
    if actions == [] {
    } else {
      RunKeepsInv(c, w, actions[..|actions| - 1]);
      NextKeepsInv(c, Run(c, w, actions[..|actions| - 1]), actions[|actions| - 1]);
    }
  }

  /** What a party got, against what its peer sent: every accepted header came back with the key
      its `send` returned, no id was accepted twice, and at most five skipped keys are held. */
  ghost predicate Safe(p: Party, q: Party) {
    && (forall m :: m in p.got ==> m in q.sent)
    && (forall i, j :: 0 <= i < j < |p.got| ==> p.got[i].header.id != p.got[j].header.id)
    && |p.st.missing| <= MAX_KEPT_MISSING_MESSAGES
  }

  /** Safety of every run, whatever is lost, repeated or reordered. */
  lemma {:induction false} EveryRunIsSafe(c: Suite, secret: Bytes, kyberA: Bytes, x25519A: Bytes, coinsB: Coins, actions: seq<Action>)
    requires c.Lawful()
    ensures var w := Run(c, Init(c, secret, kyberA, x25519A, coinsB), actions);
            Safe(w.alice, w.bob) && Safe(w.bob, w.alice)
  {
    hide Run, Init;
    InitOk(c, secret, kyberA, x25519A, coinsB);
    RunKeepsInv(c, Init(c, secret, kyberA, x25519A, coinsB), actions);
  }

  /** In every reachable state, a header the peer sent is accepted exactly when it is ahead of the
      receiver or its key was kept; the only other outcome is a missing message. */
  lemma {:induction false} EveryHeaderHasItsOutcome(c: Suite, secret: Bytes, kyberA: Bytes, x25519A: Bytes, coinsB: Coins,
                                 actions: seq<Action>, m: Message, coins: Coins)
    requires c.Lawful()
    ensures var w := Run(c, Init(c, secret, kyberA, x25519A, coinsB), actions);
            && (m in w.bob.sent ==> RecvOutcome(c, w.alice, m, coins))
            && (m in w.alice.sent ==> RecvOutcome(c, w.bob, m, coins))
  {
    InitOk(c, secret, kyberA, x25519A, coinsB);
    RunKeepsInv(c, Init(c, secret, kyberA, x25519A, coinsB), actions);
    var w := Run(c, Init(c, secret, kyberA, x25519A, coinsB), actions);
    if m in w.bob.sent {
      RecvOk(c, w.rounds, w.alice, w.bob, true, m, coins);
    }
    if m in w.alice.sent {
      RecvOk(c, w.rounds, w.bob, w.alice, false, m, coins);
    }
  }

  /** Whenever both parties are at the same root step, each one's sending hash is the other's
      receiving hash, so they look for each other's messages in the same place. */
  lemma {:induction false} HashesMatch(c: Suite, secret: Bytes, kyberA: Bytes, x25519A: Bytes, coinsB: Coins, actions: seq<Action>)
    requires c.Lawful()
    ensures var w := Run(c, Init(c, secret, kyberA, x25519A, coinsB), actions);
            w.alice.st.root.step == w.bob.st.root.step ==>
              w.alice.st.senderHash == w.bob.st.receiverHash && w.bob.st.senderHash == w.alice.st.receiverHash
  {
    InitOk(c, secret, kyberA, x25519A, coinsB);
    RunKeepsInv(c, Init(c, secret, kyberA, x25519A, coinsB), actions);
    var w := Run(c, Init(c, secret, kyberA, x25519A, coinsB), actions);
    HashesOk(c, w.rounds, w.alice.st, w.bob.st);
  }

  lemma {:induction false} HashesOk(c: Suite, rounds: seq<Round>, a: State, b: State)
    requires StateOk(c, rounds, a, true) && StateOk(c, rounds, b, false)
    ensures a.root.step == b.root.step ==> a.senderHash == b.receiverHash && b.senderHash == a.receiverHash
  {
  }

  // ------------------------------------------------------ the parties' secrets

  /** What a party puts into Diffie-Hellman and encapsulation. */
  datatype Secrets = Secrets(x25519: Bytes, kyber: Bytes, cp: Bytes, ss: Bytes)

  function SecretsIn(s: State): Secrets { Secrets(s.x25519, s.kyber, s.cp, s.ss) }

  /** The secrets after a header has opened a round: the Diffie-Hellman secret is the one drawn for it; the
      others are renewed when the header carries a key to encapsulate to. */
  function Renewed(c: Suite, held: Secrets, h: Header, coins: Coins): Secrets {
    match h.kyber
    case None => held.(x25519 := coins.x25519)
    case Some(k) =>
      var (cp, ss) := c.encapsulate(k.public, coins.encapsulation);
      Secrets(coins.x25519, coins.kyber, cp, ss)
  }

  /** The secrets a party holds by the history of a run: those it started with, renewed by every delivered header
      that opened a round. */
  ghost function LastSecrets(c: Suite, secret: Bytes, kyberA: Bytes, x25519A: Bytes, coinsB: Coins, actions: seq<Action>, alice: bool): Secrets
    decreases |actions|
  {
    if actions == [] then
      if alice then Secrets(x25519A, kyberA, c.zero, c.zero)
      else
        var (cp, ss) := c.encapsulate(c.kemPublic(kyberA), coinsB.encapsulation);
        Secrets(coinsB.x25519, coinsB.kyber, cp, ss)
    else
      var before, a := actions[..|actions| - 1], actions[|actions| - 1];
      var held := LastSecrets(c, secret, kyberA, x25519A, coinsB, before, alice);
      var w := Run(c, Init(c, secret, kyberA, x25519A, coinsB), before);
      if Opens(w, a, alice) then Renewed(c, held, Delivered(w, a), a.coins) else held
  }

  /** The action delivers to the party a header of a round it has not entered. */
  ghost predicate Opens(w: World, a: Action, alice: bool) {
    && a.Deliver? && a.toAlice == alice
    && var p, q := if alice then w.alice else w.bob, if alice then w.bob else w.alice;
       a.index < |q.sent| && p.st.root.step < q.sent[a.index].header.id.step
  }

  ghost function Delivered(w: World, a: Action): Header
    requires a.Deliver? && Opens(w, a, a.toAlice)
  {
    if a.toAlice then w.bob.sent[a.index].header else w.alice.sent[a.index].header
  }

  /** A header of the peer's next round renews the secrets; any other leaves them alone. */
  lemma {:induction false} RecvRenews(c: Suite, rounds: seq<Round>, p: Party, q: Party, even: bool, m: Message, coins: Coins)
    requires c.Lawful() && PairOk(c, rounds, p, q, even) && m in q.sent
    ensures IsHeader(m.header)
    ensures SecretsIn(RecvParty(c, p, m.header, coins).st)
         == if p.st.root.step < m.header.id.step then Renewed(c, SecretsIn(p.st), m.header, coins) else SecretsIn(p.st)
  {
    SentFacts(c, rounds, q, !even, m);
    var h := m.header;
    if p.st.root.step < h.id.step {
      EnterRoundOk(c, rounds, p, q, even, h, coins);
      hide PairOk, Skip;
      RecvRoundLaw(c, p.st, h, coins);
    }
  }

  lemma {:induction false} SendKeepsSecrets(c: Suite, p: Party)
    ensures SecretsIn(SendParty(c, p).st) == SecretsIn(p.st)
  {
    SendLaw(c, p.st);
  }

  /** One step of either party, seen from one of them. */
  lemma {:induction false} NextRenews(c: Suite, w: World, a: Action, alice: bool)
    requires c.Lawful() && Inv(c, w)
    ensures var p, t := if alice then w.alice else w.bob, if alice then Next(c, w, a).alice else Next(c, w, a).bob;
            SecretsIn(t.st) == if Opens(w, a, alice) then Renewed(c, SecretsIn(p.st), Delivered(w, a), a.coins) else SecretsIn(p.st)
  {
    PairsOk(c, w);
    hide PairOk, RecvParty, SendParty, Renewed, SecretsIn;
    match a
    case SendBy(_) =>
      SendKeepsSecrets(c, w.alice);
      SendKeepsSecrets(c, w.bob);
    case Deliver(toAlice, index, coins) =>
      if toAlice && index < |w.bob.sent| {
        RecvRenews(c, w.rounds, w.alice, w.bob, true, w.bob.sent[index], coins);
      } else if !toAlice && index < |w.alice.sent| {
        RecvRenews(c, w.rounds, w.bob, w.alice, false, w.alice.sent[index], coins);
      }
  }

  lemma {:induction false} PairsOk(c: Suite, w: World)
    requires Inv(c, w)
    ensures PairOk(c, w.rounds, w.alice, w.bob, true) && PairOk(c, w.rounds, w.bob, w.alice, false)
  {
    hide PartyOk, Linked;
  }

  /** In every run, each party's Diffie-Hellman secret, key-encapsulation seed, ciphertext and encapsulated
      secret are the ones that the last round it entered, and the last such round opened with a key to encapsulate to, put in
      place: the draws for that delivery, and what encapsulation yields for the header's key. */
  lemma {:induction false} EveryRoundRenews(c: Suite, secret: Bytes, kyberA: Bytes, x25519A: Bytes, coinsB: Coins, actions: seq<Action>, alice: bool)
    requires c.Lawful()
    ensures var w := Run(c, Init(c, secret, kyberA, x25519A, coinsB), actions);
            var p := (if alice then w.alice else w.bob).st;
            Secrets(p.x25519, p.kyber, p.cp, p.ss) == LastSecrets(c, secret, kyberA, x25519A, coinsB, actions, alice)
    decreases |actions|
  {
    var w0 := Init(c, secret, kyberA, x25519A, coinsB);
    if actions == [] {
    } else {
      hide Init, Next, Inv, Opens, Delivered, Renewed;
      var before := actions[..|actions| - 1];
      EveryRoundRenews(c, secret, kyberA, x25519A, coinsB, before, alice);
      InitOk(c, secret, kyberA, x25519A, coinsB);
      RunKeepsInv(c, w0, before);
      NextRenews(c, Run(c, w0, before), actions[|actions| - 1], alice);
    }
  }

  /** In every run, a delivery that opens a round puts that delivery's draws in place, and what encapsulation yields for the
      key in the header; without a key in it, the key-encapsulation secrets stay. */
  lemma {:induction false} OpenedRoundIsFresh(c: Suite, secret: Bytes, kyberA: Bytes, x25519A: Bytes, coinsB: Coins,
                                              actions: seq<Action>, toAlice: bool, index: nat, coins: Coins)
    requires c.Lawful()
    ensures var w0 := Init(c, secret, kyberA, x25519A, coinsB);
            var w, v := Run(c, w0, actions), Run(c, w0, actions + [Deliver(toAlice, index, coins)]);
            var p, q := if toAlice then w.alice else w.bob, if toAlice then w.bob else w.alice;
            var t := if toAlice then v.alice else v.bob;
            index < |q.sent| && p.st.root.step < q.sent[index].header.id.step ==>
              var kyber := q.sent[index].header.kyber;
              && t.st.root.step == q.sent[index].header.id.step && t.st.x25519 == coins.x25519
              && (kyber.Some? ==> t.st.kyber == coins.kyber
                                  && (t.st.cp, t.st.ss) == c.encapsulate(kyber.value.public, coins.encapsulation))
              && (kyber.None? ==> t.st.kyber == p.st.kyber && t.st.cp == p.st.cp && t.st.ss == p.st.ss)
  {
    var w0 := Init(c, secret, kyberA, x25519A, coinsB);
    var more := actions + [Deliver(toAlice, index, coins)];
    assert more[..|more| - 1] == actions;
    InitOk(c, secret, kyberA, x25519A, coinsB);
    hide Init, Inv;
    RunKeepsInv(c, w0, actions);
    var w := Run(c, w0, actions);
    PairsOk(c, w);
    NextRenews(c, w, Deliver(toAlice, index, coins), toAlice);
    var p, q := if toAlice then w.alice else w.bob, if toAlice then w.bob else w.alice;
    if index < |q.sent| && p.st.root.step < q.sent[index].header.id.step {
      EntersRound(c, w.rounds, p, q, toAlice, q.sent[index], coins);
    }
  }

  lemma {:induction false} EntersRound(c: Suite, rounds: seq<Round>, p: Party, q: Party, even: bool, m: Message, coins: Coins)
    requires c.Lawful() && PairOk(c, rounds, p, q, even) && m in q.sent && p.st.root.step < m.header.id.step
    ensures IsHeader(m.header) && RecvParty(c, p, m.header, coins).st.root.step == m.header.id.step
  {
    SentFacts(c, rounds, q, !even, m);
    EnterRoundOk(c, rounds, p, q, even, m.header, coins);
  }

  /** In every run, a sent header carries the public key of the sender's present Diffie-Hellman secret, and in every 35th
      round the public key of its present key-encapsulation seed and its ciphertext. */
  lemma {:induction false} HeaderPublishesSecrets(c: Suite, secret: Bytes, kyberA: Bytes, x25519A: Bytes, coinsB: Coins, actions: seq<Action>, alice: bool)
    requires c.Lawful()
    ensures var w0 := Init(c, secret, kyberA, x25519A, coinsB);
            var w, v := Run(c, w0, actions), Run(c, w0, actions + [SendBy(alice)]);
            var p, t := if alice then w.alice else w.bob, if alice then v.alice else v.bob;
            var held := LastSecrets(c, secret, kyberA, x25519A, coinsB, actions, alice);
            CanSend(p) ==>
              && |t.sent| == |p.sent| + 1
              && var h := t.sent[|p.sent|].header;
                 && h.x25519 == c.dhPublic(held.x25519)
                 && h.kyber == if h.id.step % 35 == 0 then Some(Kyber(c.kemPublic(held.kyber), held.cp)) else None
  {
    var w0 := Init(c, secret, kyberA, x25519A, coinsB);
    var more := actions + [SendBy(alice)];
    assert more[..|more| - 1] == actions;
    EveryRoundRenews(c, secret, kyberA, x25519A, coinsB, actions, alice);
    hide Init, LastSecrets;
    var w := Run(c, w0, actions);
    SendLaw(c, (if alice then w.alice else w.bob).st);
  }

  /** The key for `id` can no longer be obtained: its round is over and it was not kept. */
  ghost predicate Lost(s: State, id: MessageId) {
    id.step < s.root.step && forall i :: 0 <= i < |s.missing| ==> s.missing[i].0 != id
  }

  lemma {:induction false} SkipKeepsLost(c: Suite, s: State, latest: nat, id: MessageId)
    requires Lost(s, id) && latest <= U32_MAX
    ensures Lost(Skip(c, s, latest), id)
    decreases latest - s.receiver.step
  {
    if latest <= s.receiver.step {
    } else {
      var (receiver, key) := NextSc(c, s.receiver);
      SkipKeepsLost(c, s.(receiver := receiver,
                          missing := Push(s.missing, (MessageId(s.root.step, s.receiver.step), key))), latest, id);
    }
  }

  /** Whatever headers arrive and whatever is sent, a lost key stays lost. */
  lemma {:induction false} LostStaysLost(c: Suite, s: State, h: Header, coins: Coins, id: MessageId)
    requires Lost(s, id) && IsHeader(h) && s.root.step < U32_MAX
    ensures Lost(RecvStep(c, s, h, coins).0, id) && Lost(SendStep(c, s).0, id)
    ensures h.id == id ==> RecvStep(c, s, h, coins).1 == Err(MissingMessage)
  {
    hide RootAfter, KeyAt;
    if h.id.step == s.root.step {
      SkipKeepsLost(c, s, h.id.subStep, id);
    } else if h.id.step > s.root.step && h.prevSubCount >= s.receiver.step {
      SkipKeepsLost(c, s, h.prevSubCount, id);
      var r := NewRound(c, Skip(c, s, h.prevSubCount), h, coins);
      if r.Ok? {
        SkipKeepsLost(c, r.value, h.id.subStep, id);
      }
    }
  }

  /** A party that has answered has lost whatever it had not yet read of its peer's chain, and the
      header of the peer's next round brings none of it back, although `recv` derives those keys. */
  lemma {:induction false} UnreadIsLost(c: Suite, rounds: seq<Round>, p: Party, q: Party, even: bool, k: nat)
    requires PairOk(c, rounds, p, q, even) && Mine(even, p.st.root.step) && p.st.receiver.step <= k
    ensures Lost(p.st, MessageId(ReceivingStep(p.st, even), k))
  {
    var step := ReceivingStep(p.st, even);
    var id := MessageId(step, k);
    assert !Mine(even, step) && !Passed(id, step, p.st.receiver);
    assert MissingOk(c, rounds, p.st.missing, p.got, even, step, p.st.receiver) by {
      hide MissingOk, Linked, SentOk, StateOk, GotOk;
    }
    hide Mine, Passed, PairOk, Genuine;
  }

  lemma {:induction false} NextRoundMeansAnswered(c: Suite, rounds: seq<Round>, p: Party, q: Party, even: bool, m: Message)
    requires PairOk(c, rounds, p, q, even) && m in q.sent && p.st.root.step < m.header.id.step
    ensures Mine(even, p.st.root.step) && IsHeader(m.header) && p.st.root.step < U32_MAX
  {
    SentFacts(c, rounds, q, !even, m);
  }

  /** After a header of the peer's next round, every key it made the receiver skip on the previous
      chain is lost: it is stored under the receiver's own step. */
  ghost predicate SkippedAreLost(c: Suite, p: Party, q: Party, even: bool) {
    forall m, coins, k: nat :: m in q.sent && IsHeader(m.header) && 1 <= p.st.root.step < m.header.id.step && p.st.receiver.step <= k < m.header.prevSubCount ==>
      Lost(RecvStep(c, p.st, m.header, coins).0, MessageId(ReceivingStep(p.st, even), k))
  }

  lemma {:induction false} RoundChangeLoses(c: Suite, rounds: seq<Round>, p: Party, q: Party, even: bool)
    requires PairOk(c, rounds, p, q, even)
    ensures SkippedAreLost(c, p, q, even)
  {
    hide PairOk, RecvStep, Lost, Mine;
    forall m, coins, k: nat |
      m in q.sent && IsHeader(m.header) && 1 <= p.st.root.step < m.header.id.step && p.st.receiver.step <= k < m.header.prevSubCount
      ensures Lost(RecvStep(c, p.st, m.header, coins).0, MessageId(ReceivingStep(p.st, even), k))
    {
      NextRoundMeansAnswered(c, rounds, p, q, even, m);
      UnreadIsLost(c, rounds, p, q, even, k);
      LostStaysLost(c, p.st, m.header, coins, MessageId(ReceivingStep(p.st, even), k));
    }
  }

  /** In every run: the keys skipped by a round change are lost. */
  lemma {:induction false} SkippedKeysAreLost(c: Suite, secret: Bytes, kyberA: Bytes, x25519A: Bytes, coinsB: Coins, actions: seq<Action>)
    requires c.Lawful()
    ensures var w := Run(c, Init(c, secret, kyberA, x25519A, coinsB), actions);
            SkippedAreLost(c, w.alice, w.bob, true) && SkippedAreLost(c, w.bob, w.alice, false)
  {
    hide Run, Init, PartyOk, Linked, SkippedAreLost;
    InitOk(c, secret, kyberA, x25519A, coinsB);
    RunKeepsInv(c, Init(c, secret, kyberA, x25519A, coinsB), actions);
    var w := Run(c, Init(c, secret, kyberA, x25519A, coinsB), actions);
    RoundChangeLoses(c, w.rounds, w.alice, w.bob, true);
    RoundChangeLoses(c, w.rounds, w.bob, w.alice, false);
  }

  // ---------------------------------------------------- a run that loses a key

  /** Alice sends twice, Bob reads only her first message and answers, Alice reads the answer and sends
      in a new round, which Bob reads. */
  function SkippingActions(coins: Coins): seq<Action> {
    [SendBy(true), SendBy(true), Deliver(false, 0, coins), SendBy(false), Deliver(true, 0, coins), SendBy(true), Deliver(false, 2, coins)]
  }

  /** Where a party stands, keys aside. */
  ghost predicate At(p: Party, root: nat, sender: nat, receiver: nat, prev: nat, missing: seq<MessageId>, sent: seq<Header>) {
    && p.st.root.step == root && p.st.sender.step == sender && p.st.receiver.step == receiver && p.st.prevSubCount == prev
    && |p.st.missing| == |missing| && (forall i :: 0 <= i < |missing| ==> p.st.missing[i].0 == missing[i])
    && |p.sent| == |sent| && (forall i :: 0 <= i < |sent| ==> p.sent[i].header == sent[i])
  }

  ghost predicate Plain(h: Header, step: nat, subStep: nat, prev: nat) {
    h.id == MessageId(step, subStep) && h.prevSubCount == prev && h.kyber == None && IsHeader(h)
  }

  lemma {:induction false} SendAt(c: Suite, p: Party, root: nat, sender: nat, receiver: nat, prev: nat, missing: seq<MessageId>, sent: seq<Header>)
    requires At(p, root, sender, receiver, prev, missing, sent) && root < 34 && (sender < 100 || sender == U32_MAX) && prev < 100
    ensures CanSend(p)
    ensures var q, h := SendParty(c, p), SendStep(c, p.st).1;
            var step, n := if sender == U32_MAX then root + 1 else root, if sender == U32_MAX then 0 else sender;
            At(q, step, n + 1, receiver, prev, missing, sent + [h]) && (0 < step < KYBER_PERIOD ==> Plain(h, step, n, prev))
  {
  }

  lemma {:induction false} SkipAt(c: Suite, s: State, latest: nat)
    requires s.receiver.step <= latest <= s.receiver.step + 1 <= 100 && |s.missing| == 0
    ensures var t := Skip(c, s, latest);
            && t.receiver.step == latest && |t.missing| == latest - s.receiver.step
            && forall i :: 0 <= i < |t.missing| ==> t.missing[i].0 == MessageId(s.root.step, s.receiver.step)
  {
    if s.receiver.step == latest {
    } else {
      var (receiver, key) := NextSc(c, s.receiver);
      var t := s.(receiver := receiver, missing := Push(s.missing, (MessageId(s.root.step, s.receiver.step), key)));
      assert Skip(c, t, latest) == t;
    }
  }

  /** Reading on the current chain, with nothing skipped. */
  lemma {:induction false} ReadAt(c: Suite, p: Party, root: nat, receiver: nat, prev: nat, sent: seq<Header>, h: Header, coins: Coins)
    requires At(p, root, U32_MAX, receiver, prev, [], sent) && receiver < 100 && Plain(h, root, receiver, 0)
    ensures At(RecvParty(c, p, h, coins), root, U32_MAX, receiver + 1, prev, [], sent)
  {
    assert Skip(c, p.st, receiver) == p.st;
  }

  /** Entering the next round, with at most one key skipped. */
  lemma {:induction false} EnterAt(c: Suite, p: Party, root: nat, sender: nat, receiver: nat, prev: nat, sent: seq<Header>, h: Header, upTo: nat, coins: Coins)
    requires At(p, root, sender, receiver, prev, [], sent) && root < 100
    requires receiver <= upTo <= receiver + 1 <= 100 && Plain(h, root + 1, 0, upTo)
    ensures At(RecvParty(c, p, h, coins), root + 1, U32_MAX, 1, sender,
               if receiver == upTo then [] else [MessageId(root, receiver)], sent)
  {
    SkipAt(c, p.st, h.prevSubCount);
    var t := Skip(c, p.st, h.prevSubCount);
    var u := NewRound(c, t, h, coins).value;
    assert u.receiver.step == 0 && Skip(c, u, 0) == u;
  }

  lemma {:induction false} InitAt(c: Suite, secret: Bytes, kyberA: Bytes, x25519A: Bytes, coinsB: Coins)
    ensures var w := Init(c, secret, kyberA, x25519A, coinsB);
            At(w.alice, 2, 1, 0, 0, [], []) && At(w.bob, 2, U32_MAX, 1, 0, [], [])
  {
  }

  lemma {:induction false} SentAt(p: Party, i: nat, sent: seq<Header>)
    requires exists root, sender, receiver, prev, missing :: At(p, root, sender, receiver, prev, missing, sent)
    requires i < |sent|
    ensures |p.sent| == |sent| && p.sent[i].header == sent[i]
  {
  }

  lemma {:induction false} SendNext(c: Suite, w: World, alice: bool)
    requires CanSend(if alice then w.alice else w.bob)
    ensures var v := Next(c, w, SendBy(alice));
            && v.alice == (if alice then SendParty(c, w.alice) else w.alice)
            && v.bob == (if alice then w.bob else SendParty(c, w.bob))
  {
  }

  lemma {:induction false} DeliverNext(c: Suite, w: World, toAlice: bool, index: nat, coins: Coins)
    requires var q := if toAlice then w.bob else w.alice; index < |q.sent| && IsHeader(q.sent[index].header)
    ensures var v := Next(c, w, Deliver(toAlice, index, coins));
            && v.alice == (if toAlice then RecvParty(c, w.alice, w.bob.sent[index].header, coins) else w.alice)
            && v.bob == (if toAlice then w.bob else RecvParty(c, w.bob, w.alice.sent[index].header, coins))
  {
  }

  lemma {:induction false} RunSeven(c: Suite, w: World, actions: seq<Action>)
    requires |actions| == 7
    ensures Run(c, w, actions) ==
      Next(c, Next(c, Next(c, Next(c, Next(c, Next(c, Next(c, w, actions[0]), actions[1]), actions[2]), actions[3]), actions[4]), actions[5]), actions[6])
  {
    hide Next;
    assert actions[..6][..5] == actions[..5] && actions[..5][..4] == actions[..4] && actions[..4][..3] == actions[..3];
    assert actions[..3][..2] == actions[..2] && actions[..2][..1] == actions[..1] && actions[..1][..0] == [];
    assert Run(c, w, actions[..1]) == Next(c, Run(c, w, []), actions[0]);
    assert Run(c, w, actions[..2]) == Next(c, Run(c, w, actions[..1]), actions[1]);
    assert Run(c, w, actions[..3]) == Next(c, Run(c, w, actions[..2]), actions[2]);
    assert Run(c, w, actions[..4]) == Next(c, Run(c, w, actions[..3]), actions[3]);
    assert Run(c, w, actions[..5]) == Next(c, Run(c, w, actions[..4]), actions[4]);
    assert Run(c, w, actions[..6]) == Next(c, Run(c, w, actions[..5]), actions[5]);
  }

  lemma {:induction false} TooLate(c: Suite, p: Party, sent: seq<Header>, h: Header, coins: Coins)
    requires At(p, 4, U32_MAX, 1, 1, [MessageId(3, 2)], sent) && Plain(h, 2, 2, 0)
    ensures IsHeader(h) && |p.st.missing| == 1 && p.st.missing[0].0 == MessageId(3, 2)
    ensures RecvStep(c, p.st, h, coins).1 == Err(MissingMessage)
  {
  }

  /** In that run Bob derives the key of the second message, stores it under his own step, and cannot
      read the message when it arrives after all. */
  lemma {:induction false} SkippingRun(c: Suite, secret: Bytes, kyberA: Bytes, x25519A: Bytes, coinsB: Coins, coins: Coins)
    ensures var w := Run(c, Init(c, secret, kyberA, x25519A, coinsB), SkippingActions(coins));
            && |w.alice.sent| == 3 && w.alice.sent[1].header.id == MessageId(2, 2) && IsHeader(w.alice.sent[1].header)
            && |w.bob.st.missing| == 1 && w.bob.st.missing[0].0 == MessageId(3, 2)
            && RecvStep(c, w.bob.st, w.alice.sent[1].header, coins).1 == Err(MissingMessage)
  {
    var w0 := Init(c, secret, kyberA, x25519A, coinsB);
    InitAt(c, secret, kyberA, x25519A, coinsB);
    hide Init, At, Plain, SendParty, RecvParty, SendStep, RecvStep, CanSend, Next, Run, IsHeader;
    var w1 := Next(c, w0, SendBy(true));
    var w2 := Next(c, w1, SendBy(true));
    var w3 := Next(c, w2, Deliver(false, 0, coins));
    var w4 := Next(c, w3, SendBy(false));
    var w5 := Next(c, w4, Deliver(true, 0, coins));
    var w6 := Next(c, w5, SendBy(true));
    var w7 := Next(c, w6, Deliver(false, 2, coins));
    RunSeven(c, w0, SkippingActions(coins));
    var h1, h2 := SendStep(c, w0.alice.st).1, SendStep(c, w1.alice.st).1;
    SendAt(c, w0.alice, 2, 1, 0, 0, [], []);
    SendNext(c, w0, true);
    assert [] + [h1] == [h1];
    SendAt(c, w1.alice, 2, 2, 0, 0, [], [h1]);
    SendNext(c, w1, true);
    assert [h1] + [h2] == [h1, h2];
    SentAt(w2.alice, 0, [h1, h2]);
    DeliverNext(c, w2, false, 0, coins);
    ReadAt(c, w2.bob, 2, 1, 0, [], h1, coins);
    var h3 := SendStep(c, w3.bob.st).1;
    SendAt(c, w3.bob, 2, U32_MAX, 2, 0, [], []);
    SendNext(c, w3, false);
    assert [] + [h3] == [h3];
    SentAt(w4.bob, 0, [h3]);
    DeliverNext(c, w4, true, 0, coins);
    EnterAt(c, w4.alice, 2, 3, 0, 0, [h1, h2], h3, 0, coins);
    var h4 := SendStep(c, w5.alice.st).1;
    SendAt(c, w5.alice, 3, U32_MAX, 1, 3, [], [h1, h2]);
    SendNext(c, w5, true);
    assert [h1, h2] + [h4] == [h1, h2, h4];
    SentAt(w6.alice, 2, [h1, h2, h4]);
    DeliverNext(c, w6, false, 2, coins);
    EnterAt(c, w6.bob, 3, 1, 2, 0, [h3], h4, 3, coins);
    SentAt(w7.alice, 1, [h1, h2, h4]);
    TooLate(c, w7.bob, [h3], h2, coins);
  }

  /** The bound on messages per chain is needed: the send that moves the counter to 2^32 - 1
      leaves the sender looking guarded, and the next send starts a round of its own accord. */
  lemma {:induction false} CounterRunsIntoGuard(c: Suite, s: State)
    requires s.sender.step == U32_MAX - 1
    ensures var t := SendStep(c, s).0;
            t.sender.step == U32_MAX && SendStep(c, t).1.id == MessageId(Increment(s.root.step), 0)
  {
  }
}
