/** The double ratchet of the chat client: two parties share a root chain, and each new
    round derives a sending chain from it with a Diffie-Hellman value that, every 35th
    round, is mixed with a key-encapsulation secret.

    The primitives are parameters: any suite of functions in which Diffie-Hellman commutes
    and decapsulation inverts encapsulation. */
module DoubleRatchet {
  import opened Wrappers

  const MAX_KEPT_MISSING_MESSAGES := 5
  const KYBER_PERIOD := 35
  const U32_MAX := 0xFFFF_FFFF

  type Bytes = seq<bv8>

  datatype RecvError = MissingMessage | Decapsulation | InvalidState

  datatype Suite = Suite(
    kdf: (Bytes, Bytes, string) -> (Bytes, Bytes),
    hash: Bytes -> Bytes,
    xor: (Bytes, Bytes) -> Bytes,
    dhPublic: Bytes -> Bytes,
    dh: (Bytes, Bytes) -> Bytes,
    kemPublic: Bytes -> Bytes,
    encapsulate: (Bytes, Bytes) -> (Bytes, Bytes),
    decapsulate: (Bytes, Bytes) -> Option<Bytes>,
    zero: Bytes)
  {
    /** Diffie-Hellman commutes, and decapsulation inverts encapsulation. */
    ghost predicate Lawful() {
      && (forall a, b :: dh(a, dhPublic(b)) == dh(b, dhPublic(a)))
      && (forall seed, coins :: decapsulate(encapsulate(kemPublic(seed), coins).0, seed)
                                == Some(encapsulate(kemPublic(seed), coins).1))
    }
  }

  datatype MessageId = MessageId(step: nat, subStep: nat)

  datatype Kyber = Kyber(public: Bytes, cp: Bytes)

  datatype Header = Header(id: MessageId, prevSubCount: nat, kyber: Option<Kyber>, x25519: Bytes)

  /** What `recv` draws from the random generator. */
  datatype Coins = Coins(x25519: Bytes, kyber: Bytes, encapsulation: Bytes)

  // ------------------------------------------------------------------ chains

  datatype Chain = Chain(step: nat, root: Bytes)

  /** `step += 1` on a 32-bit counter. */
  function Increment(step: nat): nat { (step + 1) % 0x1_0000_0000 }

  function NextSc(c: Suite, chain: Chain): (Chain, Bytes) {
    var (root, key) := c.kdf(chain.root, c.zero, "sub chain");
    (Chain(Increment(chain.step), root), key)
  }

  function NextRk(c: Suite, chain: Chain, input: Bytes): (Chain, Bytes) {
    var (root, key) := c.kdf(chain.root, input, "root chain");
    (Chain(Increment(chain.step), root), key)
  }

  // ------------------------------------------------------------------- state

  datatype State = State(
    root: Chain,
    sender: Chain,
    receiverHash: Bytes,
    receiver: Chain,
    senderHash: Bytes,
    prevSubCount: nat,
    kyber: Bytes,
    cp: Bytes,
    ss: Bytes,
    x25519: Bytes,
    missing: seq<(MessageId, Bytes)>)

  /** The party that starts the conversation. */
  function InitSender(c: Suite, secret: Bytes, kyber: Bytes, x25519: Bytes): State {
    var (root1, _) := NextSc(c, Chain(0, secret));
    var (root2, seed) := NextSc(c, root1);
    State(root2, Chain(1, seed), c.hash(secret), Chain(0, c.zero), c.hash(seed), 0,
          kyber, c.zero, c.zero, x25519, [])
  }

  /** The party that answers, given the starter's public keys. */
  function InitRecipient(c: Suite, secret: Bytes, initDh: Bytes, initKem: Bytes, coins: Coins): State {
    var (root1, _) := NextSc(c, Chain(0, secret));
    var (root2, seed) := NextSc(c, root1);
    var (cp, ss) := c.encapsulate(initKem, coins.encapsulation);
    State(root2, Chain(U32_MAX, c.dh(coins.x25519, initDh)), c.hash(seed), Chain(1, seed), c.hash(secret), 0,
          coins.kyber, cp, ss, coins.x25519, [])
  }

  /** Appends to the bounded list, dropping the oldest entry when it is full. */
  function Push(missing: seq<(MessageId, Bytes)>, e: (MessageId, Bytes)): seq<(MessageId, Bytes)> {
    if |missing| >= MAX_KEPT_MISSING_MESSAGES then missing[1..] + [e] else missing + [e]
  }

  /** Derives and stores the keys of the receiving chain up to `latest`. */
  function Skip(c: Suite, s: State, latest: nat): (r: State)
    requires latest <= U32_MAX
    ensures r == s.(receiver := r.receiver, missing := r.missing)
    decreases latest - s.receiver.step
  {
    if latest <= s.receiver.step then s
    else
      var (receiver, key) := NextSc(c, s.receiver);
      Skip(c, s.(receiver := receiver,
                 missing := Push(s.missing, (MessageId(s.root.step, s.receiver.step), key))), latest)
  }

  lemma {:induction false} PushIs(missing: seq<(MessageId, Bytes)>, e: (MessageId, Bytes))
    ensures Push(missing, e) == (if |missing| >= MAX_KEPT_MISSING_MESSAGES then missing[1..] else missing) + [e]
  {
  }

  lemma {:induction false} SkipStep(c: Suite, s: State, latest: nat)
    requires s.receiver.step < latest <= U32_MAX
    ensures var (receiver, key) := NextSc(c, s.receiver);
            && receiver.step == s.receiver.step + 1
            && Skip(c, s, latest) == Skip(c, s.(receiver := receiver,
                 missing := Push(s.missing, (MessageId(s.root.step, s.receiver.step), key))), latest)
  {
  }

  lemma {:induction false} SkipEnd(c: Suite, s: State, latest: nat)
    requires latest <= s.receiver.step && latest <= U32_MAX
    ensures Skip(c, s, latest) == s
  {
  }

  function IndexOf(missing: seq<(MessageId, Bytes)>, id: MessageId): (r: Option<nat>)
    ensures r.Some? ==> r.value < |missing| && missing[r.value].0 == id
    ensures r.Some? ==> forall i :: 0 <= i < r.value ==> missing[i].0 != id
    ensures r.None? ==> forall i :: 0 <= i < |missing| ==> missing[i].0 != id
  {
    if missing == [] then None
    else if missing[0].0 == id then Some(0)
    else match IndexOf(missing[1..], id) case None => None case Some(i) => Some(i + 1)
  }

  function Without<T>(s: seq<T>, i: nat): seq<T>
    requires i < |s|
  {
    s[..i] + s[i + 1..]
  }

  function FindMissing(s: State, id: MessageId): (State, Result<Bytes, RecvError>) {
    match IndexOf(s.missing, id)
    case None => (s, Err(MissingMessage))
    case Some(i) => (s.(missing := Without(s.missing, i)), Ok(s.missing[i].1))
  }

  /** Takes the key for sub-step `subStep` from the receiving chain, storing the ones before it. */
  function Take(c: Suite, s: State, subStep: nat): (State, Result<Bytes, RecvError>)
    requires subStep <= U32_MAX
  {
    if subStep < s.receiver.step then (s, Err(InvalidState))
    else
      var t := Skip(c, s, subStep);
      var (receiver, key) := NextSc(c, t.receiver);
      (t.(receiver := receiver), Ok(key))
  }

  /** The receiving half of a root step: both Diffie-Hellman values and the encapsulated secret. */
  function NewRound(c: Suite, s: State, h: Header, coins: Coins): Result<State, RecvError> {
    var input := c.dh(s.x25519, h.x25519);
    var t := s.(x25519 := coins.x25519);
    match h.kyber
    case None => Ok(Ratcheted(c, t, h, input))
    case Some(kyb) =>
      match c.decapsulate(kyb.cp, s.kyber)
      case None => Err(Decapsulation)
      case Some(secret) =>
        var (cp, ss) := c.encapsulate(kyb.public, coins.encapsulation);
        Ok(Ratcheted(c, t.(kyber := coins.kyber, cp := cp, ss := ss), h, c.xor(input, secret)))
  }

  function Ratcheted(c: Suite, t: State, h: Header, input: Bytes): State {
    var (root, key) := NextRk(c, t.root, input);
    t.(prevSubCount := t.sender.step, root := root, receiver := Chain(0, key), receiverHash := c.hash(key),
       sender := Chain(U32_MAX, c.dh(t.x25519, h.x25519)))
  }

  predicate IsHeader(h: Header) {
    h.id.step <= U32_MAX && h.id.subStep <= U32_MAX && h.prevSubCount <= U32_MAX
  }

  function RecvStep(c: Suite, s: State, h: Header, coins: Coins): (State, Result<Bytes, RecvError>)
    requires IsHeader(h)
  {
    if h.id.step < s.root.step then FindMissing(s, h.id)
    else if h.id.step == s.root.step then
      if h.id.subStep < s.receiver.step then FindMissing(s, h.id) else Take(c, s, h.id.subStep)
    else if h.prevSubCount < s.receiver.step then (s, Err(InvalidState))
    else
      var t := Skip(c, s, h.prevSubCount);
      match NewRound(c, t, h, coins)
      case Err(e) => (t.(x25519 := coins.x25519), Err(e))
      case Ok(u) => Take(c, u, h.id.subStep)
  }

  function StartSending(c: Suite, s: State): State {
    if s.sender.step == U32_MAX then
      var seed := if (s.root.step + 1) % KYBER_PERIOD == 0 then c.xor(s.sender.root, s.ss) else s.sender.root;
      var (root, key) := NextRk(c, s.root, seed);
      s.(root := root, sender := Chain(0, key), senderHash := c.hash(key))
    else s
  }

  function HeaderOf(c: Suite, s: State): Header {
    Header(MessageId(s.root.step, s.sender.step), s.prevSubCount,
           if s.root.step % KYBER_PERIOD == 0 then Some(Kyber(c.kemPublic(s.kyber), s.cp)) else None,
           c.dhPublic(s.x25519))
  }

  function SendStep(c: Suite, s: State): (State, Header, Bytes) {
    var t := StartSending(c, s);
    var (sender, key) := NextSc(c, t.sender);
    (t.(sender := sender), HeaderOf(c, t), key)
  }

  // ------------------------------------------- what a step does, field by field

  /** Where the parties start: both take two steps from the shared secret; the seed from the second
      starts the chain on which the starter sends and the answerer receives, and the answerer's first sending chain waits
      for its root step. */
  lemma {:induction false} InitLaw(c: Suite, secret: Bytes, kyber: Bytes, x25519: Bytes, initDh: Bytes, initKem: Bytes, coins: Coins)
    ensures var (root2, seed) := c.kdf(c.kdf(secret, c.zero, "sub chain").0, c.zero, "sub chain");
            var capsule := c.encapsulate(initKem, coins.encapsulation);
            && InitSender(c, secret, kyber, x25519)
               == State(root := Chain(2, root2), sender := Chain(1, seed), senderHash := c.hash(seed),
                        receiver := Chain(0, c.zero), receiverHash := c.hash(secret), prevSubCount := 0, kyber := kyber,
                        cp := c.zero, ss := c.zero, x25519 := x25519, missing := [])
            && InitRecipient(c, secret, initDh, initKem, coins)
               == State(root := Chain(2, root2), sender := Chain(0xFFFF_FFFF, c.dh(coins.x25519, initDh)),
                        senderHash := c.hash(secret), receiver := Chain(1, seed), receiverHash := c.hash(seed),
                        prevSubCount := 0, kyber := coins.kyber, cp := capsule.0, ss := capsule.1,
                        x25519 := coins.x25519, missing := [])
  {
  }

  /** The root of a chain after n keys were taken from it. */
  ghost function Derived(c: Suite, root: Bytes, n: nat): Bytes {
    if n == 0 then root else c.kdf(Derived(c, root, n - 1), c.zero, "sub chain").0
  }

  /** The next n keys of the receiving chain, each with its id. */
  ghost function KeysAhead(c: Suite, s: State, n: nat): seq<(MessageId, Bytes)> {
    seq(n, i requires 0 <= i < n =>
             (MessageId(s.root.step, s.receiver.step + i), c.kdf(Derived(c, s.receiver.root, i), c.zero, "sub chain").1))
  }

  lemma {:induction false} DerivedNext(c: Suite, root: Bytes, n: nat)
    ensures Derived(c, c.kdf(root, c.zero, "sub chain").0, n) == Derived(c, root, n + 1)
  {
    if n > 0 { DerivedNext(c, root, n - 1); }
  }

  lemma {:induction false} KeysAheadNext(c: Suite, s: State, t: State, n: nat)
    requires t.root == s.root && t.receiver == Chain(s.receiver.step + 1, c.kdf(s.receiver.root, c.zero, "sub chain").0)
    ensures KeysAhead(c, s, n + 1)
         == [(MessageId(s.root.step, s.receiver.step), c.kdf(s.receiver.root, c.zero, "sub chain").1)] + KeysAhead(c, t, n)
  {
    hide Derived;
    assert Derived(c, s.receiver.root, 0) == s.receiver.root by { DerivedStart(c, s.receiver.root); }
    forall i | 0 <= i < n ensures KeysAhead(c, s, n + 1)[i + 1] == KeysAhead(c, t, n)[i] {
      DerivedNext(c, s.receiver.root, i);
    }
  }

  lemma {:induction false} DerivedStart(c: Suite, root: Bytes)
    ensures Derived(c, root, 0) == root
  {
  }

  ghost function NewestFive<T>(s: seq<T>): seq<T> { if |s| <= 5 then s else s[|s| - 5..] }

  /** Skipping takes every key up to `latest` off the receiving chain, and of the kept keys and those the
      newest five remain. */
  lemma {:induction false} SkipKeepsNewest(c: Suite, s: State, latest: nat)
    requires s.receiver.step <= latest <= U32_MAX && |s.missing| <= 5
    ensures var n := latest - s.receiver.step;
            var all := s.missing + KeysAhead(c, s, n);
            Skip(c, s, latest) == s.(receiver := Chain(latest, Derived(c, s.receiver.root, n)),
                                     missing := if |all| <= 5 then all else all[|all| - 5..])
  {
    hide Derived, KeysAhead, Skip;
    SkipNewest(c, s, latest);
  }

  lemma {:induction false} SkipNewest(c: Suite, s: State, latest: nat)
    requires s.receiver.step <= latest <= U32_MAX && |s.missing| <= 5
    ensures var n := latest - s.receiver.step;
            Skip(c, s, latest) == s.(receiver := Chain(latest, Derived(c, s.receiver.root, n)),
                                     missing := NewestFive(s.missing + KeysAhead(c, s, n)))
    decreases latest - s.receiver.step
  {
    hide Derived, KeysAhead, Skip, Push, NewestFive;
    var n := latest - s.receiver.step;
    if n == 0 {
      SkipEnd(c, s, latest);
      NoKeysAhead(c, s);
    } else {
      var (receiver, key) := NextSc(c, s.receiver);
      var e := (MessageId(s.root.step, s.receiver.step), key);
      var t := s.(receiver := receiver, missing := Push(s.missing, e));
      SkipStep(c, s, latest);
      NewestOfMore(s.missing, e, KeysAhead(c, t, n - 1));
      SkipNewest(c, t, latest);
      KeysAheadNext(c, s, t, n - 1);
      DerivedNext(c, s.receiver.root, n - 1);
    }
  }

  lemma {:induction false} NoKeysAhead(c: Suite, s: State)
    requires |s.missing| <= 5
    ensures NewestFive(s.missing + KeysAhead(c, s, 0)) == s.missing && Derived(c, s.receiver.root, 0) == s.receiver.root
  {
    assert s.missing + KeysAhead(c, s, 0) == s.missing;
  }

  lemma {:induction false} NewestOfMore(kept: seq<(MessageId, Bytes)>, e: (MessageId, Bytes), more: seq<(MessageId, Bytes)>)
    requires |kept| <= 5
    ensures |Push(kept, e)| <= 5 && NewestFive(Push(kept, e) + more) == NewestFive(kept + ([e] + more))
  {
    hide NewestFive;
    var y := kept + ([e] + more);
    if |kept| < 5 {
      Regrouped(kept, e, more);
    } else {
      TailFirst(kept, e, more);
      NewestOfTail(y);
    }
  }

  lemma {:induction false} Regrouped<T>(kept: seq<T>, e: T, more: seq<T>)
    ensures kept + [e] + more == kept + ([e] + more)
  {
  }

  lemma {:induction false} TailFirst<T>(kept: seq<T>, e: T, more: seq<T>)
    requires kept != []
    ensures kept[1..] + [e] + more == (kept + ([e] + more))[1..]
  {
  }

  lemma {:induction false} NewestOfTail<T>(s: seq<T>)
    requires |s| > 5
    ensures NewestFive(s[1..]) == NewestFive(s)
  {
    assert s[1..][|s| - 6..] == s[|s| - 5..];
  }

  /** What sending does. A guarded sender first takes a root step, whose input is its Diffie-Hellman value, and in
      every 35th round also the encapsulated secret. The header names the place in the chain, and in every 35th round
      carries the public key and the ciphertext of the encapsulation. */
  lemma {:induction false} SendLaw(c: Suite, s: State)
    ensures var (t, h, key) := SendStep(c, s);
            var guarded := s.sender.step == 0xFFFF_FFFF;
            var mixed := (s.root.step + 1) % 35 == 0;
            var stepped := c.kdf(s.root.root, if mixed then c.xor(s.sender.root, s.ss) else s.sender.root, "root chain");
            var chain := if guarded then stepped.1 else s.sender.root;
            var count := if guarded then 0 else s.sender.step;
            && (t.root == if guarded then Chain((s.root.step + 1) % 0x1_0000_0000, stepped.0) else s.root)
            && t.senderHash == (if guarded then c.hash(chain) else s.senderHash)
            && (t.sender.root, key) == c.kdf(chain, c.zero, "sub chain") && t.sender.step == (count + 1) % 0x1_0000_0000
            && t == s.(root := t.root, sender := t.sender, senderHash := t.senderHash)
            && h.id == MessageId(t.root.step, count) && h.prevSubCount == s.prevSubCount && h.x25519 == c.dhPublic(s.x25519)
            && h.kyber == if t.root.step % 35 == 0 then Some(Kyber(c.kemPublic(s.kyber), s.cp)) else None
  {
  }

  /** What receiving a header of a past place does: the key kept for it is handed out once. */
  lemma {:induction false} RecvPastLaw(c: Suite, s: State, h: Header, coins: Coins)
    requires IsHeader(h)
    requires h.id.step < s.root.step || (h.id.step == s.root.step && h.id.subStep < s.receiver.step)
    ensures var (t, r) := RecvStep(c, s, h, coins);
            && ((forall i :: 0 <= i < |s.missing| ==> s.missing[i].0 != h.id) ==> t == s && r == Err(MissingMessage))
            && forall i :: 0 <= i < |s.missing| && s.missing[i].0 == h.id && (forall j :: 0 <= j < i ==> s.missing[j].0 != h.id) ==>
                 t == s.(missing := s.missing[..i] + s.missing[i + 1..]) && r == Ok(s.missing[i].1)
  {
    FindsPast(c, s, h, coins);
    hide RecvStep, FindMissing, Skip;
    if forall i :: 0 <= i < |s.missing| ==> s.missing[i].0 != h.id {
      FindsNothing(s, h.id);
    }
    forall i | 0 <= i < |s.missing| && s.missing[i].0 == h.id && (forall j :: 0 <= j < i ==> s.missing[j].0 != h.id)
      ensures FindMissing(s, h.id) == (s.(missing := s.missing[..i] + s.missing[i + 1..]), Ok(s.missing[i].1))
    {
      FindsAt(s, h.id, i);
    }
  }

  lemma {:induction false} FindsNothing(s: State, id: MessageId)
    requires forall i :: 0 <= i < |s.missing| ==> s.missing[i].0 != id
    ensures FindMissing(s, id) == (s, Err(MissingMessage))
  {
  }

  lemma {:induction false} FindsAt(s: State, id: MessageId, i: nat)
    requires i < |s.missing| && s.missing[i].0 == id && forall j :: 0 <= j < i ==> s.missing[j].0 != id
    ensures FindMissing(s, id) == (s.(missing := s.missing[..i] + s.missing[i + 1..]), Ok(s.missing[i].1))
  {
    hide IndexOf;
    var found := IndexOf(s.missing, id);
    assert found.Some? && found.value == i;
  }

  lemma {:induction false} FindsPast(c: Suite, s: State, h: Header, coins: Coins)
    requires IsHeader(h)
    requires h.id.step < s.root.step || (h.id.step == s.root.step && h.id.subStep < s.receiver.step)
    ensures RecvStep(c, s, h, coins) == FindMissing(s, h.id)
  {
  }

  /** What receiving a header of the current chain does: the keys before it are kept, and its key is the one so
      many places further on. */
  lemma {:induction false} RecvAheadLaw(c: Suite, s: State, h: Header, coins: Coins)
    requires IsHeader(h) && |s.missing| <= 5
    requires h.id.step == s.root.step && s.receiver.step <= h.id.subStep
    ensures var (t, r) := RecvStep(c, s, h, coins);
            var n := h.id.subStep - s.receiver.step;
            var all := s.missing + KeysAhead(c, s, n);
            && r == Ok(c.kdf(Derived(c, s.receiver.root, n), c.zero, "sub chain").1)
            && t == s.(receiver := Chain((h.id.subStep + 1) % 0x1_0000_0000, Derived(c, s.receiver.root, n + 1)),
                       missing := if |all| <= 5 then all else all[|all| - 5..])
  {
    hide KeysAhead, Skip;
    SkipKeepsNewest(c, s, h.id.subStep);
  }

  /** What receiving a header of a later round does. It is refused without any change when it claims fewer messages
      on the old chain than were read. Otherwise the rest of that chain is skipped and both secrets are renewed,
      the encapsulation's only when the header carries a ciphertext: if that does not open, the new Diffie-Hellman secret
      is all that happens. The root step takes the Diffie-Hellman value, mixed with the secret opened. */
  lemma {:induction false} RecvRoundLaw(c: Suite, s: State, h: Header, coins: Coins)
    requires IsHeader(h) && s.root.step < h.id.step
    ensures var (t, r) := RecvStep(c, s, h, coins);
            if h.prevSubCount < s.receiver.step then t == s && r == Err(InvalidState)
            else
              var skipped := Skip(c, s, h.prevSubCount).(x25519 := coins.x25519);
              var secret := if h.kyber.Some? then c.decapsulate(h.kyber.value.cp, s.kyber) else None;
              if h.kyber.Some? && secret.None? then t == skipped && r == Err(Decapsulation)
              else
                var dh := c.dh(s.x25519, h.x25519);
                var (root, chain) := c.kdf(s.root.root, if h.kyber.Some? then c.xor(dh, secret.value) else dh, "root chain");
                var capsule := if h.kyber.Some? then c.encapsulate(h.kyber.value.public, coins.encapsulation) else (s.cp, s.ss);
                var u := skipped.(prevSubCount := s.sender.step,
                                  root := Chain((s.root.step + 1) % 0x1_0000_0000, root),
                                  receiver := Chain(0, chain), receiverHash := c.hash(chain),
                                  sender := Chain(0xFFFF_FFFF, c.dh(coins.x25519, h.x25519)),
                                  kyber := if h.kyber.Some? then coins.kyber else s.kyber,
                                  cp := capsule.0, ss := capsule.1);
                var v := Skip(c, u, h.id.subStep);
                && r == Ok(c.kdf(v.receiver.root, c.zero, "sub chain").1)
                && t == v.(receiver := t.receiver) && t.receiver.root == c.kdf(v.receiver.root, c.zero, "sub chain").0
                && t.receiver.step == (v.receiver.step + 1) % 0x1_0000_0000
  {
    hide Skip;
  }

  // ------------------------------------------------------------- the object

  /** The ratchet as the client keeps it: an object whose fields `Send` and `Recv` update. */
  class Ratchet {
    const suite: Suite
    var root: Chain
    var sender: Chain
    var receiverHash: Bytes
    var receiver: Chain
    var senderHash: Bytes
    var prevSubCount: nat
    var kyber: Bytes
    var cp: Bytes
    var ss: Bytes
    var x25519: Bytes
    var missing: seq<(MessageId, Bytes)>

    ghost function Value(): State
      reads this
    {
      State(root, sender, receiverHash, receiver, senderHash, prevSubCount, kyber, cp, ss, x25519, missing)
    }

    constructor Sender(suite: Suite, secret: Bytes, kyber: Bytes, x25519: Bytes)
      ensures this.suite == suite && Value() == InitSender(suite, secret, kyber, x25519)
    {
      var (root1, _) := NextSc(suite, Chain(0, secret));
      var (root2, seed) := NextSc(suite, root1);
      this.suite := suite;
      this.root, this.sender, this.receiver := root2, Chain(1, seed), Chain(0, suite.zero);
      this.senderHash, this.receiverHash := suite.hash(seed), suite.hash(secret);
      this.prevSubCount, this.missing := 0, [];
      this.kyber, this.cp, this.ss, this.x25519 := kyber, suite.zero, suite.zero, x25519;
    }

    constructor Recipient(suite: Suite, secret: Bytes, initDh: Bytes, initKem: Bytes, coins: Coins)
      ensures this.suite == suite && Value() == InitRecipient(suite, secret, initDh, initKem, coins)
    {
      var (root1, _) := NextSc(suite, Chain(0, secret));
      var (root2, seed) := NextSc(suite, root1);
      var (cp, ss) := suite.encapsulate(initKem, coins.encapsulation);
      this.suite := suite;
      this.root, this.receiver := root2, Chain(1, seed);
      this.sender := Chain(U32_MAX, suite.dh(coins.x25519, initDh));
      this.senderHash, this.receiverHash := suite.hash(secret), suite.hash(seed);
      this.prevSubCount, this.missing := 0, [];
      this.kyber, this.cp, this.ss, this.x25519 := coins.kyber, cp, ss, coins.x25519;
    }

    method AddMissingMessage(latest: nat) returns (ok: bool)
      requires latest <= U32_MAX
      modifies this
      ensures ok <==> old(receiver.step) <= latest
      ensures Value() == if ok then Skip(suite, old(Value()), latest) else old(Value())
    {
      if latest < receiver.step {
        return false;
      }
      hide Skip, Push, NextSc;
      ghost var start := Value();
      while receiver.step < latest
        invariant receiver.step <= latest
        invariant Skip(suite, Value(), latest) == Skip(suite, start, latest)
        decreases latest - receiver.step
      {
        SkipStep(suite, Value(), latest);
        var id := MessageId(root.step, receiver.step);
        var (next, key) := NextSc(suite, receiver);
        ghost var pushed := Push(missing, (id, key));
        PushIs(missing, (id, key));
        if |missing| >= MAX_KEPT_MISSING_MESSAGES {
          missing := missing[1..];
        }
        receiver := next;
        missing := missing + [(id, key)];
        assert missing == pushed;
      }
      SkipEnd(suite, Value(), latest);
      ok := true;
    }

    method FindMissingMessage(id: MessageId) returns (r: Result<Bytes, RecvError>)
      modifies this`missing
      ensures (Value(), r) == FindMissing(old(Value()), id)
    {
      match IndexOf(missing, id)
      case None =>
        r := Err(MissingMessage);
      case Some(i) =>
        r := Ok(missing[i].1);
        missing := Without(missing, i);
    }

    method EnterRound(h: Header, coins: Coins) returns (ok: bool)
      modifies this
      ensures ok == NewRound(suite, old(Value()), h, coins).Ok?
      ensures ok ==> Value() == NewRound(suite, old(Value()), h, coins).value
      ensures !ok ==> NewRound(suite, old(Value()), h, coins) == Err(Decapsulation)
      ensures !ok ==> Value() == old(Value()).(x25519 := coins.x25519)
      ensures x25519 == coins.x25519
      ensures ok && h.kyber.Some? ==>
                kyber == coins.kyber && (cp, ss) == suite.encapsulate(h.kyber.value.public, coins.encapsulation)
      ensures !ok || h.kyber.None? ==> kyber == old(kyber) && cp == old(cp) && ss == old(ss)
    {
      var input := suite.dh(x25519, h.x25519);
      x25519 := coins.x25519;
      if h.kyber.Some? {
        var secret := suite.decapsulate(h.kyber.value.cp, kyber);
        if secret.None? {
          return false;
        }
        input := suite.xor(input, secret.value);
        kyber := coins.kyber;
        var (newCp, newSs) := suite.encapsulate(h.kyber.value.public, coins.encapsulation);
        cp, ss := newCp, newSs;
      }
      AdvanceRoot(h, input);
      ok := true;
    }

    method AdvanceRoot(h: Header, input: Bytes)
      modifies this
      ensures Value() == Ratcheted(suite, old(Value()), h, input)
    {
      prevSubCount := sender.step;
      var (newRoot, key) := NextRk(suite, root, input);
      root, receiver := newRoot, Chain(0, key);
      receiverHash := suite.hash(key);
      sender := Chain(U32_MAX, suite.dh(x25519, h.x25519));
    }

    method Recv(h: Header, coins: Coins) returns (r: Result<Bytes, RecvError>)
      requires IsHeader(h)
      modifies this
      ensures (Value(), r) == RecvStep(suite, old(Value()), h, coins)
    {
      if h.id.step < root.step {
        r := FindMissingMessage(h.id);
        return;
      }
      if h.id.step == root.step {
        if h.id.subStep < receiver.step {
          r := FindMissingMessage(h.id);
          return;
        }
      } else {
        var ok := AddMissingMessage(h.prevSubCount);
        if !ok {
          return Err(InvalidState);
        }
        var entered := EnterRound(h, coins);
        if !entered {
          return Err(Decapsulation);
        }
      }
      var ok := AddMissingMessage(h.id.subStep);
      assert ok;
      var (next, key) := NextSc(suite, receiver);
      receiver := next;
      r := Ok(key);
    }

    method Send() returns (h: Header, key: Bytes)
      modifies this
      ensures (Value(), h, key) == SendStep(suite, old(Value()))
    {
      if sender.step == U32_MAX {
        var seed := sender.root;
        if (root.step + 1) % KYBER_PERIOD == 0 {
          seed := suite.xor(seed, ss);
        }
        var (newRoot, chainKey) := NextRk(suite, root, seed);
        root, sender := newRoot, Chain(0, chainKey);
        senderHash := suite.hash(chainKey);
      }
      h := Header(MessageId(root.step, sender.step), prevSubCount,
                  if root.step % KYBER_PERIOD == 0 then Some(Kyber(suite.kemPublic(kyber), cp)) else None,
                  suite.dhPublic(x25519));
      var (next, k) := NextSc(suite, sender);
      sender, key := next, k;
    }
  }
}
