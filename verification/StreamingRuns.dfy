/** The behaviour, its handlers and the swarm between them, over every run. */
module StreamingRuns {
  import opened Streaming

  /** One established connection: its handler, what the swarm carries to it and from it, and
      the substreams being negotiated; and what has happened to the handler, that is, the outcomes it heard of and
      those it has passed on to the behaviour. */
  datatype Link = Link(handler: HandlerState, notified: seq<nat>, negotiating: nat, reported: seq<Outcome>,
                       heard: multiset<Outcome>, passed: multiset<Outcome>)

  /** `created` counts calls of `create_stream` for each peer, `emitted` the events that the swarm and
      the application have received, and `owing` those that the behaviour was given a reason for. */
  datatype World = World(b: State, links: map<Key, Link>, created: multiset<nat>, emitted: multiset<ToSwarm>,
                         owing: multiset<ToSwarm>)

  datatype Action =
    | Create(peer: nat, key: Key)
    | Connect(key: Key)
    | DialFails(key: Key, conditionFalse: bool, other: Key)
    | Close(key: Key, other: Key)
    | PollBehaviour(result: PollResult)
    | TellHandler(key: Key)
    | PollHandler(key: Key)
    | Hear(key: Key, event: ConnectionEvent)
    | Report(key: Key)

  function NewLink(n: nat): Link { Link(HandlerState(n, []), [], 0, [], multiset{}, multiset{}) }

  // ----------------------------------------------------------------- counting

  function Sum(s: seq<nat>): nat { if s == [] then 0 else s[0] + Sum(s[1..]) }

  function Count(s: seq<Outcome>): nat {
    if s == [] then 0 else Count(s[..|s| - 1]) + (if s[|s| - 1].Outgoing? then 1 else 0)
  }

  /** Outcomes of requests for streams to a peer. */
  function Answers(peer: nat, events: multiset<ToSwarm>): nat {
    events[Generate(peer, Outgoing(true))] + events[Generate(peer, Outgoing(false))]
  }

  /** The requests that a connection holds, if it is one to the peer. */
  function Share(peer: nat, k: Key, c: Connection): nat { if k.peer == peer then c.Total() else 0 }

  /** Requests held by the connections to a peer. */
  ghost function Held(peer: nat, m: map<Key, Connection>): nat
    decreases |m|
  {
    if m == map[] then 0 else
      var k :| k in m;
      Smaller(m, k);
      Share(peer, k, m[k]) + Held(peer, m - {k})
  }

  lemma {:induction false} Smaller(m: map<Key, Connection>, k: Key)
    requires k in m
    ensures |m - {k}| < |m|
  {
    assert m.Keys == (m - {k}).Keys + {k};
  }

  /** Requests held can be counted in any order. */
  lemma {:induction false} HeldWithout(peer: nat, m: map<Key, Connection>, k: Key)
    requires k in m
    ensures Held(peer, m) == Share(peer, k, m[k]) + Held(peer, m - {k})
    decreases |m|
  {
    hide Share;
    var p :| p in m && Held(peer, m) == Share(peer, p, m[p]) + Held(peer, m - {p});
    if p == k {
    } else {
      Smaller(m, p);
      HeldWithout(peer, m - {p}, k);
      Smaller(m, k);
      HeldWithout(peer, m - {k}, p);
      assert m - {p} - {k} == m - {k} - {p};
    }
  }

  lemma {:induction false} HeldUpdate(peer: nat, m: map<Key, Connection>, k: Key, c: Connection)
    ensures Held(peer, m[k := c]) == Held(peer, m - {k}) + Share(peer, k, c)
    ensures k in m ==> Held(peer, m[k := c]) + Share(peer, k, m[k]) == Held(peer, m) + Share(peer, k, c)
    ensures k !in m ==> Held(peer, m[k := c]) == Held(peer, m) + Share(peer, k, c)
  {
    hide Held, Share;
    HeldWithout(peer, m[k := c], k);
    assert m[k := c] - {k} == m - {k};
    if k in m { HeldWithout(peer, m, k); } else { assert m - {k} == m; }
  }

  lemma {:induction false} CountPush(s: seq<Outcome>, e: Outcome)
    ensures Count(s + [e]) == Count(s) + (if e.Outgoing? then 1 else 0)
  {
    assert (s + [e])[..|s|] == s;
  }

  lemma {:induction false} CountTake(s: seq<Outcome>)
    requires s != []
    ensures Count(s) == (if s[0].Outgoing? then 1 else 0) + Count(s[1..])
  {
    var n := |s| - 1;
    if n == 0 {
    } else {
      CountTake(s[..n]);
      assert s[..n][1..] == s[1..][..n - 1];
    }
  }

  lemma {:induction false} AnswersPush(peer: nat, s: seq<ToSwarm>, e: ToSwarm)
    ensures multiset(s + [e]) == multiset(s) + multiset{e}
    ensures Answers(peer, multiset(s + [e])) == Answers(peer, multiset(s)) + Answers(peer, multiset{e})
  {
  }

  /** The failures of n requests to a peer. */
  lemma {:induction false} FailuresAre(peer: nat, n: nat)
    ensures multiset(Failures(peer, n)) == multiset{}[Generate(peer, Outgoing(false)) := n]
  {
    if n == 0 {
    } else {
      FailuresAre(peer, n - 1);
      assert Failures(peer, n) == Failures(peer, n - 1) + [Generate(peer, Outgoing(false))];
    }
  }

  lemma {:induction false} AnswersFailures(peer: nat, s: seq<ToSwarm>, to: nat, n: nat)
    ensures multiset(s + Failures(to, n)) == multiset(s) + multiset{}[Generate(to, Outgoing(false)) := n]
    ensures Answers(peer, multiset(s + Failures(to, n))) == Answers(peer, multiset(s)) + if peer == to then n else 0
  {
    FailuresAre(to, n);
    hide Failures;
  }

  lemma {:induction false} SumPush(s: seq<nat>, n: nat)
    ensures Sum(s + [n]) == Sum(s) + n
  {
    if s == [] {
      assert s + [n] == [n];
    } else {
      SumPush(s[1..], n);
      assert (s + [n])[1..] == s[1..] + [n];
    }
  }

  // -------------------------------------------------------------------- steps

  /** A report that would take a pending count below zero. */
  ghost predicate Underflows(w: World, k: Key) {
    && k in w.links && w.links[k].reported != [] && w.links[k].reported[0].Outgoing?
    && k in w.b.connections && w.b.connections[k].pending == 0
  }

  /** The handler takes the oldest notification. */
  function LinkTold(l: Link): Link
    requires l.notified != []
  {
    l.(handler := l.handler.(toRequest := l.handler.toRequest + l.notified[0]), notified := l.notified[1..])
  }

  /** The handler is polled: an outcome is on its way to the behaviour, or a substream is negotiated. */
  function LinkPolled(l: Link): Link {
    var (r, h) := HandlerPolls(l.handler);
    l.(handler := h,
       negotiating := l.negotiating + (if r.RequestSubstream? then 1 else 0),
       reported := l.reported + (if r.NotifyBehaviour? then [r.outcome] else []))
  }

  predicate Outbound(e: ConnectionEvent) { e.NegotiatedOutbound? || e.UpgradeError? }

  /** The handler hears how a negotiation ended. */
  function LinkHears(l: Link, e: ConnectionEvent): Link
    requires Outbound(e) ==> l.negotiating > 0
  {
    l.(handler := HandlerHears(l.handler, e),
       negotiating := if Outbound(e) then l.negotiating - 1 else l.negotiating,
       heard := l.heard + match e
                          case NegotiatedInbound => multiset{Incoming}
                          case NegotiatedOutbound => multiset{Outgoing(true)}
                          case UpgradeError => multiset{Outgoing(false)}
                          case Other => multiset{})
  }

  ghost predicate Next(w: World, a: Action, v: World) {
    match a
    case Create(peer, k) =>
      Creates(w.b, peer, k, v.b)
      && v == w.(b := v.b, created := w.created + multiset{peer},
                 owing := if Knows(w.b, peer) then w.owing else w.owing + multiset{Dial(k)})
    case Connect(k) =>
      && k !in w.links
      && var b := Connects(w.b, k);
         v == w.(b := b, links := w.links[k := NewLink(b.connections[k].pending)])
    case DialFails(k, conditionFalse, other) =>
      && k !in w.links
      && (if k !in w.b.connections || conditionFalse then v == w
          else Drops(w.b, k, other, v.b) && v == w.(b := v.b, owing := w.owing + Lost(w.b, k)))
    case Close(k, other) =>
      && k in w.links
      && (if k !in w.b.connections then v == w.(links := w.links - {k})
          else Drops(w.b, k, other, v.b)
               && v == w.(b := v.b, links := w.links - {k}, owing := w.owing + Lost(w.b, k)))
    case PollBehaviour(r) =>
      // The swarm drops a notification for a connection that has no handler yet.
      && Polls(w.b, r, v.b)
      && v == w.(b := v.b,
                 links := if r.Notify? && r.key in w.links
                          then w.links[r.key := w.links[r.key].(notified := w.links[r.key].notified + [r.count])]
                          else w.links,
                 emitted := if r.Emit? then w.emitted + multiset{r.event} else w.emitted)
    case TellHandler(k) =>
      && k in w.links && w.links[k].notified != []
      && v == w.(links := w.links[k := LinkTold(w.links[k])])
    case PollHandler(k) =>
      && k in w.links
      && v == w.(links := w.links[k := LinkPolled(w.links[k])])
    case Hear(k, e) =>
      && k in w.links
      && (Outbound(e) ==> w.links[k].negotiating > 0)
      && v == w.(links := w.links[k := LinkHears(w.links[k], e)])
    case Report(k) =>
      && k in w.links && w.links[k].reported != []
      && var l := w.links[k];
         if Underflows(w, k) then v == w
         else v == w.(b := Reports(w.b, k, l.reported[0]),
                      links := w.links[k := l.(reported := l.reported[1..], passed := l.passed + multiset{l.reported[0]})],
                      owing := w.owing + multiset{Generate(k.peer, l.reported[0])})
  }

  /** The failures that a lost connection gives a reason for: one for each request it holds, when there is
      no other connection to the peer. */
  ghost function Lost(b: State, k: Key): multiset<ToSwarm>
    requires k in b.connections
  {
    if exists q :: q in b.connections && q != k && q.peer == k.peer then multiset{}
    else multiset{}[Generate(k.peer, Outgoing(false)) := b.connections[k].pending + b.connections[k].unsent]
  }

  // ---------------------------------------------------------------- invariant

  /** Everything a link still owes the behaviour an outcome for. */
  function Owed(l: Link): nat {
    l.handler.toRequest + Sum(l.notified) + l.negotiating + Count(l.handler.stream) + Count(l.reported)
  }

  ghost predicate LinksAgree(w: World) {
    forall k :: k in w.links ==> k in w.b.connections && w.b.connections[k].pending == Owed(w.links[k])
  }

  /** The requests made for a peer are those answered, those with an answer waiting, and those that
      connections to the peer hold. */
  ghost predicate Conserved(w: World, peer: nat) {
    w.created[peer] == Answers(peer, w.emitted) + Answers(peer, multiset(w.b.events)) + Held(peer, w.b.connections)
  }

  /** Every event has its reason, and every outcome that a handler heard of is on its way or passed on. */
  ghost predicate Reasoned(w: World) {
    && w.emitted + multiset(w.b.events) == w.owing
    && forall k :: k in w.links ==> LinkReasoned(w.links[k])
  }

  ghost predicate LinkReasoned(l: Link) { l.heard == multiset(l.handler.stream) + multiset(l.reported) + l.passed }

  ghost predicate Inv(w: World) { LinksAgree(w) && Reasoned(w) && forall peer :: Conserved(w, peer) }

  const START := World(State(map[], []), map[], multiset{}, multiset{}, multiset{})

  lemma {:induction false} AddUnsentKeeps(w: World, s: State, k: Key, n: nat, peer: nat)
    requires LinksAgree(w.(b := s)) && k in s.connections
    ensures LinksAgree(w.(b := AddUnsent(s, k, n)))
    ensures Held(peer, AddUnsent(s, k, n).connections) == Held(peer, s.connections) + if k.peer == peer then n else 0
  {
    hide Held, Owed;
    HeldUpdate(peer, s.connections, k, s.connections[k].(unsent := s.connections[k].unsent + n));
  }

  lemma {:induction false} CreateKeeps(w: World, to: nat, k: Key, v: World, peer: nat)
    requires LinksAgree(w) && Reasoned(w) && Conserved(w, peer) && Next(w, Create(to, k), v)
    ensures LinksAgree(v) && Reasoned(v) && Conserved(v, peer)
  {
    hide Held, Owed, LinkReasoned, Answers;
    if Knows(w.b, to) {
      AddUnsentKeeps(w, w.b, k, 1, peer);
    } else {
      HeldUpdate(peer, w.b.connections, k, Connection(0, 1));
      DialIsNoAnswer(peer, k);
      AnswersPush(peer, w.b.events, Dial(k));
    }
  }

  lemma {:induction false} DialIsNoAnswer(peer: nat, k: Key)
    ensures Answers(peer, multiset{Dial(k)}) == 0
  {
  }

  lemma {:induction false} ConnectKeeps(w: World, k: Key, v: World, peer: nat)
    requires LinksAgree(w) && Reasoned(w) && Conserved(w, peer) && Next(w, Connect(k), v)
    ensures LinksAgree(v) && Reasoned(v) && Conserved(v, peer)
  {
    hide LinksAgree, Reasoned, Conserved, Entry, Connection.Told, Connection.Total, NewLink;
    var c := Entry(w.b.connections, k);
    LinkKeeps(w, k, c, v, peer);
  }

  lemma {:induction false} LinkKeeps(w: World, k: Key, c: Connection, v: World, peer: nat)
    requires LinksAgree(w) && Reasoned(w) && Conserved(w, peer) && c == Entry(w.b.connections, k)
    requires v.b.connections == w.b.connections[k := c.Told()] && v.links == w.links[k := NewLink(c.Total())]
    requires v == w.(b := v.b, links := v.links) && v.b.events == w.b.events
    ensures LinksAgree(v) && Reasoned(v) && Conserved(v, peer)
  {
    hide Held, Owed, Entry, Connection.Told, Connection.Total, NewLink, LinkReasoned, Answers;
    var m := w.b.connections;
    HeldUpdate(peer, m, k, c.Told());
    OwedByNew(c.Total());
    ShareOf(peer, k, c);
    if k in m { assert c == m[k]; } else { assert c.Total() == 0; }
    forall q | q in v.links
      ensures q in v.b.connections && v.b.connections[q].pending == Owed(v.links[q]) && LinkReasoned(v.links[q])
    {
      if q != k { assert v.links[q] == w.links[q] && v.b.connections[q] == m[q]; }
    }
  }

  lemma {:induction false} ShareOf(peer: nat, k: Key, c: Connection)
    ensures Share(peer, k, c.Told()) == Share(peer, k, c)
    ensures c.Total() == 0 ==> Share(peer, k, c) == 0
  {
  }

  lemma {:induction false} OwedByNew(n: nat)
    ensures Owed(NewLink(n)) == n && LinkReasoned(NewLink(n))
  {
  }

  /** Dropping a connection that has no link hands its requests on or fails them. */
  lemma {:induction false} DropKeeps(w: World, k: Key, other: Key, v: World, peer: nat)
    requires LinksAgree(w) && Reasoned(w) && Conserved(w, peer) && k in w.b.connections && k !in w.links
    requires Drops(w.b, k, other, v.b) && v == w.(b := v.b, owing := w.owing + Lost(w.b, k))
    ensures LinksAgree(v) && Reasoned(v) && Conserved(v, peer)
  {
    hide Held, Owed, LinkReasoned, Answers, Failures;
    var total := w.b.connections[k].Total();
    var rest := State(w.b.connections - {k}, w.b.events);
    assert total == w.b.connections[k].pending + w.b.connections[k].unsent;
    HeldWithout(peer, w.b.connections, k);
    assert LinksAgree(w.(b := rest));
    if Knows(rest, k.peer) {
      AddUnsentKeeps(w, rest, other, total, peer);
    } else {
      assert forall q :: q in w.b.connections && q != k ==> q in rest.connections;
      AnswersFailures(peer, rest.events, k.peer, total);
    }
  }

  lemma {:induction false} CloseKeeps(w: World, k: Key, other: Key, v: World, peer: nat)
    requires LinksAgree(w) && Reasoned(w) && Conserved(w, peer) && Next(w, Close(k, other), v)
    ensures LinksAgree(v) && Reasoned(v) && Conserved(v, peer)
  {
    hide Held, Owed, Drops, Lost, LinkReasoned, Answers;
    DropKeeps(w.(links := w.links - {k}), k, other, v, peer);
  }

  lemma {:induction false} PollKeeps(w: World, r: PollResult, v: World, peer: nat)
    requires LinksAgree(w) && Reasoned(w) && Conserved(w, peer) && Next(w, PollBehaviour(r), v)
    ensures LinksAgree(v) && Reasoned(v) && Conserved(v, peer)
  {
    hide LinksAgree, Reasoned, Conserved;
    if HasUnsent(w.b) {
      NotifyKeeps(w, r, v, peer);
    } else if w.b.events != [] {
      var n := |w.b.events| - 1;
      assert w.b.events == w.b.events[..n] + [w.b.events[n]];
      EmitKeeps(w, w.b.events[n], v, peer);
    }
  }

  lemma {:induction false} EmitKeeps(w: World, e: ToSwarm, v: World, peer: nat)
    requires LinksAgree(w) && Reasoned(w) && Conserved(w, peer)
    requires w.b.events == v.b.events + [e] && v.emitted == w.emitted + multiset{e}
    requires v.b.connections == w.b.connections && v.links == w.links && v.created == w.created && v.owing == w.owing
    ensures LinksAgree(v) && Reasoned(v) && Conserved(v, peer)
  {
    hide Held, Owed, LinkReasoned, Answers;
    AnswersPush(peer, v.b.events, e);
    AnswersAdd(peer, w.emitted, multiset{e});
  }

  lemma {:induction false} AnswersAdd(peer: nat, a: multiset<ToSwarm>, b: multiset<ToSwarm>)
    ensures Answers(peer, a + b) == Answers(peer, a) + Answers(peer, b)
  {
  }

  lemma {:induction false} NotifyKeeps(w: World, r: PollResult, v: World, peer: nat)
    requires LinksAgree(w) && Reasoned(w) && Conserved(w, peer) && Next(w, PollBehaviour(r), v) && HasUnsent(w.b)
    ensures LinksAgree(v) && Reasoned(v) && Conserved(v, peer)
  {
    hide Held, Owed, LinkReasoned, Answers;
    HeldUpdate(peer, w.b.connections, r.key, w.b.connections[r.key].Told());
    if r.key in w.links {
      NotifiedOwes(w.links[r.key], r.count);
    }
  }

  lemma {:induction false} NotifiedOwes(l: Link, n: nat)
    ensures Owed(l.(notified := l.notified + [n])) == Owed(l) + n
    ensures LinkReasoned(l) ==> LinkReasoned(l.(notified := l.notified + [n]))
  {
    hide Count, Sum;
    SumPush(l.notified, n);
  }

  lemma {:induction false} ToldOwes(l: Link)
    requires l.notified != []
    ensures Owed(LinkTold(l)) == Owed(l) && (LinkReasoned(l) ==> LinkReasoned(LinkTold(l)))
  {
    hide Count;
  }

  lemma {:induction false} PolledOwes(l: Link)
    ensures Owed(LinkPolled(l)) == Owed(l) && (LinkReasoned(l) ==> LinkReasoned(LinkPolled(l)))
  {
    hide Count, Sum;
    if l.handler.stream != [] {
      var n := |l.handler.stream| - 1;
      assert l.handler.stream == l.handler.stream[..n] + [l.handler.stream[n]];
      CountPush(l.handler.stream[..n], l.handler.stream[n]);
      CountPush(l.reported, l.handler.stream[n]);
    } else {
      assert l.reported + [] == l.reported;
    }
  }

  lemma {:induction false} HearsOwes(l: Link, e: ConnectionEvent)
    requires Outbound(e) ==> l.negotiating > 0
    ensures Owed(LinkHears(l, e)) == Owed(l) && (LinkReasoned(l) ==> LinkReasoned(LinkHears(l, e)))
  {
    hide Count, Sum;
    CountPush(l.handler.stream, Incoming);
    CountPush(l.handler.stream, Outgoing(true));
    CountPush(l.handler.stream, Outgoing(false));
  }

  lemma {:induction false} HandlerKeeps(w: World, a: Action, v: World, peer: nat)
    requires LinksAgree(w) && Reasoned(w) && Conserved(w, peer)
    requires Next(w, a, v) && (a.TellHandler? || a.PollHandler? || a.Hear?)
    ensures LinksAgree(v) && Reasoned(v) && Conserved(v, peer)
  {
    hide Held, Owed, LinkReasoned, Answers, LinkTold, LinkPolled, LinkHears;
    match a {
      case TellHandler(k) => ToldOwes(w.links[k]);
      case PollHandler(k) => PolledOwes(w.links[k]);
      case Hear(k, e) => HearsOwes(w.links[k], e);
      case _ =>
    }
  }

  /** No report takes a pending count below zero. */
  lemma {:induction false} NoUnderflow(w: World, k: Key)
    requires LinksAgree(w)
    ensures !Underflows(w, k)
  {
    hide Held, Count;
    if k in w.links && w.links[k].reported != [] {
      CountTake(w.links[k].reported);
    }
  }

  lemma {:induction false} ReportKeeps(w: World, k: Key, v: World, peer: nat)
    requires LinksAgree(w) && Reasoned(w) && Conserved(w, peer) && Next(w, Report(k), v)
    ensures LinksAgree(v) && Reasoned(v) && Conserved(v, peer)
  {
    NoUnderflow(w, k);
    var l := w.links[k];
    var e, c := l.reported[0], w.b.connections[k];
    var next := l.(reported := l.reported[1..], passed := l.passed + multiset{e});
    var used := if e.Outgoing? then c.(pending := c.pending - 1) else c;
    assert v.b.connections == w.b.connections[k := used] && v.links == w.links[k := next];
    hide Next, Reports, Owed, Held, LinkReasoned, Answers;
    OwedAfterReport(l, next);
    ReportedKeeps(w, k, v, e, used, next, peer);
  }

  lemma {:induction false} ReportedKeeps(w: World, k: Key, v: World, e: Outcome, used: Connection, l: Link, peer: nat)
    requires LinksAgree(w) && Reasoned(w) && Conserved(w, peer) && k in w.links
    requires v.b.connections == w.b.connections[k := used] && v.links == w.links[k := l]
    requires v.b.events == w.b.events + [Generate(k.peer, e)] && v.created == w.created && v.emitted == w.emitted
    requires v.owing == w.owing + multiset{Generate(k.peer, e)}
    requires used.pending == Owed(l) && LinkReasoned(l)
    requires used.Total() + (if e.Outgoing? then 1 else 0) == w.b.connections[k].Total()
    ensures LinksAgree(v) && Reasoned(v) && Conserved(v, peer)
  {
    hide Held, Owed, LinkReasoned, Connection.Total;
    var m := w.b.connections;
    AnswersPush(peer, w.b.events, Generate(k.peer, e));
    HeldUpdate(peer, m, k, used);
    forall q | q in v.links
      ensures q in v.b.connections && v.b.connections[q].pending == Owed(v.links[q]) && LinkReasoned(v.links[q])
    {
      if q != k { assert v.links[q] == w.links[q] && v.b.connections[q] == m[q]; }
    }
  }

  lemma {:induction false} OwedAfterReport(l: Link, m: Link)
    requires l.reported != [] && m == l.(reported := l.reported[1..], passed := l.passed + multiset{l.reported[0]})
    ensures Owed(l) == Owed(m) + (if l.reported[0].Outgoing? then 1 else 0)
    ensures LinkReasoned(l) ==> LinkReasoned(m)
  {
    hide Count, Sum;
    CountTake(l.reported);
    assert l.reported == [l.reported[0]] + l.reported[1..];
  }

  lemma {:induction false} NextKeepsFor(w: World, a: Action, v: World, peer: nat)
    requires LinksAgree(w) && Reasoned(w) && Conserved(w, peer) && Next(w, a, v)
    ensures LinksAgree(v) && Reasoned(v) && Conserved(v, peer)
  {
    hide LinksAgree, Reasoned, Conserved, Creates, Connects, Polls, Reports, HandlerPolls, HandlerHears, NewLink, Connection.Total, Connection.Told, Lost;
    match a
    case Create(to, k) => CreateKeeps(w, to, k, v, peer);
    case Connect(k) => ConnectKeeps(w, k, v, peer);
    case DialFails(k, conditionFalse, other) =>
      if k in w.b.connections && !conditionFalse {
        DropKeeps(w, k, other, v, peer);
      }
    case Close(k, other) =>
      CloseKeeps(w, k, other, v, peer);
    case PollBehaviour(r) => PollKeeps(w, r, v, peer);
    case Report(k) => ReportKeeps(w, k, v, peer);
    case _ => HandlerKeeps(w, a, v, peer);
  }

  lemma {:induction false} NextKeeps(w: World, a: Action, v: World)
    requires Inv(w) && Next(w, a, v)
    ensures Inv(v)
  {
    hide LinksAgree, Reasoned, Conserved, Next;
    assert Conserved(w, 0);
    NextKeepsFor(w, a, v, 0);
    forall peer ensures Conserved(v, peer) {
      assert Conserved(w, peer);
      NextKeepsFor(w, a, v, peer);
    }
  }

  // --------------------------------------------------------------------- runs

  ghost predicate Run(ws: seq<World>, actions: seq<Action>) {
    && |ws| == |actions| + 1 && ws[0] == START
    && forall i :: 0 <= i < |actions| ==> Next(ws[i], actions[i], ws[i + 1])
  }

  /** In every run, at every moment and for every peer: each request ever made for the peer is answered,
      has an answer for that peer waiting, or is held by a connection to that peer; each established
      connection has pending exactly what its handler, the swarm and the substreams under
      negotiation still owe; and no count is ever taken below zero. */
  lemma {:induction false} EveryRunConserves(ws: seq<World>, actions: seq<Action>, i: nat, peer: nat)
    requires Run(ws, actions) && i < |ws|
    ensures var w := ws[i];
            w.created[peer] == Answers(peer, w.emitted) + Answers(peer, multiset(w.b.events)) + Held(peer, w.b.connections)
    ensures forall k :: k in ws[i].links ==>
              k in ws[i].b.connections && ws[i].b.connections[k].pending == Owed(ws[i].links[k])
    ensures forall k :: !Underflows(ws[i], k)
  {
    hide Next, Reasoned, Answers;
    RunKeepsInv(ws, actions, i);
    assert Conserved(ws[i], peer);
    forall k ensures !Underflows(ws[i], k) { NoUnderflow(ws[i], k); }
  }

  /** In every run, no event is made up, altered or forgotten: what the application has received and what
      waits for it are exactly the outcomes that handlers reported, each under the peer of its
      connection, the dials, and the failures of lost connections. And what a handler heard, a stream from
      the peer, a stream to it or a failure to open one, is what it has passed on or will. */
  lemma {:induction false} EveryEventHasItsReason(ws: seq<World>, actions: seq<Action>, i: nat)
    requires Run(ws, actions) && i < |ws|
    ensures ws[i].emitted + multiset(ws[i].b.events) == ws[i].owing
    ensures forall k :: k in ws[i].links ==>
              var l := ws[i].links[k]; l.heard == multiset(l.handler.stream) + multiset(l.reported) + l.passed
  {
    hide Next, Conserved, LinksAgree;
    RunKeepsInv(ws, actions, i);
    forall k | k in ws[i].links ensures LinkReasoned(ws[i].links[k]) {
    }
  }

  lemma {:induction false} RunKeepsInv(ws: seq<World>, actions: seq<Action>, i: nat)
    requires Run(ws, actions) && i < |ws|
    ensures Inv(ws[i])
  {
    hide Next, Inv;
    if i == 0 {
      StartOk();
    } else {
      RunKeepsInv(ws, actions, i - 1);
      NextKeeps(ws[i - 1], actions[i - 1], ws[i]);
    }
  }

  lemma {:induction false} StartOk()
    ensures Inv(START)
  {
  }

  /** When nothing is held and no event waits, the application has received one outcome for
      every request, under the peer it was made for. */
  lemma {:induction false} QuietMeansAnswered(ws: seq<World>, actions: seq<Action>, i: nat, peer: nat)
    requires Run(ws, actions) && i < |ws|
    requires ws[i].b.events == [] && ws[i].b.connections == map[]
    ensures ws[i].created[peer] == Answers(peer, ws[i].emitted)
  {
    EveryRunConserves(ws, actions, i, peer);
  }

  /** The count for its peer survives a report if and only if the connection is tracked or the report is of an
      incoming stream. Of an untracked connection an outgoing outcome is generated, but nothing held
      is taken away for it, so that the request counts twice. Other peers' counts survive. */
  lemma {:induction false} ReportKeepsCount(s: State, k: Key, e: Outcome, peer: nat)
    requires e.Outgoing? && k in s.connections ==> s.connections[k].pending > 0
    ensures var t := Reports(s, k, e);
            var before := Answers(peer, multiset(s.events)) + Held(peer, s.connections);
            var after := Answers(peer, multiset(t.events)) + Held(peer, t.connections);
            && (after == before <==> k in s.connections || e.Incoming? || peer != k.peer)
            && (k !in s.connections && e.Outgoing? && peer == k.peer ==> after == before + 1)
  {
    hide Held;
    AnswersPush(peer, s.events, Generate(k.peer, e));
    if k in s.connections && e.Outgoing? {
      HeldUpdate(peer, s.connections, k, s.connections[k].(pending := s.connections[k].pending - 1));
    }
  }
}
