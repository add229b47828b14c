/** Requests for streams to peers. The behaviour counts, per connection, the requests its
    handler has been told of (pending) and those it has not (new); the handler turns them
    into substream requests and reports every outcome back.

    A connection is identified by its peer and its own number. */
module Streaming {

  datatype Key = Key(peer: nat, cid: nat)

  datatype Connection = Connection(pending: nat, unsent: nat)
  {
    function Total(): nat { pending + unsent }

    /** The handler is told of everything. */
    function Told(): (c: Connection)
      ensures c.pending == c.Total() == Total() && c.unsent == 0
    {
      Connection(pending + unsent, 0)
    }
  }

  /** An outcome of a request, or an incoming stream. */
  datatype Outcome = Incoming | Outgoing(ok: bool)

  datatype ToSwarm = Dial(key: Key) | Generate(peer: nat, outcome: Outcome)

  datatype PollResult = Notify(key: Key, count: nat) | Emit(event: ToSwarm) | Idle

  datatype State = State(connections: map<Key, Connection>, events: seq<ToSwarm>)

  // ---------------------------------------------------------- behaviour's steps

  ghost predicate Knows(s: State, peer: nat) {
    exists k :: k in s.connections && k.peer == peer
  }

  /** The connection to a peer that happens to come first. */
  ghost predicate First(s: State, peer: nat, k: Key) {
    k in s.connections && k.peer == peer
  }

  function AddUnsent(s: State, k: Key, n: nat): State
    requires k in s.connections
  {
    s.(connections := s.connections[k := s.connections[k].(unsent := s.connections[k].unsent + n)])
  }

  /** `create_stream`: a known connection takes the request, or a new one is dialled. */
  ghost predicate Creates(s: State, peer: nat, k: Key, t: State) {
    if Knows(s, peer) then First(s, peer, k) && t == AddUnsent(s, k, 1)
    else
      && k.peer == peer && k !in s.connections
      && t == State(s.connections[k := Connection(0, 1)], s.events + [Dial(k)])
  }

  function Entry(m: map<Key, Connection>, k: Key): (c: Connection)
    ensures k in m ==> c == m[k]
    ensures k !in m ==> c.Total() == 0
  {
    if k in m then m[k] else Connection(0, 0)
  }

  /** `new_handler`: everything becomes pending, and the handler is told of all of it. */
  function Connects(s: State, k: Key): State {
    s.(connections := s.connections[k := Entry(s.connections, k).Told()])
  }

  function Failures(peer: nat, n: nat): seq<ToSwarm> {
    seq(n, _ => Generate(peer, Outgoing(false)))
  }

  /** A connection is gone: another to the same peer takes over its requests, or they fail. */
  ghost predicate Drops(s: State, k: Key, other: Key, t: State)
    requires k in s.connections
  {
    var total := s.connections[k].Total();
    var rest := State(s.connections - {k}, s.events);
    if Knows(rest, k.peer) then First(rest, k.peer, other) && t == AddUnsent(rest, other, total)
    else t == rest.(events := rest.events + Failures(k.peer, total))
  }

  /** `on_connection_handler_event` for a connection that is tracked with something pending. */
  function Reports(s: State, k: Key, e: Outcome): State
    requires e.Outgoing? && k in s.connections ==> s.connections[k].pending > 0
  {
    var t := s.(events := s.events + [Generate(k.peer, e)]);
    if e.Outgoing? && k in s.connections
    then t.(connections := t.connections[k := t.connections[k].(pending := t.connections[k].pending - 1)])
    else t
  }

  ghost predicate HasUnsent(s: State) {
    exists k :: k in s.connections && s.connections[k].unsent > 0
  }

  ghost predicate Polls(s: State, r: PollResult, t: State) {
    if HasUnsent(s) then
      && r.Notify? && r.key in s.connections && s.connections[r.key].unsent == r.count > 0
      && t == s.(connections := s.connections[r.key := s.connections[r.key].Told()])
    else if s.events != [] then
      var n := |s.events| - 1;
      r == Emit(s.events[n]) && t == s.(events := s.events[..n])
    else r == Idle && t == s
  }

  class Behaviour {
    var connections: map<Key, Connection>
    var events: seq<ToSwarm>

    ghost function Value(): State reads this { State(connections, events) }

    constructor ()
      ensures Value() == State(map[], [])
    {
      connections, events := map[], [];
    }

    /** `next` is the number the next dialled connection gets. */
    method CreateStream(peer: nat, next: nat)
      requires Key(peer, next) !in connections
      modifies this
      ensures exists k :: Creates(old(Value()), peer, k, Value())
      ensures events == old(events) || events == old(events) + [Dial(Key(peer, next))]
    {
      ghost var s := Value();
      var known := set k | k in connections && k.peer == peer;
      if known != {} {
        var k :| k in known;
        connections := connections[k := connections[k].(unsent := connections[k].unsent + 1)];
        assert First(s, peer, k);
        assert Creates(s, peer, k, Value());
      } else {
        var k := Key(peer, next);
        assert !Knows(s, peer) by {
          forall q | q in connections ensures q.peer != peer { assert q !in known; }
        }
        connections := connections[k := Connection(0, 1)];
        events := events + [Dial(k)];
        assert Creates(s, peer, k, Value());
      }
    }

    method NewHandler(k: Key) returns (h: Handler)
      modifies this
      ensures Value() == Connects(old(Value()), k)
      ensures fresh(h) && h.Value() == HandlerState(connections[k].pending, [])
    {
      hide Entry, Connection.Total, Connection.Told;
      var c := Entry(connections, k);
      connections := connections[k := c.Told()];
      h := new Handler(connections[k].pending);
    }

    /** Both ways a connection goes: `DialFailure`, unless only the dialling condition did not
        hold, and `ConnectionClosed`. */
    method ConnectionGone(k: Key, conditionFalse: bool)
      modifies this
      ensures k !in old(connections) || conditionFalse ==> Value() == old(Value())
      ensures k in old(connections) && !conditionFalse ==>
                exists other :: Drops(old(Value()), k, other, Value())
    {
      if k !in connections || conditionFalse { return; }
      ghost var s := Value();
      ghost var rest := State(s.connections - {k}, s.events);
      var total := connections[k].Total();
      connections := connections - {k};
      var others := set q | q in connections && q.peer == k.peer;
      if others != {} {
        var other :| other in others;
        connections := connections[other := connections[other].(unsent := connections[other].unsent + total)];
        assert First(rest, k.peer, other);
        assert Drops(s, k, other, Value());
      } else {
        assert !Knows(rest, k.peer) by {
          forall q | q in connections ensures q.peer != k.peer { assert q !in others; }
        }
        var i := 0;
        while i < total
          invariant i <= total && connections == rest.connections
          invariant events == s.events + Failures(k.peer, i)
        {
          assert Failures(k.peer, i + 1) == Failures(k.peer, i) + [Generate(k.peer, Outgoing(false))];
          events := events + [Generate(k.peer, Outgoing(false))];
          i := i + 1;
        }
        assert Drops(s, k, k, Value());
      }
    }

    method OnConnectionHandlerEvent(k: Key, e: Outcome)
      requires e.Outgoing? && k in connections ==> connections[k].pending > 0
      modifies this
      ensures Value() == Reports(old(Value()), k, e)
      ensures events == old(events) + [Generate(k.peer, e)]
    {
      if e.Outgoing? && k in connections {
        connections := connections[k := connections[k].(pending := connections[k].pending - 1)];
      }
      events := events + [Generate(k.peer, e)];
    }

    method Poll() returns (r: PollResult)
      modifies this
      ensures Polls(old(Value()), r, Value())
      ensures r.Notify? ==> connections[r.key] == Connection(old(connections[r.key].pending) + r.count, 0) && events == old(events)
      ensures r.Emit? ==> connections == old(connections) && old(events) == events + [r.event]
    {
      ghost var s := Value();
      var found := set k | k in connections && connections[k].unsent > 0;
      if found != {} {
        var k :| k in found;
        assert HasUnsent(s);
        r := Notify(k, connections[k].unsent);
        connections := connections[k := Connection(connections[k].pending + connections[k].unsent, 0)];
        return;
      }
      assert !HasUnsent(s) by {
        forall q | q in connections ensures connections[q].unsent == 0 { assert q !in found; }
      }
      if events != [] {
        r := Emit(events[|events| - 1]);
        events := events[..|events| - 1];
        return;
      }
      r := Idle;
    }
  }

  // ------------------------------------------------------------ handler's steps

  datatype HandlerState = HandlerState(toRequest: nat, stream: seq<Outcome>)

  datatype HandlerPoll = NotifyBehaviour(outcome: Outcome) | RequestSubstream | HandlerIdle

  datatype ConnectionEvent = NegotiatedInbound | NegotiatedOutbound | UpgradeError | Other

  function HandlerPolls(h: HandlerState): (HandlerPoll, HandlerState) {
    if h.stream != [] then
      var n := |h.stream| - 1;
      (NotifyBehaviour(h.stream[n]), h.(stream := h.stream[..n]))
    else if h.toRequest > 0 then (RequestSubstream, h.(toRequest := h.toRequest - 1))
    else (HandlerIdle, h)
  }

  function HandlerHears(h: HandlerState, e: ConnectionEvent): HandlerState {
    match e
    case NegotiatedInbound => h.(stream := h.stream + [Incoming])
    case NegotiatedOutbound => h.(stream := h.stream + [Outgoing(true)])
    case UpgradeError => h.(stream := h.stream + [Outgoing(false)])
    case Other => h
  }

  class Handler {
    var toRequest: nat
    var stream: seq<Outcome>

    ghost function Value(): HandlerState reads this { HandlerState(toRequest, stream) }

    constructor (toRequest: nat)
      ensures Value() == HandlerState(toRequest, [])
    {
      this.toRequest, stream := toRequest, [];
    }

    method Poll() returns (r: HandlerPoll)
      modifies this
      ensures (r, Value()) == HandlerPolls(old(Value()))
      ensures r.NotifyBehaviour? ==> old(stream) == stream + [r.outcome] && toRequest == old(toRequest)
      ensures r.RequestSubstream? ==> stream == old(stream) == [] && toRequest + 1 == old(toRequest)
    {
      if stream != [] {
        r := NotifyBehaviour(stream[|stream| - 1]);
        stream := stream[..|stream| - 1];
      } else if toRequest > 0 {
        toRequest := toRequest - 1;
        r := RequestSubstream;
      } else {
        r := HandlerIdle;
      }
    }

    method OnBehaviourEvent(count: nat)
      modifies this
      ensures Value() == old(Value()).(toRequest := old(toRequest) + count)
    {
      toRequest := toRequest + count;
    }

    method OnConnectionEvent(e: ConnectionEvent)
      modifies this
      ensures Value() == HandlerHears(old(Value()), e)
      ensures stream == match e
                        case NegotiatedInbound => old(stream) + [Incoming]
                        case NegotiatedOutbound => old(stream) + [Outgoing(true)]
                        case UpgradeError => old(stream) + [Outgoing(false)]
                        case Other => old(stream)
    {
      match e {
        case NegotiatedInbound => stream := stream + [Incoming];
        case NegotiatedOutbound => stream := stream + [Outgoing(true)];
        case UpgradeError => stream := stream + [Outgoing(false)];
        case Other =>
      }
    }
  }
}
