/** Two endpoints of the encrypted stream and the wire between them, under every
    interleaving of writes, flushes and reads. */
module OpfuskRuns {
  import opened Wrappers
  import opened Octets
  import opened Framing
  import opened Opfusk

  lemma {:induction false} FlatOfPrefix(v: View, xs: seq<Chunk>, ys: seq<Chunk>)
    requires xs <= ys
    ensures Flat(v, xs) <= Flat(v, ys)
  {
    hide *;
    FlatSplit(v, ys, |xs|);
    assert ys[..|xs|] == xs;
  }

  /** What the reader has opened is the beginning of what the writer has sealed, and what is
      left unopened is the beginning of the remaining frames. */
  lemma {:induction false} ReaderFollows(a: Output, b: Output, w: Wire)
    requires a.Sending(w) && b.Receiving(w) && a.aead == b.aead && GoodCapacity(a.cap)
    ensures b.history <= a.chunks && b.readableEnd <= |b.readBuffer|
    ensures b.readBuffer[b.readableEnd..] <= Flat(OnWire, a.chunks[|b.history|..])
    ensures AllAuthentic(a.aead, a.chunks) && ChunksFit(a.chunks, a.cap)
  {
    ShortIsAuthentic(a.aead, a.cap, a.chunks);
    hide Flat, AllAuthentic, AllGenuine, ChunksFit;
    var t := b.readBuffer[b.readableEnd..];
    var sealed := Flat(OnWire, a.chunks);
    assert w.put <= sealed && w.got <= w.put;
    OpenedIsPrefix(a.aead, b.history, a.chunks, t);
    var n := |b.history|;
    FlatSplit(OnWire, a.chunks, n);
    assert a.chunks[..n] == b.history;
    var h := Flat(OnWire, b.history);
    var rest := Flat(OnWire, a.chunks[n..]);
    assert h + t <= h + rest;
    assert (h + t)[|h|..] == t && (h + rest)[|h|..] == rest;
    assert t <= rest by {
      assert |t| <= |rest|;
      assert forall i :: 0 <= i < |t| ==> t[i] == (h + t)[|h| + i] == (h + rest)[|h| + i];
    }
  }

  lemma {:induction false} ShortIsAuthentic(a: Aead, cap: nat, cs: seq<Chunk>)
    requires GoodCapacity(cap) && AllGenuine(a, cs) && ChunksFit(cs, cap)
    ensures AllAuthentic(a, cs)
  {
    forall i | 0 <= i < |cs| ensures cs[i].Authentic(a) {
      assert cs[i].Genuine(a);
    }
  }

  lemma {:induction false} TailAuthentic(a: Aead, cs: seq<Chunk>, k: nat)
    requires AllAuthentic(a, cs) && k <= |cs|
    ensures AllAuthentic(a, cs[k..])
  {
    forall i | 0 <= i < |cs[k..]| ensures cs[k..][i].Authentic(a) {
      assert cs[k..][i] == cs[k + i];
    }
  }

  /** The text copied out is a prefix of the text taken in. */
  lemma {:induction false} DeliveredIsPrefix(a: Output, b: Output, w: Wire)
    requires a.Sending(w) && b.Receiving(w) && a.aead == b.aead && GoodCapacity(a.cap)
    ensures b.delivered <= a.accepted
  {
    ReaderFollows(a, b, w);
    hide Flat, AllAuthentic, AllGenuine, ChunksFit;
    FlatOfPrefix(Plain, b.history[..b.begun], a.chunks);
  }

  /** The next frame of an honest writer, once it is whole, always opens. */
  lemma {:induction false} NeverDenied(a: Output, b: Output, w: Wire)
    requires a.Sending(w) && b.Receiving(w) && a.aead == b.aead && GoodCapacity(a.cap)
    ensures b.readableEnd <= |b.readBuffer|
    ensures var t := b.readBuffer[b.readableEnd..];
            HasFrame(t) ==> a.aead.open(FrontSealed(t)).Some?
  {
    ReaderFollows(a, b, w);
    hide Flat, ReadOk, SendOk;
    var n := |b.history|;
    TailAuthentic(a.aead, a.chunks, n);
    LeftoverIsPartial(a.aead, a.chunks[n..], b.readBuffer[b.readableEnd..]);
    if n < |a.chunks| {
      assert a.chunks[n..][0] == a.chunks[n];
      assert a.chunks[n].Authentic(a.aead);
    }
  }

  /** A reader whose buffer is at least as long as the writer's longest frame never gets
      stuck on a frame: when it has room and nothing to copy, its buffer is not full. */
  lemma {:induction false} NoFrameIsTooLong(a: Output, b: Output, w: Wire)
    requires a.Sending(w) && b.Receiving(w) && a.aead == b.aead && GoodCapacity(a.cap)
    requires b.Idle() && a.cap <= b.cap + TAG_SIZE
    ensures !(b.readableEnd == 0 && |b.readBuffer| == b.cap)
  {
    ReaderFollows(a, b, w);
    hide Flat, ReadOk, SendOk, HasFrame;
    var n := |b.history|;
    var t := b.readBuffer[b.readableEnd..];
    TailAuthentic(a.aead, a.chunks, n);
    LeftoverIsPartial(a.aead, a.chunks[n..], t);
    FlatEmpty(OnWire);
    assert 0 < a.cap - TAG_SIZE;
    if n < |a.chunks| {
      assert a.chunks[n..][0] == a.chunks[n];
      assert |t| < |a.chunks[n].text| + TAG_SIZE <= a.cap - TAG_SIZE;
    } else {
      assert a.chunks[n..] == [];
      assert |t| == 0;
    }
  }

  /** Once everything taken in is on the wire, the wire is empty and the reader is idle, the
      text copied out is the text taken in. */
  lemma {:induction false} DrainedMeansEqual(a: Output, b: Output, w: Wire)
    requires a.Sending(w) && b.Receiving(w) && a.aead == b.aead && GoodCapacity(a.cap)
    requires a.Flushed() && w.inFlight == [] && b.Idle()
    ensures b.delivered == a.accepted
  {
    ReaderFollows(a, b, w);
    hide Flat, AllAuthentic, AllGenuine, ChunksFit, HasFrame, Show;
    var n := |b.history|;
    var t := b.readBuffer[b.readableEnd..];
    var more := a.chunks[n..];
    FlatSplit(OnWire, a.chunks, n);
    assert a.chunks[..n] == b.history;
    assert a.writeBuffer[a.writableStart..a.writableEnd] == [];
    assert w.got == w.put == Flat(OnWire, a.chunks);
    var h := Flat(OnWire, b.history);
    assert |h| + |t| == |h| + |Flat(OnWire, more)|;
    TailAuthentic(a.aead, a.chunks, n);
    LeftoverIsPartial(a.aead, more, t);
    FirstFrameFits(a.aead, more);
    assert more == [];
    assert b.history == a.chunks;
    NothingOpened(b.aead, b.history[b.begun..]);
    assert b.readBuffer[b.readableStart..b.readableEnd] == [];
    assert b.history[..b.begun] == b.history;
    assert a.writeBuffer[a.writableEnd + TAG_SIZE..] == [];
    assert b.readBuffer[b.readableStart..b.readableStart + b.chunkReminder] == [];
    assert b.delivered + [] == b.delivered;
    assert a.accepted == Flat(Plain, a.chunks) + [];
  }

  lemma {:induction false} FirstFrameFits(a: Aead, cs: seq<Chunk>)
    requires AllAuthentic(a, cs)
    ensures cs != [] ==> |cs[0].text| + TAG_SIZE <= |Flat(OnWire, cs)|
  {
    if cs != [] {
      FlatStep(OnWire, cs);
      assert cs[0].Authentic(a);
      ShowOnWire(a, cs[0], []);
    }
  }

  /** An opened frame takes up space in the read buffer even when its text is empty. */
  lemma {:induction false} NothingOpened(a: Aead, cs: seq<Chunk>)
    ensures Flat(Opened, cs) == [] ==> cs == []
  {
    if cs != [] {
      FlatStep(Opened, cs);
      assert |Show(Opened, cs[0])| >= 2;
    }
  }

  // --------------------------------------------------------------------- runs

  datatype Action =
    | Write(data: seq<Byte>, replies: seq<Reply>)
    | Flush(replies: seq<Reply>)
    | Read(room: nat, replies: seq<Reply>)

  /** What a call takes in, going by its result. */
  function TakenBy(action: Action, r: Poll): seq<Byte> {
    if action.Write? && r.Ready? && r.n <= |action.data| then action.data[..r.n] else []
  }

  function CountBy(action: Action, r: Poll): nat { if action.Read? && r.Ready? then r.n else 0 }

  /** What the writes took: a prefix of each one's data, as long as it said. */
  function Taken(actions: seq<Action>, results: seq<Poll>): seq<Byte>
    requires |results| <= |actions|
    decreases |results|
  {
    if results == [] then []
    else
      var n := |results| - 1;
      Taken(actions, results[..n]) + TakenBy(actions[n], results[n])
  }

  lemma {:induction false} TakenMore(actions: seq<Action>, results: seq<Poll>, r: Poll)
    requires |results| < |actions|
    ensures Taken(actions, results + [r]) == Taken(actions, results) + TakenBy(actions[|results|], r)
  {
    assert (results + [r])[..|results|] == results;
  }

  /** A result that the call may have. */
  predicate Fits(action: Action, r: Poll) {
    match action
    case Write(data, _) => r.Ready? ==> 0 < r.n <= |data|
    case Flush(_) => true
    case Read(room, _) => r.Ready? ==> 0 < r.n <= room
  }

  /** What the reads delivered, as many bytes as each of them said. */
  function Count(actions: seq<Action>, results: seq<Poll>): nat
    requires |results| <= |actions|
    decreases |results|
  {
    if results == [] then 0
    else
      var n := |results| - 1;
      Count(actions, results[..n]) + CountBy(actions[n], results[n])
  }

  lemma {:induction false} CountMore(actions: seq<Action>, results: seq<Poll>, r: Poll)
    requires |results| < |actions|
    ensures Count(actions, results + [r]) == Count(actions, results) + CountBy(actions[|results|], r)
  {
    assert (results + [r])[..|results|] == results;
  }

  /** As long as nothing has been taken there is room for something. */
  lemma {:induction false} RoomAtFirst(a: Output, w: Wire)
    requires a.Sending(w) && a.accepted == []
    ensures |a.writeBuffer| + TAG_SIZE < a.cap
  {
    hide Show, AllGenuine;
    if a.chunks != [] {
      FlatStep(Plain, a.chunks);
      FlatStep(OnWire, a.chunks);
      assert |a.chunks[0].text| > 0 && Show(Plain, a.chunks[0]) == a.chunks[0].text by { ShowPlain(a.chunks[0]); }
    } else {
      FlatEmpty(OnWire);
    }
  }

  lemma {:induction false} ShowPlain(c: Chunk)
    ensures Show(Plain, c) == c.text
  {
  }

  /** Everything written has been handed over, nothing is on the wire, and the reader has nothing left
      to copy out or to open. */
  ghost predicate Drained(a: Output, b: Output, w: Wire)
    reads a, b, w
  {
    a.Flushed() && b.Idle() && w.inFlight == []
  }

  /** The two endpoints and the wire between them. */
  ghost predicate Paired(a: Output, b: Output, w: Wire)
    reads a, b, w
  {
    a.Sending(w) && b.Receiving(w) && a.aead == b.aead && a != b && GoodCapacity(a.cap)
  }

  method WriteOnce(a: Output, b: Output, w: Wire, data: seq<Byte>, replies: seq<Reply>) returns (r: Poll)
    requires Paired(a, b, w)
    modifies a, w
    ensures Paired(a, b, w) && r != Failed(PermissionDenied) && (r.Ready? ==> 0 < r.n <= |data|)
    ensures !r.Failed? ==> a.accepted == old(a.accepted) + if r.Ready? then data[..r.n] else []
    ensures old(a.accepted) == [] && data != [] ==> !r.Pending?
  {
    hide SendOk, ReadOk, Aead.Lawful, Roomy, Trace, Remains, Consumed, Offers;
    w.script := replies;
    ghost var trace;
    r, trace := a.PollWrite(w, data);
    if a.accepted == [] { RoomAtFirst(a, w); }
  }

  method FlushOnce(a: Output, b: Output, w: Wire, replies: seq<Reply>) returns (r: Poll)
    requires Paired(a, b, w)
    modifies a, w
    ensures Paired(a, b, w) && r != Failed(PermissionDenied) && a.accepted == old(a.accepted)
  {
    hide SendOk, ReadOk, Aead.Lawful, Roomy, Output.Flushed;
    w.script := replies;
    r := a.PollFlush(w);
  }

  /** A reader whose buffer is long enough is not stuck, that is, it comes back with room left only when the
      inner stream is not ready. */
  method ReadOnce(a: Output, b: Output, w: Wire, room: nat, replies: seq<Reply>) returns (r: Poll, read: seq<Byte>, stuck: bool)
    requires Paired(a, b, w)
    modifies b, w
    ensures Paired(a, b, w) && r != Failed(PermissionDenied) && (r.Ready? ==> 0 < r.n <= room)
    ensures b.delivered == old(b.delivered) + read
    ensures !r.Failed? ==> |read| == if r.Ready? then r.n else 0
    ensures a.cap <= b.cap + TAG_SIZE ==> !stuck
  {
    hide SendOk, ReadOk, Aead.Lawful, Roomy, HasFrame, FrontSealed, Output.Idle;
    w.script := replies;
    r, read := b.PollRead(w, room);
    NeverDenied(a, b, w);
    if a.cap <= b.cap + TAG_SIZE && !r.Failed? && |read| < room { NoFrameIsTooLong(a, b, w); }
    stuck := !r.Failed? && |read| < room && !w.stalled;
  }

  /** One call with any behaviour of the inner stream. */
  method Perform(a: Output, b: Output, w: Wire, action: Action) returns (r: Poll, read: seq<Byte>, stuck: bool)
    requires Paired(a, b, w)
    modifies a, b, w
    ensures Paired(a, b, w) && r != Failed(PermissionDenied) && Fits(action, r)
    ensures !r.Failed? ==> a.accepted == old(a.accepted) + TakenBy(action, r)
    ensures !r.Failed? ==> b.delivered == old(b.delivered) + read && |read| == CountBy(action, r)
    ensures old(a.accepted) == [] && action.Write? && action.data != [] ==> !r.Pending?
    ensures a.cap <= b.cap + TAG_SIZE ==> !stuck
  {
    PairedApart(a, b, w);
    hide Paired;
    read, stuck := [], false;
    match action {
      case Write(data, replies) =>
        r := WriteOnce(a, b, w, data, replies);
      case Flush(replies) =>
        r := FlushOnce(a, b, w, replies);
      case Read(room, replies) =>
        r, read, stuck := ReadOnce(a, b, w, room, replies);
    }
  }

  lemma {:induction false} PairedApart(a: Output, b: Output, w: Wire)
    requires Paired(a, b, w)
    ensures a != b
  {
  }

  /** Runs any interleaving of calls, each with any behaviour of the inner stream, up to the
      first error; there is one result for each call made. The text taken in is what the writes took, and
      something was taken if there was anything to write. What the reader was given is always a prefix of
      what was taken; no frame is ever refused; a reader whose buffer is long enough is never stuck; and
      once everything has drained, the two texts are equal. */
  method Converse(aead: Aead, writerCap: nat, readerCap: nat, actions: seq<Action>)
    returns (accepted: seq<Byte>, delivered: seq<Byte>, results: seq<Poll>, stuck: bool, failure: Option<IoError>,
             a: Output, b: Output, w: Wire)
    requires aead.Lawful() && GoodCapacity(writerCap)
    ensures a.aead == b.aead == aead && a.cap == writerCap && b.cap == readerCap
    ensures a.Sending(w) && b.Receiving(w)
    ensures |results| <= |actions| && (failure == None ==> |results| == |actions|)
    ensures forall i :: 0 <= i < |results| ==> Fits(actions[i], results[i])
    ensures forall i :: 0 <= i < |results| ==> (results[i].Failed? <==> i == |results| - 1 && failure != None)
    ensures failure.Some? ==> results != [] && results[|results| - 1] == Failed(failure.value)
    ensures accepted == Taken(actions, results) && |delivered| == Count(actions, results)
    ensures failure == None && HasText(actions) ==> accepted != []
    ensures delivered <= accepted
    ensures failure != Some(PermissionDenied)
    ensures writerCap <= readerCap + TAG_SIZE ==> !stuck
    ensures failure == None ==> accepted == a.accepted && delivered == b.delivered
    ensures failure == None && Drained(a, b, w) ==> delivered == accepted
  {
    hide Paired, Aead.Lawful, GoodCapacity, Drained, Taken, Count, HasText, Output.Sending, Output.Receiving;
    w := new Wire();
    a := new Output(aead, writerCap);
    SendsAtFirst(a, w);
    b := new Output(aead, readerCap);
    ArePaired(a, b, w);
    accepted, delivered, stuck, failure, results := [], [], false, None, [];
    NothingYet(actions);
    var i := 0;
    while i < |actions|
      invariant i == |results| <= |actions| && fresh(a) && fresh(b) && fresh(w)
      invariant Paired(a, b, w) && a.aead == b.aead == aead && a != b
      invariant a.cap == writerCap && b.cap == readerCap
      invariant accepted == a.accepted && delivered == b.delivered && delivered <= accepted
      invariant accepted == Taken(actions, results) && |delivered| == Count(actions, results)
      invariant forall k :: 0 <= k < i ==> Fits(actions[k], results[k]) && !results[k].Failed?
      invariant HasText(actions[..i]) ==> accepted != []
      invariant failure == None && (writerCap <= readerCap + TAG_SIZE ==> !stuck)
    {
      var r, read, isStuck := Perform(a, b, w, actions[i]);
      TakenMore(actions, results, r);
      CountMore(actions, results, r);
      TextSoFar(actions, i, r);
      results := results + [r];
      WhatPaired(a, b, w);
      if r.Failed? {
        failure := Some(r.error);
        return;
      }
      accepted, delivered, stuck := accepted + TakenBy(actions[i], r), delivered + read, stuck || isStuck;
      i := i + 1;
    }
    assert actions[..i] == actions;
    WhatPaired(a, b, w);
  }

  /** Some write has something to write. */
  ghost predicate HasText(actions: seq<Action>) {
    exists i :: 0 <= i < |actions| && actions[i].Write? && actions[i].data != []
  }

  lemma {:induction false} TextSoFar(actions: seq<Action>, i: nat, r: Poll)
    requires i < |actions| && Fits(actions[i], r)
    ensures HasText(actions[..i + 1]) ==>
              HasText(actions[..i]) || (actions[i].Write? && actions[i].data != [] && (r.Ready? ==> TakenBy(actions[i], r) != []))
  {
    assert forall k :: 0 <= k < i ==> actions[..i + 1][k] == actions[..i][k];
  }

  lemma {:induction false} NothingYet(actions: seq<Action>)
    ensures Taken(actions, []) == [] && Count(actions, []) == 0 && !HasText(actions[..0])
  {
  }

  lemma {:induction false} SendsAtFirst(a: Output, w: Wire)
    requires w.Valid() && w.put == [] && GoodCapacity(a.cap)
    requires forall v: Wire :: v.Valid() && v.put == [] && Roomy(a.cap) ==> a.Sending(v)
    ensures a.Sending(w)
  {
  }

  lemma {:induction false} ArePaired(a: Output, b: Output, w: Wire)
    requires a.Sending(w) && b.Receiving(w) && a.aead == b.aead && a != b && GoodCapacity(a.cap)
    ensures Paired(a, b, w)
  {
  }

  lemma {:induction false} WhatPaired(a: Output, b: Output, w: Wire)
    requires Paired(a, b, w)
    ensures a.Sending(w) && b.Receiving(w) && b.delivered <= a.accepted
    ensures Drained(a, b, w) ==> b.delivered == a.accepted
  {
    hide Output.Sending, Output.Receiving, Drained;
    DeliveredIsPrefix(a, b, w);
    Equal(a, b, w);
  }

  lemma {:induction false} Equal(a: Output, b: Output, w: Wire)
    requires a.Sending(w) && b.Receiving(w) && a.aead == b.aead && GoodCapacity(a.cap)
    ensures Drained(a, b, w) ==> b.delivered == a.accepted
  {
    if Drained(a, b, w) {
      DrainedMeansEqual(a, b, w);
    }
  }
}
