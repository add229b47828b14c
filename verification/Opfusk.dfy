/** The encrypted stream: an endpoint buffers what the application writes, seals it into
    frames and hands the frames to an inner stream piece by piece; the other endpoint reads
    pieces, opens whole frames in place and copies their text out.

    The inner stream answers every poll as an arbitrary script says. */
module Opfusk {
  import opened Wrappers
  import opened Arithmetic
  import opened Octets
  import opened Framing

  datatype IoError = WriteZero | UnexpectedEof | PermissionDenied | Inner

  datatype Poll = Pending | Ready(n: nat) | Failed(error: IoError)

  /** What the inner stream does when polled: nothing yet, move up to n bytes, or fail. */
  datatype Reply = NotYet | Move(n: nat) | Break

  /** The inner stream in one direction: the bytes in flight and the script of its answers. */
  class Wire {
    var inFlight: seq<Byte>
    var script: seq<Reply>
    /** The last poll was answered with `Pending`. */
    var stalled: bool
    var polls: nat
    /** Everything ever written to the wire, and everything ever read from it. */
    ghost var put: seq<Byte>
    ghost var got: seq<Byte>

    ghost predicate Valid() reads this { put == got + inFlight }

    constructor ()
      ensures Valid() && put == [] && got == [] && inFlight == [] && script == []
    {
      inFlight, script, stalled, polls := [], [], false, 0;
      put, got := [], [];
    }

    method NextReply() returns (r: Reply)
      modifies `script, `polls
      ensures polls == old(polls) + 1
      ensures r == (if old(script) == [] then NotYet else old(script)[0])
      ensures script == (if old(script) == [] then [] else old(script)[1..])
    {
      polls := polls + 1;
      if script == [] { return NotYet; }
      r, script := script[0], script[1..];
    }

    method PollWrite(data: seq<Byte>) returns (r: Poll)
      requires Valid()
      modifies this
      ensures Valid() && polls == old(polls) + 1 && got == old(got)
      ensures !r.Pending? ==> |script| < |old(script)|
      ensures stalled == r.Pending?
      ensures old(script) != [] && old(script)[0] == Break ==> r.Failed?
      ensures old(script) == [] ==> r.Pending? && script == []
      ensures r.Ready? ==> r.n <= |data| && put == old(put) + data[..r.n]
      ensures !r.Ready? ==> put == old(put)
      ensures r.Failed? ==> r.error == Inner
    {
      var reply := NextReply();
      stalled := reply.NotYet?;
      match reply {
        case NotYet => r := Pending;
        case Break => r := Failed(Inner);
        case Move(n) =>
          var m := Min(n, |data|);
          inFlight := inFlight + data[..m];
          put := put + data[..m];
          r := Ready(m);
      }
    }

    method PollFlush() returns (r: Poll)
      requires Valid()
      modifies this
      ensures Valid() && polls == old(polls) + 1 && put == old(put) && got == old(got)
      ensures stalled == r.Pending?
      ensures r.Failed? ==> r.error == Inner
    {
      var reply := NextReply();
      stalled := reply.NotYet?;
      r := match reply case NotYet => Pending case Break => Failed(Inner) case Move(_) => Ready(0);
    }

    /** Reads up to `space` bytes; `Ready(0)` means the other side has closed. */
    method PollRead(space: nat) returns (r: Poll, data: seq<Byte>)
      requires Valid() && 0 < space
      modifies this
      ensures Valid() && polls == old(polls) + 1 && put == old(put) && got == old(got) + data
      ensures stalled == r.Pending?
      ensures old(script) != [] && old(script)[0] == Move(0) ==> r == Ready(0)
      ensures |inFlight| == |old(inFlight)| - |data|
      ensures if r.Ready? then |data| == r.n <= space else data == []
      ensures r.Failed? ==> r.error == Inner
    {
      var reply := NextReply();
      data := [];
      if reply.Break? {
        stalled, r := false, Failed(Inner);
      } else if reply == Move(0) {
        stalled, r := false, Ready(0);
      } else if reply.NotYet? || inFlight == [] {
        stalled, r := true, Pending;
      } else {
        var m := Min(Min(reply.n, space), |inFlight|);
        data := inFlight[..m];
        inFlight := inFlight[m..];
        got := got + data;
        stalled, r := false, Ready(m);
        assert data + inFlight == old(inFlight);
      }
    }
  }

  // --------------------------------------------------------------- write side

  /** `encrypt_in_progress` on the write buffer: seals what follows the header at `end`. */
  function Encrypted(a: Aead, nonce: nat, buffer: seq<Byte>, end: nat): seq<Byte>
    requires end + TAG_SIZE <= |buffer|
  {
    var message := buffer[end + TAG_SIZE..];
    var s := a.seal(message, nonce);
    buffer[..end] + (ToU16(|message|) + s.tag + s.body) + ZeroBytes(TAG_SIZE)
  }

  /** A header is less than half the buffer: what the writing loop needs. */
  predicate Roomy(cap: nat) { TAG_SIZE < cap / 2 }

  /** Also, a frame that fills the buffer has a body whose length fits the header. */
  predicate GoodCapacity(cap: nat) { Roomy(cap) && cap - 2 * TAG_SIZE < 0x1_0000 }

  ghost predicate ChunksFit(cs: seq<Chunk>, cap: nat) {
    forall i :: 0 <= i < |cs| ==> 0 < |cs[i].text| <= cap - 2 * TAG_SIZE
  }

  /** The write buffer: sealed frames not yet handed over, a header's space, unsealed text. */
  ghost predicate SendOk(a: Aead, cap: nat, buffer: seq<Byte>, start: nat, end: nat,
                         chunks: seq<Chunk>, accepted: seq<Byte>, put: seq<Byte>)
  {
    && start <= end && end + TAG_SIZE <= |buffer| <= cap && start <= |put|
    && (|buffer| == end + TAG_SIZE || |buffer| + TAG_SIZE <= cap)
    && AllGenuine(a, chunks) && ChunksFit(chunks, cap)
    && put + buffer[start..end] == Flat(OnWire, chunks)
    && accepted == Flat(Plain, chunks) + buffer[end + TAG_SIZE..]
  }

  /** Every frame was sealed with a draw of its own. */
  ghost predicate Drawn(a: Aead, chunks: seq<Chunk>, rng: nat) {
    rng == |chunks| && forall i :: 0 <= i < |chunks| ==> chunks[i].sealed == a.seal(chunks[i].text, i)
  }

  lemma {:induction false} DrawnNext(a: Aead, chunks: seq<Chunk>, rng: nat, text: seq<Byte>)
    requires Drawn(a, chunks, rng)
    ensures Drawn(a, chunks + [Chunk(a.seal(text, rng), text)], rng + 1)
  {
  }

  lemma {:induction false} EncryptKeeps(
    a: Aead, nonce: nat, cap: nat, buffer: seq<Byte>, start: nat, end: nat,
    chunks: seq<Chunk>, accepted: seq<Byte>, put: seq<Byte>)
    requires a.Lawful() && Roomy(cap)
    requires SendOk(a, cap, buffer, start, end, chunks, accepted, put)
    requires |buffer| != end + TAG_SIZE
    ensures var c := Chunk(a.seal(buffer[end + TAG_SIZE..], nonce), buffer[end + TAG_SIZE..]);
            SendOk(a, cap, Encrypted(a, nonce, buffer, end), start, |buffer|,
                   chunks + [c], accepted, put)
    ensures |Encrypted(a, nonce, buffer, end)| == |buffer| + TAG_SIZE
  {
    hide Flat;
    var message := buffer[end + TAG_SIZE..];
    var s := a.seal(message, nonce);
    assert a.SealsBack(message, nonce, s);
    var c := Chunk(s, message);
    FlatSnoc(OnWire, chunks, c);
    FlatSnoc(Plain, chunks, c);
    var frame := ToU16(|message|) + s.tag + s.body;
    assert Show(OnWire, c) == frame;
    var next := Encrypted(a, nonce, buffer, end);
    assert next[start..|buffer|] == buffer[start..end] + frame;
    assert put + (buffer[start..end] + frame) == put + buffer[start..end] + frame;
    assert next[|buffer| + TAG_SIZE..] == [];
    assert Flat(Plain, chunks + [c]) + [] == accepted;
  }

  /** What the inner stream takes moves from the buffer to the wire. */
  lemma {:induction false} HandedOver(
    a: Aead, cap: nat, buffer: seq<Byte>, start: nat, end: nat,
    chunks: seq<Chunk>, accepted: seq<Byte>, put: seq<Byte>, n: nat)
    requires SendOk(a, cap, buffer, start, end, chunks, accepted, put) && start + n <= end
    ensures SendOk(a, cap, buffer, start + n, end, chunks, accepted, put + buffer[start..start + n])
  {
    hide Flat, AllGenuine, ChunksFit;
    assert buffer[start..end] == buffer[start..start + n] + buffer[start + n..end];
    assert put + buffer[start..start + n] + buffer[start + n..end]
        == put + (buffer[start..start + n] + buffer[start + n..end]);
  }

  // ------------------------------------------------ a pass of the writing loop

  /** The writing half of an endpoint. */
  datatype Writer = Writer(rng: nat, buffer: seq<Byte>, start: nat, end: nat, chunks: seq<Chunk>)
  {
    ghost predicate Laid() { start <= end && end + TAG_SIZE <= |buffer| }
  }

  /** An endpoint before a pass, and the application's bytes that are left. */
  datatype Point = Point(writer: Writer, left: seq<Byte>)

  const FRESH := Writer(0, ZeroBytes(TAG_SIZE), 0, 0, [])

  function SealedNow(a: Aead, s: Writer): Writer
    requires s.end + TAG_SIZE <= |s.buffer|
  {
    var message := s.buffer[s.end + TAG_SIZE..];
    Writer(s.rng + 1, Encrypted(a, s.rng, s.buffer, s.end), s.start, |s.buffer|,
           s.chunks + [Chunk(a.seal(message, s.rng), message)])
  }

  /** Seals what has grown to half the buffer. */
  function Grown(a: Aead, cap: nat, s: Writer): Writer
    requires s.end + TAG_SIZE <= |s.buffer|
  {
    if |s.buffer| - s.end < cap / 2 then s else SealedNow(a, s)
  }

  /** Drops what the inner stream has taken once the buffer is nearly full. */
  function Collected(cap: nat, s: Writer): Writer
    requires s.start <= s.end && s.start <= |s.buffer|
  {
    if |s.buffer| + TAG_SIZE < cap || s.start == 0 then s
    else s.(buffer := s.buffer[s.start..], start := 0, end := s.end - s.start)
  }

  /** How many of n bytes are taken, leaving room for a header. */
  function ToTake(cap: nat, len: nat, n: nat): (m: nat)
    ensures m <= n
  {
    Min(if cap < len + TAG_SIZE then 0 else cap - len - TAG_SIZE, n)
  }

  /** The inner stream may take this many of the sealed bytes. */
  ghost predicate CanHand(a: Aead, cap: nat, s: Writer, taken: nat) {
    s.Laid() && Grown(a, cap, s).start + taken <= Grown(a, cap, s).end
  }

  ghost function Handed(a: Aead, cap: nat, s: Writer, taken: nat): Writer
    requires a.Lawful() && CanHand(a, cap, s, taken)
  {
    SealedLength(a, s);
    var t := Grown(a, cap, s);
    Collected(cap, t.(start := t.start + taken))
  }

  lemma {:induction false} SealedLayout(a: Aead, nonce: nat, buffer: seq<Byte>, end: nat)
    requires a.Lawful() && end + TAG_SIZE <= |buffer|
    ensures var n, next := |buffer| - end - 30, Encrypted(a, nonce, buffer, end);
            var s := a.seal(buffer[end + 30..], nonce);
            && |next| == |buffer| + 30 && next[..end] == buffer[..end]
            && (n < 0x1_0000 ==> (next[end] as int) * 256 + next[end + 1] as int == n)
            && next[end + 2..end + 30] == s.tag && next[end + 30..|buffer|] == s.body
  {
    var n := |buffer| - end - 30;
    var s := a.seal(buffer[end + 30..], nonce);
    assert a.SealsBack(buffer[end + 30..], nonce, s);
    if n < 0x1_0000 { U16BigEndian(n); }
  }

  lemma {:induction false} SealedLength(a: Aead, s: Writer)
    requires a.Lawful() && s.end + TAG_SIZE <= |s.buffer|
    ensures |SealedNow(a, s).buffer| == |s.buffer| + TAG_SIZE
  {
    var message := s.buffer[s.end + TAG_SIZE..];
    assert a.SealsBack(message, s.rng, a.seal(message, s.rng));
  }

  /** One pass, in which the inner stream takes so many bytes. */
  ghost function Passed(a: Aead, cap: nat, p: Point, taken: nat): Point
    requires a.Lawful() && CanHand(a, cap, p.writer, taken)
  {
    var t := Handed(a, cap, p.writer, taken);
    var n := ToTake(cap, |t.buffer|, |p.left|);
    Point(t.(buffer := t.buffer + p.left[..n]), p.left[n..])
  }

  /** A pass in lengths: the text is sealed once it and its header take half the buffer; bytes taken by the inner stream are
      dropped once the buffer is within a header of being full; then as much is taken in as leaves room for a header. */
  lemma {:induction false} PassLaw(a: Aead, cap: nat, p: Point, taken: nat)
    requires a.Lawful() && CanHand(a, cap, p.writer, taken)
    ensures var s, q := p.writer, Passed(a, cap, p, taken);
            var seals := |s.buffer| - s.end >= cap / 2;
            var len := |s.buffer| + if seals then 30 else 0;
            var drops := len + 30 >= cap && s.start + taken > 0;
            var kept := len - if drops then s.start + taken else 0;
            var room := if kept + 30 < cap then cap - 30 - kept else 0;
            var n := if room < |p.left| then room else |p.left|;
            && q.writer.rng == s.rng + (if seals then 1 else 0)
            && q.writer.start == (if drops then 0 else s.start + taken)
            && q.writer.end == (if seals then |s.buffer| else s.end) - (if drops then s.start + taken else 0)
            && |q.writer.buffer| == kept + n && q.writer.buffer[kept..] == p.left[..n] && q.left == p.left[n..]
  {
    hide Encrypted;
    SealedLength(a, p.writer);
  }

  ghost predicate Passes(a: Aead, cap: nat, p: Point, q: Point)
    requires a.Lawful()
  {
    exists taken: nat :: CanHand(a, cap, p.writer, taken) && q == Passed(a, cap, p, taken)
  }

  /** The pass that starts here has something to offer to the inner stream. */
  ghost predicate Offers(a: Aead, cap: nat, s: Writer) {
    s.Laid() && Grown(a, cap, s).start < Grown(a, cap, s).end
  }

  /** A run of the loop, one point per pass begun. */
  ghost predicate Trace(a: Aead, cap: nat, trace: seq<Point>)
    requires a.Lawful()
  {
    trace != [] && forall i :: 0 < i < |trace| ==> Passes(a, cap, trace[i - 1], trace[i])
  }

  lemma {:induction false} TraceGrows(a: Aead, cap: nat, trace: seq<Point>, q: Point)
    requires a.Lawful() && Trace(a, cap, trace) && Passes(a, cap, trace[|trace| - 1], q)
    ensures Trace(a, cap, trace + [q])
  {
    hide Passes;
    var all := trace + [q];
    forall i | 0 < i < |all| ensures Passes(a, cap, all[i - 1], all[i]) {
      if i < |trace| { assert all[i] == trace[i] && all[i - 1] == trace[i - 1]; }
    }
  }

  /** At the capacities 60 and 61, twice a header, a fresh endpoint seals an empty frame in its first
      pass; when the inner stream takes it, the pass ends where it began, and so do all that follow:
      without anything to send the loop goes on for as long as the stream takes what it is given. */
  lemma {:induction false} SmallBufferNeverRests(a: Aead, cap: nat, s: Writer)
    requires a.Lawful() && cap / 2 == TAG_SIZE
    requires s.buffer == ZeroBytes(TAG_SIZE) && s.start == 0 && s.end == 0
    ensures Offers(a, cap, s) && CanHand(a, cap, s, TAG_SIZE)
    ensures Passed(a, cap, Point(s, []), TAG_SIZE)
         == Point(s.(rng := s.rng + 1, chunks := s.chunks + [Chunk(a.seal([], s.rng), [])]), [])
  {
    SealedLength(a, s);
    assert s.buffer[TAG_SIZE..] == [];
    var t := SealedNow(a, s);
    assert t.buffer[TAG_SIZE..] == ZeroBytes(TAG_SIZE);
    assert ZeroBytes(TAG_SIZE) + [] == ZeroBytes(TAG_SIZE);
  }

  /** Below that the first pass seals an empty frame that does not fit: the vector has to grow. */
  lemma {:induction false} SmallBufferOverflows(a: Aead, cap: nat)
    requires a.Lawful() && cap < 2 * TAG_SIZE
    ensures Grown(a, cap, FRESH) == SealedNow(a, FRESH)
    ensures cap < |Grown(a, cap, FRESH).buffer|
  {
    SealedLength(a, FRESH);
  }

  // ---------------------------------------------------------------- read side

  /** The read buffer: `start..start + rest` is what remains of the chunk being copied out,
      then come opened frames up to `end`, then bytes not yet opened. */
  ghost predicate ReadOk(a: Aead, cap: nat, buffer: seq<Byte>, start: nat, end: nat, rest: nat,
                         history: seq<Chunk>, begun: nat, delivered: seq<Byte>, got: seq<Byte>)
  {
    && start + rest <= end <= |buffer| <= cap
    && begun <= |history| && AllAuthentic(a, history)
    && got == Flat(OnWire, history) + buffer[end..]
    && delivered + buffer[start..start + rest] == Flat(Plain, history[..begun])
    && buffer[start + rest..end] == Flat(Opened, history[begun..])
  }

  lemma {:induction false} OpenKeeps(
    a: Aead, cap: nat, buffer: seq<Byte>, start: nat, end: nat, rest: nat,
    history: seq<Chunk>, begun: nat, delivered: seq<Byte>, got: seq<Byte>) returns (c: Chunk)
    requires a.Lawful()
    requires ReadOk(a, cap, buffer, start, end, rest, history, begun, delivered, got)
    requires HasFrame(buffer[end..]) && a.open(FrontSealed(buffer[end..])).Some?
    ensures c.sealed == FrontSealed(buffer[end..])
    ensures a.open(c.sealed) == Some(c.text)
    ensures var next := buffer[..end + TAG_SIZE] + c.text + buffer[end + TAG_SIZE + |c.text|..];
            |next| == |buffer| &&
            ReadOk(a, cap, next, start, end + TAG_SIZE + |c.text|, rest, history + [c], begun, delivered, got)
  {
    hide Flat, Show, HasFrame, FrontSealed;
    var s := buffer[end..];
    c := Chunk(FrontSealed(s), a.open(FrontSealed(s)).value);
    FrontChunk(a, s, c);
    var n := |c.text|;
    var last := end + TAG_SIZE + n;
    var next := buffer[..end + TAG_SIZE] + c.text + buffer[last..];
    FlatSnoc(OnWire, history, c);
    FlatSnoc(Opened, history[begun..], c);
    assert (history + [c])[begun..] == history[begun..] + [c];
    assert (history + [c])[..begun] == history[..begun];
    assert s[TAG_SIZE + n..] == buffer[last..];
    assert Flat(OnWire, history) + (Show(OnWire, c) + buffer[last..])
        == Flat(OnWire, history) + Show(OnWire, c) + buffer[last..];
    OpenedSlices(buffer, start, end, rest, s[..TAG_SIZE], c.text);
  }

  /** The chunk at the front of unopened bytes, before and after opening. */
  lemma {:induction false} FrontChunk(a: Aead, s: seq<Byte>, c: Chunk)
    requires a.Lawful() && HasFrame(s) && c.sealed == FrontSealed(s) && a.open(c.sealed) == Some(c.text)
    ensures c.Authentic(a) && TAG_SIZE + |c.text| <= |s|
    ensures s == Show(OnWire, c) + s[TAG_SIZE + |c.text|..]
    ensures Show(Opened, c) == s[..TAG_SIZE] + c.text
  {
    var n := |c.text|;
    U16Bytes(s[..2]);
    assert s[..2] == ToU16(n);
    assert s[..TAG_SIZE] == s[..2] + s[2..TAG_SIZE];
    assert Show(OnWire, c) == s[..2] + s[2..TAG_SIZE] + s[TAG_SIZE..TAG_SIZE + n];
  }

  /** Writing text of the same length behind a header leaves the slices of the buffer as they
      were, but for the text. */
  lemma {:induction false} OpenedSlices(
    buffer: seq<Byte>, start: nat, end: nat, rest: nat, header: seq<Byte>, text: seq<Byte>)
    requires start + rest <= end && |header| == TAG_SIZE && end + TAG_SIZE + |text| <= |buffer|
    requires header == buffer[end..][..TAG_SIZE]
    ensures var last := end + TAG_SIZE + |text|;
            var next := buffer[..end + TAG_SIZE] + text + buffer[last..];
            && |next| == |buffer| && next[last..] == buffer[last..]
            && next[start..start + rest] == buffer[start..start + rest]
            && next[start + rest..last] == buffer[start + rest..end] + (header + text)
  {
    var last := end + TAG_SIZE + |text|;
    var next := buffer[..end + TAG_SIZE] + text + buffer[last..];
    assert next[start + rest..last] == buffer[start + rest..end] + buffer[end..end + TAG_SIZE] + text;
    assert buffer[end..end + TAG_SIZE] == header;
  }

  /** Copying out the next opened chunk begins with stepping over its header. */
  lemma {:induction false} AdvanceKeeps(
    a: Aead, cap: nat, buffer: seq<Byte>, start: nat, end: nat,
    history: seq<Chunk>, begun: nat, delivered: seq<Byte>, got: seq<Byte>)
    requires ReadOk(a, cap, buffer, start, end, 0, history, begun, delivered, got)
    requires start < end
    ensures start + TAG_SIZE <= end
    ensures ReadOk(a, cap, buffer, start + TAG_SIZE, end, FromU16(buffer[start..start + 2]),
                   history, begun + 1, delivered, got)
  {
    hide Flat;
    var todo := history[begun..];
    FlatEmpty(Opened);
    assert todo != [] by {
      assert |buffer[start..end]| > 0;
    }
    FlatStep(Opened, todo);
    var c := todo[0];
    assert c == history[begun] && c.Authentic(a);
    var n := |c.text|;
    U16RoundTrip(n);
    var area := buffer[start..end];
    var more := Flat(Opened, todo[1..]);
    assert area == ToU16(n) + c.sealed.tag + c.text + more;
    assert area[..2] == ToU16(n) && area[TAG_SIZE..TAG_SIZE + n] == c.text && area[TAG_SIZE + n..] == more;
    SliceOfSlice(buffer, start, end, 0, 2);
    SliceOfSlice(buffer, start, end, TAG_SIZE, TAG_SIZE + n);
    SliceOfSlice(buffer, start, end, TAG_SIZE + n, end - start);
    FlatSnoc(Plain, history[..begun], c);
    assert history[..begun] + [c] == history[..begun + 1];
    assert history[begun + 1..] == todo[1..];
    assert buffer[start..start + 0] == [] && delivered + [] == delivered;
  }

  lemma {:induction false} CopyKeeps(
    a: Aead, cap: nat, buffer: seq<Byte>, start: nat, end: nat, rest: nat,
    history: seq<Chunk>, begun: nat, delivered: seq<Byte>, got: seq<Byte>, n: nat)
    requires ReadOk(a, cap, buffer, start, end, rest, history, begun, delivered, got)
    requires n <= rest
    ensures ReadOk(a, cap, buffer, start + n, end, rest - n, history, begun,
                   delivered + buffer[start..start + n], got)
  {
    hide Flat;
    assert buffer[start..start + rest] == buffer[start..start + n] + buffer[start + n..start + rest];
    assert delivered + buffer[start..start + n] + buffer[start + n..start + rest]
        == delivered + (buffer[start..start + n] + buffer[start + n..start + rest]);
  }

  lemma {:induction false} AppendKeeps(
    a: Aead, cap: nat, buffer: seq<Byte>, start: nat, end: nat, rest: nat,
    history: seq<Chunk>, begun: nat, delivered: seq<Byte>, got: seq<Byte>, data: seq<Byte>)
    requires ReadOk(a, cap, buffer, start, end, rest, history, begun, delivered, got)
    requires |buffer| + |data| <= cap
    ensures ReadOk(a, cap, buffer + data, start, end, rest, history, begun, delivered, got + data)
  {
    hide Flat;
    var next := buffer + data;
    assert next[start..start + rest] == buffer[start..start + rest];
    assert next[start + rest..end] == buffer[start + rest..end];
    assert next[end..] == buffer[end..] + data;
    assert Flat(OnWire, history) + (buffer[end..] + data) == got + data;
  }

  lemma {:induction false} OpenBounds(a: Aead, buffer: seq<Byte>, end: nat, c: Chunk)
    requires a.Lawful() && end <= |buffer| && HasFrame(buffer[end..])
    requires c.sealed == FrontSealed(buffer[end..]) && a.open(c.sealed) == Some(c.text)
    ensures end + TAG_SIZE + |c.text| <= |buffer|
  {
  }

  // ------------------------------------------------------- the caller's slice

  /** `buf` is what is left of `data` after taking from its front. */
  ghost predicate Remains(data: seq<Byte>, buf: seq<Byte>) {
    |buf| <= |data| && buf == data[|data| - |buf|..]
  }

  ghost function Consumed(data: seq<Byte>, buf: seq<Byte>): seq<Byte>
    requires Remains(data, buf)
  {
    data[..|data| - |buf|]
  }

  lemma {:induction false} ConsumeMore(before: seq<Byte>, data: seq<Byte>, buf: seq<Byte>, n: nat)
    requires Remains(data, buf) && n <= |buf|
    ensures Remains(data, buf[n..])
    ensures before + Consumed(data, buf) + buf[..n] == before + Consumed(data, buf[n..])
  {
    assert Consumed(data, buf) + buf[..n] == Consumed(data, buf[n..]);
  }

  lemma {:induction false} ConsumedNothing(before: seq<Byte>, data: seq<Byte>)
    ensures Remains(data, data) && before == before + Consumed(data, data)
  {
  }

  lemma {:induction false} ConsumedCount(before: seq<Byte>, data: seq<Byte>, buf: seq<Byte>)
    requires Remains(data, buf)
    ensures |buf| <= |data|
    ensures before + Consumed(data, buf) == before + data[..|data| - |buf|]
    ensures |buf| == |data| ==> before + Consumed(data, buf) == before && buf == data
  {
  }

  lemma {:induction false} SliceOfSlice(s: seq<Byte>, a: nat, b: nat, i: nat, j: nat)
    requires a <= b <= |s| && i <= j <= b - a
    ensures s[a..b][i..j] == s[a + i..a + j]
  {
    assert forall k :: 0 <= k < j - i ==> s[a..b][i..j][k] == s[a + i..a + j][k];
  }

  // ----------------------------------------------------------------- endpoint

  class Output {
    const aead: Aead
    const cap: nat
    var rng: nat
    var readBuffer: seq<Byte>
    var readableEnd: nat
    var readableStart: nat
    var chunkReminder: nat
    var writeBuffer: seq<Byte>
    var writableEnd: nat
    var writableStart: nat

    /** Sealed so far, and the text taken from the application so far. */
    ghost var chunks: seq<Chunk>
    ghost var accepted: seq<Byte>
    /** Opened so far, how many of them were begun to be copied out, and the text copied. */
    ghost var history: seq<Chunk>
    ghost var begun: nat
    ghost var delivered: seq<Byte>

    ghost predicate Sending(w: Wire)
      reads this, w
    {
      && aead.Lawful() && Roomy(cap) && w.Valid()
      && SendOk(aead, cap, writeBuffer, writableStart, writableEnd, chunks, accepted, w.put)
      && Drawn(aead, chunks, rng)
    }

    ghost predicate Receiving(w: Wire)
      reads this, w
    {
      && aead.Lawful() && w.Valid()
      && ReadOk(aead, cap, readBuffer, readableStart, readableEnd, chunkReminder,
                history, begun, delivered, w.got)
    }

    ghost function Writing(): Writer
      reads this
    {
      Writer(rng, writeBuffer, writableStart, writableEnd, chunks)
    }

    constructor (aead: Aead, cap: nat)
      requires aead.Lawful()
      ensures Writing() == FRESH
      ensures this.aead == aead && this.cap == cap
      ensures chunks == [] && accepted == [] && history == [] && delivered == []
      ensures forall w: Wire :: w.Valid() && w.put == [] && Roomy(cap) ==> Sending(w)
      ensures forall w: Wire :: w.Valid() && w.got == [] ==> Receiving(w)
    {
      this.aead, this.cap, rng := aead, cap, 0;
      readBuffer, chunkReminder, readableEnd, readableStart := [], 0, 0, 0;
      writeBuffer, writableEnd, writableStart := ZeroBytes(TAG_SIZE), 0, 0;
      chunks, accepted, history, begun, delivered := [], [], [], 0, [];
    }

    // ------------------------------------------------------------- poll_write

    /** `encrypt_in_progress`: seals the collected text where it lies, with the next draw. */
    method EncryptInProgress(ghost w: Wire)
      requires Sending(w) && |writeBuffer| != writableEnd + TAG_SIZE
      modifies `rng, `writeBuffer, `writableEnd, `chunks
      ensures Sending(w) && |writeBuffer| == writableEnd + TAG_SIZE
      ensures writableEnd == |old(writeBuffer)| && old(chunks) <= chunks
      ensures Writing() == SealedNow(aead, old(Writing()))
      // The frame: its length in two bytes, the more significant first, the tag and the body.
      ensures var n, e := |old(writeBuffer)| - old(writableEnd) - 30, old(writableEnd);
              var s := aead.seal(old(writeBuffer[writableEnd + 30..]), old(rng));
              && writeBuffer[..e] == old(writeBuffer[..writableEnd])
              && (n < 0x1_0000 ==> (writeBuffer[e] as int) * 256 + writeBuffer[e + 1] as int == n)
              && writeBuffer[e + 2..e + 30] == s.tag && writeBuffer[e + 30..writableEnd] == s.body
    {
      SealedLayout(aead, rng, writeBuffer, writableEnd);
      SendBounds(w);
      hide SendOk, Drawn, ToU16, Encrypted;
      SealText(w);
    }

    method SealText(ghost w: Wire)
      requires Sending(w) && |writeBuffer| != writableEnd + TAG_SIZE
      modifies `rng, `writeBuffer, `writableEnd, `chunks
      ensures Sending(w) && |writeBuffer| == writableEnd + TAG_SIZE
      ensures writableEnd == |old(writeBuffer)| && old(chunks) <= chunks
      ensures Writing() == SealedNow(aead, old(Writing()))
    {
      EncryptKeeps(aead, rng, cap, writeBuffer, writableStart, writableEnd, chunks, accepted, w.put);
      DrawnNext(aead, chunks, rng, writeBuffer[writableEnd + TAG_SIZE..]);
      hide SendOk, Drawn, ToU16;
      ghost var next := SealedNow(aead, Writing());
      var inProgress := writeBuffer[writableEnd..];
      var message := inProgress[TAG_SIZE..];
      var sealed := aead.seal(message, rng);
      assert message == writeBuffer[writableEnd + TAG_SIZE..];
      rng := rng + 1;
      var written := writeBuffer[..writableEnd] + (ToU16(|message|) + sealed.tag + sealed.body);
      writableEnd := |writeBuffer|;
      writeBuffer := written + ZeroBytes(TAG_SIZE);
      chunks := chunks + [Chunk(sealed, message)];
      assert Writing() == next;
    }

    /** Offers the sealed frames to the inner stream once. */
    method WriteInner(w: Wire) returns (r: Poll)
      requires Sending(w) && writableStart < writableEnd
      modifies w, `writableStart
      ensures Sending(w) && w.polls > old(w.polls) && w.stalled == r.Pending? && w.got == old(w.got)
      ensures !r.Pending? ==> |w.script| < |old(w.script)|
      ensures r.Failed? ==> r.error == Inner
      ensures old(w.script) != [] && old(w.script)[0] == Break ==> r.Failed?
      ensures old(w.script) == [] ==> r.Pending? && w.script == []
      ensures writableStart == old(writableStart) + if r.Ready? then r.n else 0
      ensures writableStart <= writableEnd
    {
      SendBounds(w);
      hide SendOk;
      var available := writeBuffer[writableStart..writableEnd];
      ghost var put := w.put;
      r := w.PollWrite(available);
      if r.Ready? {
        HandedOver(aead, cap, writeBuffer, writableStart, writableEnd, chunks, accepted, put, r.n);
        SliceOfSlice(writeBuffer, writableStart, writableEnd, 0, r.n);
        writableStart := writableStart + r.n;
      }
    }

    /** Drops what the inner stream has taken from the front of the write buffer. */
    method CollectWritten(ghost w: Wire)
      requires Sending(w)
      modifies `writeBuffer, `writableEnd, `writableStart
      ensures Sending(w) && writableStart == 0
      ensures writableEnd == old(writableEnd - writableStart)
      ensures writeBuffer == old(writeBuffer[writableStart..])
    {
      hide Flat, AllGenuine, ChunksFit;
      var s := writableStart;
      assert writeBuffer[s..][0..writableEnd - s] == writeBuffer[s..writableEnd];
      assert writeBuffer[s..][writableEnd - s + TAG_SIZE..] == writeBuffer[writableEnd + TAG_SIZE..];
      writeBuffer := writeBuffer[s..];
      writableEnd := writableEnd - s;
      writableStart := 0;
    }

    /** Takes as much of the application's data as leaves room for a header. */
    method TakeInput(ghost w: Wire, data: seq<Byte>)
      requires Sending(w) && |writeBuffer| + |data| + TAG_SIZE <= cap
      modifies `writeBuffer, `accepted
      ensures Sending(w) && accepted == old(accepted) + data
      ensures writeBuffer == old(writeBuffer) + data
    {
      hide Flat, AllGenuine, ChunksFit;
      var next := writeBuffer + data;
      assert next[writableStart..writableEnd] == writeBuffer[writableStart..writableEnd];
      assert next[writableEnd + TAG_SIZE..] == writeBuffer[writableEnd + TAG_SIZE..] + data;
      assert Flat(Plain, chunks) + (writeBuffer[writableEnd + TAG_SIZE..] + data) == accepted + data;
      writeBuffer := next;
      accepted := accepted + data;
    }

    /** Seals what has grown to half the buffer. */
    method SealGrown(ghost w: Wire) returns (updated: bool)
      requires Sending(w)
      modifies `rng, `writeBuffer, `writableEnd, `chunks
      ensures Sending(w) && old(chunks) <= chunks
      ensures Writing() == Grown(aead, cap, old(Writing()))
      ensures Offers(aead, cap, old(Writing())) <==> writableStart < writableEnd
      ensures |writeBuffer| - writableEnd < cap / 2
      ensures if updated then |writeBuffer| - writableEnd < old(|writeBuffer| - writableEnd) else Writing() == old(Writing())
    {
      hide Sending, SendOk, SealedNow, Encrypted, Grown, Offers;
      ghost var before := Writing();
      SendBounds(w);
      updated := |writeBuffer| - writableEnd >= cap / 2;
      if updated {
        EncryptInProgress(w);
      }
      IsGrown(before, Writing());
    }

    /** The first three steps of a pass of the writing loop: seal what has grown to half the
        buffer, offer sealed frames to the inner stream, and drop what it has taken. */
    method MakeRoom(w: Wire) returns (updated: bool, r: Poll, ghost taken: nat)
      requires Sending(w)
      modifies w, `rng, `writeBuffer, `writableEnd, `writableStart, `chunks
      ensures Sending(w) && old(chunks) <= chunks && w.got == old(w.got) && w.polls >= old(w.polls)
      ensures r.Failed? ==> r.error in {Inner, WriteZero} && Offers(aead, cap, old(Writing()))
      ensures !r.Failed? ==>
                && CanHand(aead, cap, old(Writing()), taken)
                && Writing() == Handed(aead, cap, old(Writing()), taken)
      ensures Offers(aead, cap, old(Writing())) ==> w.polls > old(w.polls)
      ensures w.polls > old(w.polls) && old(w.script) != [] && old(w.script)[0] == Break ==> r.Failed?
      ensures w.polls == old(w.polls) ==> w.script == old(w.script)
      ensures old(w.script) == [] ==> !r.Failed? && w.script == []
      ensures |writeBuffer| - writableEnd <= old(|writeBuffer| - writableEnd)
      ensures updated && !r.Failed? ==>
                || |writeBuffer| - writableEnd < old(|writeBuffer| - writableEnd)
                || writableEnd - writableStart < old(writableEnd - writableStart)
                || (writableEnd - writableStart == old(writableEnd - writableStart)
                    && writableStart < old(writableStart))
      ensures !updated && !r.Failed? ==>
                && Writing() == old(Writing())
                && (|writeBuffer| + TAG_SIZE < cap || (w.stalled && w.polls > old(w.polls)))
    {
      hide Sending, SendOk, Flat, Grown, SealedNow, Encrypted, Collected, Handed, CanHand, Offers, Roomy;
      r, updated, taken := Pending, false, 0;
      ghost var before := Writing();
      SendBounds(w);
      updated := SealGrown(w);
      ghost var grown := Writing();
      SendBounds(w);
      if writableStart < writableEnd {
        r := WriteInner(w);
        if r == Ready(0) { r := Failed(WriteZero); }
        if r.Failed? { return; }
        updated := updated || r.Ready?;
        if r.Ready? { taken := r.n; }
      }
      SendBounds(w);
      if |writeBuffer| >= cap - TAG_SIZE && writableStart != 0 {
        CollectWritten(w);
        updated := true;
      }
      IsHanded(before, grown, taken, Writing());
    }

    lemma {:induction false} IsGrown(before: Writer, grown: Writer)
      requires aead.Lawful() && before.Laid()
      requires grown == if |before.buffer| - before.end >= cap / 2 then SealedNow(aead, before) else before
      ensures grown == Grown(aead, cap, before)
      ensures Offers(aead, cap, before) <==> grown.start < grown.end
    {
    }

    lemma {:induction false} IsHanded(before: Writer, grown: Writer, taken: nat, after: Writer)
      requires aead.Lawful() && before.Laid() && grown == Grown(aead, cap, before) && grown.start + taken <= grown.end <= |grown.buffer|
      requires after == if |grown.buffer| >= cap - TAG_SIZE && grown.start + taken != 0
                        then grown.(buffer := grown.buffer[grown.start + taken..], start := 0, end := grown.end - (grown.start + taken))
                        else grown.(start := grown.start + taken)
      ensures CanHand(aead, cap, before, taken) && after == Handed(aead, cap, before, taken)
    {
    }

    /** The whole loop. The trace holds the endpoint before each pass. */
    method PollWrite(w: Wire, data: seq<Byte>) returns (r: Poll, ghost trace: seq<Point>)
      requires Sending(w)
      modifies w, `rng, `writeBuffer, `writableEnd, `writableStart, `chunks, `accepted
      ensures Sending(w) && old(chunks) <= chunks && w.got == old(w.got)
      ensures r.Ready? ==> 0 < r.n <= |data| && accepted == old(accepted) + data[..r.n]
      ensures r.Pending? ==> accepted == old(accepted)
      ensures r.Pending? && data != [] ==> cap <= |writeBuffer| + TAG_SIZE
      ensures r.Failed? ==> r.error in {Inner, WriteZero}
      // Data is left behind only when the inner stream has just said it is not ready.
      ensures (r.Pending? && data != []) || (r.Ready? && r.n < |data|) ==>
                w.stalled && w.polls > old(w.polls)
      ensures trace != [] && Trace(aead, cap, trace) && trace[0] == Point(old(Writing()), data)
      // On failure the data taken by earlier passes stays taken.
      ensures Remains(data, trace[|trace| - 1].left) && accepted == old(accepted) + Consumed(data, trace[|trace| - 1].left)
      ensures if r.Failed? then Offers(aead, cap, trace[|trace| - 1].writer)
              else 2 <= |trace| && trace[|trace| - 2] == trace[|trace| - 1] && trace[|trace| - 1].writer == Writing()
      ensures old(w.script) == [] ==> !r.Failed?
      ensures old(w.script) != [] && old(w.script)[0] == Break ==>
                (exists i :: 0 <= i < |trace| - 1 && Offers(aead, cap, trace[i].writer)) ==> r.Failed?
    {
      hide Sending, SendOk, Flat, Handed, CanHand, Offers, Roomy, Passes, Trace, Remains, Consumed, Writer.Laid;
      var buf := data;
      ConsumedNothing(accepted, data);
      SendBounds(w);
      var updated := true;
      trace := [Point(Writing(), data)];
      TraceOne(trace[0]);
      while updated
        invariant writableStart <= writableEnd <= |writeBuffer|
        invariant Sending(w) && old(chunks) <= chunks && w.got == old(w.got)
        invariant Remains(data, buf) && accepted == old(accepted) + Consumed(data, buf)
        invariant w.polls >= old(w.polls)
        invariant updated || buf == [] || (w.stalled && w.polls > old(w.polls) && cap <= |writeBuffer| + TAG_SIZE)
        invariant trace != [] && Trace(aead, cap, trace) && trace[0] == Point(old(Writing()), data)
        invariant trace[|trace| - 1] == Point(Writing(), buf)
        invariant updated || (2 <= |trace| && trace[|trace| - 2] == trace[|trace| - 1])
        invariant w.polls == old(w.polls) || old(w.script) == [] ==> w.script == old(w.script)
        invariant (exists i :: 0 <= i < |trace| - 1 && Offers(aead, cap, trace[i].writer)) ==> w.polls > old(w.polls)
        invariant w.polls > old(w.polls) && old(w.script) != [] ==> old(w.script)[0] != Break
        decreases |buf|, |writeBuffer| - writableEnd, writableEnd - writableStart, writableStart, updated
      {
        ghost var before, taken := Point(Writing(), buf), 0;
        updated, r, taken := MakeRoom(w);
        if r.Failed? {
          return;
        }
        SendBounds(w);
        var space := cap - |writeBuffer|;
        var toWrite := Min(if space < TAG_SIZE then 0 else space - TAG_SIZE, |buf|);
        ghost var made := Writing();
        if toWrite != 0 {
          TakeInput(w, buf[..toWrite]);
          ConsumeMore(old(accepted), data, buf, toWrite);
          buf := buf[toWrite..];
          updated := true;
        }
        IsPass(before, taken, made, toWrite, Point(Writing(), buf));
        TraceGrows(aead, cap, trace, Point(Writing(), buf));
        trace := trace + [Point(Writing(), buf)];
      }
      var red := |data| - |buf|;
      ConsumedCount(old(accepted), data, buf);
      if red == 0 {
        r := Pending;
      } else {
        r := Ready(red);
      }
    }

    lemma {:induction false} TraceOne(p: Point)
      requires aead.Lawful()
      ensures Trace(aead, cap, [p])
    {
    }

    lemma {:induction false} IsPass(p: Point, taken: nat, made: Writer, n: nat, q: Point)
      requires aead.Lawful() && CanHand(aead, cap, p.writer, taken) && made == Handed(aead, cap, p.writer, taken)
      requires n == ToTake(cap, |made.buffer|, |p.left|)
      requires q == Point(if n == 0 then made else made.(buffer := made.buffer + p.left[..n]), if n == 0 then p.left else p.left[n..])
      ensures Passes(aead, cap, p, q)
    {
      assert made.buffer + [] == made.buffer;
      assert q == Passed(aead, cap, p, taken);
    }

    lemma {:induction false} SendBounds(w: Wire)
      requires Sending(w)
      ensures writableStart <= writableEnd && writableEnd + TAG_SIZE <= |writeBuffer| <= cap
      ensures |writeBuffer| == writableEnd + TAG_SIZE || |writeBuffer| + TAG_SIZE <= cap
      ensures TAG_SIZE < cap / 2 && aead.Lawful() && Writing().Laid()
    {
      hide Flat, AllGenuine, ChunksFit;
    }

    // ------------------------------------------------------------- poll_flush

    /** Everything taken from the application is on the wire. */
    ghost predicate Flushed()
      reads this
    {
      writableStart == writableEnd && |writeBuffer| == writableEnd + TAG_SIZE
    }

    method PollFlush(w: Wire) returns (r: Poll)
      requires Sending(w)
      modifies w, `rng, `writeBuffer, `writableEnd, `writableStart, `chunks
      ensures Sending(w) && old(chunks) <= chunks && w.got == old(w.got)
      ensures r.Ready? ==> Flushed()
      ensures r.Failed? ==> r.error == Inner
      ensures r.Pending? ==> w.stalled && w.polls > old(w.polls)
      ensures |writeBuffer| == writableEnd + TAG_SIZE
    {
      hide SendOk;
      SendBounds(w);
      if |writeBuffer| - writableEnd != TAG_SIZE {
        EncryptInProgress(w);
      }
      SendBounds(w);
      while writableStart < writableEnd
        invariant Sending(w) && old(chunks) <= chunks && w.got == old(w.got)
        invariant writableStart <= writableEnd && |writeBuffer| == writableEnd + TAG_SIZE
        invariant w.polls >= old(w.polls)
        decreases |w.script|
      {
        r := WriteInner(w);
        if !r.Ready? { return; }
        SendBounds(w);
      }
      r := w.PollFlush();
    }

    // -------------------------------------------------------------- poll_read

    /** Nothing is left to copy out, and no whole frame to open. */
    ghost predicate Idle()
      reads this
    {
      && chunkReminder == 0 && readableStart == readableEnd <= |readBuffer|
      && !HasFrame(readBuffer[readableEnd..])
    }

    /** Drops what has been copied out from the front of the read buffer. */
    method CollectRead(ghost w: Wire)
      requires Receiving(w)
      modifies `readBuffer, `readableEnd, `readableStart
      ensures Receiving(w) && readableStart == 0
      ensures readableEnd == old(readableEnd - readableStart)
      ensures |readBuffer| == |old(readBuffer)| - old(readableStart)
    {
      hide Flat, AllAuthentic;
      var s := readableStart;
      var n := |readBuffer|;
      SliceOfSlice(readBuffer, s, n, 0, chunkReminder);
      SliceOfSlice(readBuffer, s, n, chunkReminder, readableEnd - s);
      SliceOfSlice(readBuffer, s, n, readableEnd - s, n - s);
      readBuffer := readBuffer[s..];
      readableEnd := readableEnd - s;
      readableStart := 0;
    }

    /** Fills the read buffer until it is full or the inner stream is not ready. */
    method ReadInner(w: Wire) returns (updated: bool, r: Poll)
      requires Receiving(w)
      modifies w, `readBuffer
      ensures Receiving(w) && w.put == old(w.put) && w.polls >= old(w.polls)
      // The end of the inner stream.
      ensures |old(readBuffer)| < cap && old(w.script) != [] && old(w.script)[0] == Move(0) ==> r == Failed(UnexpectedEof)
      ensures if updated then |w.inFlight| < |old(w.inFlight)|
              else |w.inFlight| == |old(w.inFlight)| && readBuffer == old(readBuffer)
      ensures !r.Failed? ==> |readBuffer| == cap || (w.stalled && w.polls > old(w.polls))
      ensures r != Failed(PermissionDenied)
    {
      hide Flat, AllAuthentic, Aead.Lawful;
      updated, r := false, Pending;
      while |readBuffer| < cap
        invariant Receiving(w) && w.put == old(w.put) && w.polls >= old(w.polls)
        invariant !r.Failed? && |readBuffer| <= cap
        invariant (w.script == old(w.script) && readBuffer == old(readBuffer)) || old(w.script) == [] || old(w.script)[0] != Move(0)
        invariant if updated then |w.inFlight| < |old(w.inFlight)|
                  else |w.inFlight| == |old(w.inFlight)| && readBuffer == old(readBuffer)
        decreases cap - |readBuffer|
      {
        var data;
        ghost var was, got := readBuffer, w.got;
        r, data := w.PollRead(cap - |readBuffer|);
        readBuffer := readBuffer + data;
        AppendKeeps(aead, cap, was, readableStart, readableEnd, chunkReminder,
                    history, begun, delivered, got, data);
        if !r.Ready? { return; }
        if r.n == 0 {
          r := Failed(UnexpectedEof);
          return;
        }
        updated := true;
      }
    }

    /** Opens every whole frame in place. */
    method OpenFrames(ghost w: Wire) returns (updated: bool, ok: bool)
      requires Receiving(w)
      modifies `readBuffer, `readableEnd, `history
      ensures Receiving(w) && |readBuffer| == |old(readBuffer)| && old(history) <= history
      ensures if updated then old(readableEnd) < readableEnd
              else readBuffer == old(readBuffer) && readableEnd == old(readableEnd)
      ensures readableEnd <= |readBuffer|
      ensures ok <==> !HasFrame(readBuffer[readableEnd..])
      ensures !ok ==> aead.open(FrontSealed(readBuffer[readableEnd..])).None?
    {
      hide ReadOk, FromU16, Show, Flat, Aead.Lawful;
      updated := false;
      ReadBounds(w);
      while HasFrame(readBuffer[readableEnd..])
        invariant Receiving(w) && |readBuffer| == |old(readBuffer)| && old(history) <= history
        invariant if updated then old(readableEnd) < readableEnd
                  else readBuffer == old(readBuffer) && readableEnd == old(readableEnd)
        invariant readableEnd <= |readBuffer|
        decreases |readBuffer| - readableEnd
      {
        var sealed := FrontSealed(readBuffer[readableEnd..]);
        var result := aead.open(sealed);
        if result.None? { return updated, false; }
        ghost var c := OpenKeeps(aead, cap, readBuffer, readableStart, readableEnd, chunkReminder,
                                 history, begun, delivered, w.got);
        var text := result.value;
        var first := readableEnd + TAG_SIZE;
        OpenBounds(aead, readBuffer, readableEnd, c);
        readBuffer := readBuffer[..first] + text + readBuffer[first + |text|..];
        readableEnd := first + |text|;
        history := history + [c];
        updated := true;
        ReadBounds(w);
      }
      ok := true;
    }

    /** Copies opened text to the application until its buffer is full or nothing is left. */
    method CopyOut(ghost w: Wire, room: nat) returns (updated: bool, data: seq<Byte>)
      requires Receiving(w)
      modifies `readableStart, `chunkReminder, `begun, `delivered
      ensures Receiving(w) && delivered == old(delivered) + data && |data| <= room
      ensures if updated then old(readableStart) < readableStart
              else readableStart == old(readableStart) && data == []
      // An empty chunk ends the copying early; it counts as an update.
      ensures |data| < room ==> chunkReminder == 0 && (updated || readableStart == readableEnd)
    {
      hide ReadOk;
      updated, data := false, [];
      ReadBounds(w);
      while true
        invariant Receiving(w) && delivered == old(delivered) + data && |data| <= room
        invariant if updated then old(readableStart) < readableStart
                  else readableStart == old(readableStart) && data == []
        invariant readableStart <= readableEnd
        decreases readableEnd - readableStart
      {
        ReadBounds(w);
        if chunkReminder == 0 && readableStart != readableEnd {
          AdvanceKeeps(aead, cap, readBuffer, readableStart, readableEnd,
                       history, begun, delivered, w.got);
          chunkReminder := FromU16(readBuffer[readableStart..readableStart + 2]);
          readableStart := readableStart + TAG_SIZE;
          begun := begun + 1;
          updated := true;
          ReadBounds(w);
        }
        var readLen := Min(chunkReminder, room - |data|);
        if readLen == 0 { return; }
        CopyKeeps(aead, cap, readBuffer, readableStart, readableEnd, chunkReminder,
                  history, begun, delivered, w.got, readLen);
        var available := readBuffer[readableStart..readableStart + readLen];
        assert old(delivered) + (data + available) == old(delivered) + data + available;
        data := data + available;
        delivered := delivered + available;
        chunkReminder := chunkReminder - readLen;
        readableStart := readableStart + readLen;
        updated := true;
        ReadBounds(w);
      }
    }

    method PollRead(w: Wire, room: nat) returns (r: Poll, data: seq<Byte>)
      requires Receiving(w)
      modifies w, `readBuffer, `readableEnd, `readableStart, `chunkReminder,
               `history, `begun, `delivered
      ensures Receiving(w) && old(history) <= history && w.put == old(w.put)
      ensures delivered == old(delivered) + data && |data| <= room
      ensures r.Ready? ==> 0 < r.n == |data|
      ensures r.Pending? ==> data == []
      ensures readableEnd <= |readBuffer|
      // The end of the inner stream is reported at once, whatever is still on hand.
      ensures |old(readBuffer)| < cap && old(w.script) != [] && old(w.script)[0] == Move(0) ==>
                r == Failed(UnexpectedEof) && data == []
      ensures r == Failed(PermissionDenied) ==>
                && HasFrame(readBuffer[readableEnd..])
                && aead.open(FrontSealed(readBuffer[readableEnd..])).None?
      // Room is left over only when everything on hand has been copied out, and either the
      // inner stream is not ready or a frame is too long for the buffer.
      ensures !r.Failed? && |data| < room ==>
                && Idle()
                && ((w.stalled && w.polls > old(w.polls)) || (readableEnd == 0 && |readBuffer| == cap))
    {
      hide *;
      data := [];
      var updated := true;
      ReadBounds(w);
      while updated
        invariant Receiving(w) && old(history) <= history && w.put == old(w.put)
        invariant delivered == old(delivered) + data && |data| <= room
        invariant w.polls >= old(w.polls)
        invariant readableStart <= readableEnd <= |readBuffer|
        invariant (data == [] && updated && readBuffer == old(readBuffer) && w.script == old(w.script))
                  || |old(readBuffer)| >= cap || old(w.script) == [] || old(w.script)[0] != Move(0)
        invariant !updated && |data| < room ==>
                    && chunkReminder == 0 && readableStart == readableEnd
                    && !HasFrame(readBuffer[readableEnd..])
                    && ((w.stalled && w.polls > old(w.polls)) || (readableEnd == 0 && |readBuffer| == cap))
        decreases |w.inFlight|, |readBuffer| - readableEnd, readableEnd - readableStart, readableStart, updated
      {
        updated := false;
        if |readBuffer| == cap && readableStart != 0 {
          CollectRead(w);
          updated := true;
        }
        var read, poll := ReadInner(w);
        ReadBounds(w);
        if poll.Failed? { return poll, data; }
        var unsealed, ok := OpenFrames(w);
        ReadBounds(w);
        if !ok { return Failed(PermissionDenied), data; }
        var copied, more := CopyOut(w, room - |data|);
        ReadBounds(w);
        assert old(delivered) + (data + more) == old(delivered) + data + more;
        data := data + more;
        updated := updated || read || unsealed || copied;
      }
      if |data| < room { IdleHolds(); }
      r := if |data| == 0 then Pending else Ready(|data|);
    }

    lemma {:induction false} ReadBounds(w: Wire)
      requires Receiving(w)
      ensures readableStart + chunkReminder <= readableEnd <= |readBuffer| <= cap
    {
      hide Flat, AllAuthentic;
    }

    lemma {:induction false} IdleHolds()
      requires chunkReminder == 0 && readableStart == readableEnd <= |readBuffer|
      requires !HasFrame(readBuffer[readableEnd..])
      ensures Idle()
    {
      hide HasFrame;
    }
  }
}
