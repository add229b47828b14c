/** The limits of the encrypted stream's buffer: what happens at capacities that the configuration
    lets through and that are too small or too large, and what a failed write leaves behind. */
module OpfuskLimits {
  import opened Octets
  import opened Framing
  import opened Opfusk

  /** The most that the first pass of a fresh endpoint takes. */
  function FirstGulp(cap: nat): nat
    requires Roomy(cap)
  {
    cap - 2 * TAG_SIZE
  }

  /** The first pass over enough data fills the buffer, less a header, and the next one seals. */
  lemma {:induction false} FirstPass(a: Aead, cap: nat, trace: seq<Point>, data: seq<Byte>)
    requires a.Lawful() && Roomy(cap) && FirstGulp(cap) <= |data|
    requires Trace(a, cap, trace) && trace[0] == Point(FRESH, data) && 2 <= |trace|
    ensures trace[1] == Point(FRESH.(buffer := FRESH.buffer + data[..FirstGulp(cap)]), data[FirstGulp(cap)..])
    ensures Offers(a, cap, trace[1].writer)
    ensures Grown(a, cap, trace[1].writer).chunks
         == [Chunk(a.seal(data[..FirstGulp(cap)], 0), data[..FirstGulp(cap)])]
  {
    assert Passes(a, cap, trace[0], trace[1]);
    var p := trace[1].writer;
    assert p.buffer[TAG_SIZE..] == data[..FirstGulp(cap)];
    SealedLength(a, p);
  }

  lemma {:induction false} FreshOffersNothing(a: Aead, cap: nat)
    requires Roomy(cap)
    ensures !Offers(a, cap, FRESH)
  {
  }

  lemma {:induction false} PassGrows(a: Aead, cap: nat, p: Point, q: Point)
    requires a.Lawful() && Passes(a, cap, p, q)
    ensures p.writer.Laid() && Grown(a, cap, p.writer).chunks <= q.writer.chunks
    ensures p.writer.chunks <= q.writer.chunks && |q.left| <= |p.left|
  {
    hide Encrypted, Aead.Lawful;
  }

  lemma {:induction false} TraceMonotone(a: Aead, cap: nat, trace: seq<Point>, i: nat, j: nat)
    requires a.Lawful() && Trace(a, cap, trace) && i <= j < |trace|
    ensures trace[i].writer.chunks <= trace[j].writer.chunks && |trace[j].left| <= |trace[i].left|
    decreases j
  {
    hide Passes, Aead.Lawful;
    if i == j {
    } else {
      TraceMonotone(a, cap, trace, i, j - 1);
      PassGrows(a, cap, trace[j - 1], trace[j]);
    }
  }

  /** A completed write of enough data to a fresh endpoint seals a first frame of all but two headers. */
  lemma {:induction false} FirstFrame(a: Aead, cap: nat, trace: seq<Point>, data: seq<Byte>)
    requires a.Lawful() && Roomy(cap) && FirstGulp(cap) <= |data|
    requires Trace(a, cap, trace) && trace[0] == Point(FRESH, data)
    requires 2 <= |trace| && trace[|trace| - 2] == trace[|trace| - 1]
    ensures 3 <= |trace|
    ensures var c := trace[|trace| - 1].writer.chunks; c != [] && |c[0].text| == FirstGulp(cap) && c[0].Genuine(a)
  {
    hide Passes, Grown, Offers, Aead.Lawful;
    FirstPass(a, cap, trace, data);
    assert trace[1].left != trace[0].left;
    PassGrows(a, cap, trace[1], trace[2]);
    TraceMonotone(a, cap, trace, 2, |trace| - 1);
    SealIsGenuine(a, data[..FirstGulp(cap)], 0);
    var c := trace[|trace| - 1].writer.chunks;
    assert c[0] == trace[2].writer.chunks[0] == Chunk(a.seal(data[..FirstGulp(cap)], 0), data[..FirstGulp(cap)]);
  }

  lemma {:induction false} SealIsGenuine(a: Aead, m: seq<Byte>, r: nat)
    requires a.Lawful()
    ensures Chunk(a.seal(m, r), m).Genuine(a)
  {
    assert a.SealsBack(m, r, a.seal(m, r));
  }

  /** One write to a fresh endpoint of a capacity of 65596 or more, with an inner stream that is not
      ready, seals a frame whose header does not hold its length: a reader takes it for another. */
  method OverlongFrame(aead: Aead, cap: nat, data: seq<Byte>) returns (a: Output, r: Poll)
    requires aead.Lawful() && 0x1_0000 + 2 * TAG_SIZE <= cap <= |data| + 2 * TAG_SIZE
    ensures a.aead == aead && a.cap == cap && !r.Failed?
    ensures a.chunks != [] && |a.chunks[0].text| == cap - 2 * TAG_SIZE
    ensures a.chunks[0].Genuine(aead) && HasFrame(Show(OnWire, a.chunks[0]))
    ensures FrontSealed(Show(OnWire, a.chunks[0])) != a.chunks[0].sealed
  {
    hide Passes, Trace, Grown, Offers, Aead.Lawful, Show, HasFrame, FrontSealed, Remains, Consumed, SendOk, ReadOk;
    var w := new Wire();
    a := new Output(aead, cap);
    ghost var trace;
    r, trace := a.PollWrite(w, data);
    FirstFrame(aead, cap, trace, data);
    LongBodyMisread(a.chunks[0]);
  }

  /** One write to a fresh endpoint whose inner stream fails when it is first polled: the write fails,
      and a buffer full of the data has been taken all the same. */
  method FailedWriteTakesData(aead: Aead, cap: nat, data: seq<Byte>) returns (a: Output, r: Poll)
    requires aead.Lawful() && Roomy(cap) && FirstGulp(cap) <= |data|
    ensures a.aead == aead && a.cap == cap && r.Failed?
    ensures a.accepted <= data && FirstGulp(cap) <= |a.accepted|
  {
    hide Passes, Trace, Grown, Offers, Aead.Lawful, SendOk, ReadOk;
    var w := new Wire();
    w.script := [Break];
    a := new Output(aead, cap);
    ghost var trace;
    r, trace := a.PollWrite(w, data);
    FreshOffersNothing(aead, cap);
    FirstPass(aead, cap, trace, data);
    if !r.Failed? {
      FirstFrame(aead, cap, trace, data);
    }
    TraceMonotone(aead, cap, trace, 1, |trace| - 1);
  }

  // ---------------------------------------------------------- small capacities

  /** A fresh endpoint after k empty frames that the inner stream has taken. */
  ghost function Spun(a: Aead, k: nat): Point {
    if k == 0 then Point(FRESH, [])
    else
      var s := Spun(a, k - 1).writer;
      Point(s.(rng := s.rng + 1, chunks := s.chunks + [Chunk(a.seal([], s.rng), [])]), [])
  }

  lemma {:induction false} SpunIsFresh(a: Aead, k: nat)
    ensures var p := Spun(a, k);
            && p.writer.buffer == ZeroBytes(TAG_SIZE) && p.writer.start == 0 == p.writer.end && p.left == []
            && |p.writer.chunks| == k
  {
    if k == 0 {
    } else {
      SpunIsFresh(a, k - 1);
    }
  }

  /** At the capacities 60 and 61 an endpoint with nothing to send can go on for any number of passes,
      each of which has one more empty frame taken. */
  lemma {:induction false} SpinsForever(a: Aead, cap: nat, n: nat)
    requires a.Lawful() && cap / 2 == TAG_SIZE
    ensures var trace := seq(n + 1, k requires 0 <= k => Spun(a, k));
            Trace(a, cap, trace) && trace[0] == Point(FRESH, []) && |trace[n].writer.chunks| == n
    decreases n
  {
    hide Passed, CanHand, Aead.Lawful, Offers;
    SpunIsFresh(a, n);
    var trace := seq(n + 1, k requires 0 <= k => Spun(a, k));
    forall i | 0 < i < |trace| ensures Passes(a, cap, trace[i - 1], trace[i]) {
      SpunIsFresh(a, i - 1);
      SmallBufferNeverRests(a, cap, Spun(a, i - 1).writer);
      assert Spun(a, i) == Passed(a, cap, Spun(a, i - 1), TAG_SIZE);
    }
  }
}
