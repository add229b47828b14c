/** The frames of the encrypted stream: a two-byte big-endian length, the tag of the
    authenticated cipher, and the encrypted body. */
module Framing {

  import opened Wrappers
  import opened Octets

  const AEAD_TAG: nat := 28
  const TAG_SIZE: nat := AEAD_TAG + 2

  datatype Sealed = Sealed(tag: seq<Byte>, body: seq<Byte>)

  /** The authenticated cipher under the shared secret; `seal` also takes what it draws from
      the random generator. */
  datatype Aead = Aead(seal: (seq<Byte>, nat) -> Sealed, open: Sealed -> Option<seq<Byte>>)
  {
    /** The cipher works in place, so lengths are kept, and decryption inverts encryption. */
    ghost predicate Lawful() {
      && (forall m, r :: SealsBack(m, r, seal(m, r)))
      && (forall s :: open(s).Some? ==> |open(s).value| == |s.body|)
    }

    ghost predicate SealsBack(m: seq<Byte>, r: nat, s: Sealed) {
      |s.tag| == AEAD_TAG && |s.body| == |m| && open(s) == Some(m)
    }
  }

  /** One frame together with the text it opens to. */
  datatype Chunk = Chunk(sealed: Sealed, text: seq<Byte>)
  {
    ghost predicate Genuine(a: Aead) {
      && |sealed.tag| == AEAD_TAG
      && |sealed.body| == |text|
      && a.open(sealed) == Some(text)
    }

    /** A genuine chunk whose length fits the header. */
    ghost predicate Authentic(a: Aead) { Genuine(a) && |text| < 0x1_0000 }
  }

  /** How a chunk looks on the wire, in the read buffer once opened, and to the reader. */
  datatype View = OnWire | Opened | Plain

  function Show(v: View, c: Chunk): seq<Byte> {
    match v
    case OnWire => ToU16(|c.sealed.body|) + c.sealed.tag + c.sealed.body
    case Opened => ToU16(|c.sealed.body|) + c.sealed.tag + c.text
    case Plain => c.text
  }

  function Flat(v: View, cs: seq<Chunk>): seq<Byte> {
    if cs == [] then [] else Show(v, cs[0]) + Flat(v, cs[1..])
  }

  lemma {:induction false} FlatStep(v: View, cs: seq<Chunk>)
    requires cs != []
    ensures Flat(v, cs) == Show(v, cs[0]) + Flat(v, cs[1..])
  {
  }

  lemma {:induction false} FlatEmpty(v: View)
    ensures Flat(v, []) == []
  {
  }

  lemma {:induction false} FlatAppend(v: View, xs: seq<Chunk>, ys: seq<Chunk>)
    ensures Flat(v, xs + ys) == Flat(v, xs) + Flat(v, ys)
  {
    hide Show;
    if xs == [] {
      assert xs + ys == ys;
    } else {
      assert (xs + ys)[1..] == xs[1..] + ys;
      FlatAppend(v, xs[1..], ys);
    }
  }

  lemma {:induction false} FlatSnoc(v: View, xs: seq<Chunk>, c: Chunk)
    ensures Flat(v, xs + [c]) == Flat(v, xs) + Show(v, c)
  {
    hide Show;
    FlatAppend(v, xs, [c]);
    assert Flat(v, [c]) == Show(v, c) + Flat(v, []);
  }

  lemma {:induction false} FlatSplit(v: View, cs: seq<Chunk>, k: nat)
    requires k <= |cs|
    ensures Flat(v, cs) == Flat(v, cs[..k]) + Flat(v, cs[k..])
  {
    hide *;
    FlatAppend(v, cs[..k], cs[k..]);
    assert cs[..k] + cs[k..] == cs;
  }

  ghost predicate AllAuthentic(a: Aead, cs: seq<Chunk>) {
    forall i :: 0 <= i < |cs| ==> cs[i].Authentic(a)
  }

  ghost predicate AllGenuine(a: Aead, cs: seq<Chunk>) {
    forall i :: 0 <= i < |cs| ==> cs[i].Genuine(a)
  }

  // --------------------------------------------------------- reading one frame

  /** A whole frame stands at the front of s. */
  predicate HasFrame(s: seq<Byte>) {
    2 <= |s| && FromU16(s[..2]) + TAG_SIZE <= |s|
  }

  function FrontSealed(s: seq<Byte>): Sealed
    requires HasFrame(s)
  {
    Sealed(s[2..TAG_SIZE], s[TAG_SIZE..TAG_SIZE + FromU16(s[..2])])
  }

  lemma {:induction false} ShowOnWire(a: Aead, c: Chunk, t: seq<Byte>)
    requires c.Authentic(a)
    ensures HasFrame(Show(OnWire, c) + t) && FrontSealed(Show(OnWire, c) + t) == c.sealed
    ensures |Show(OnWire, c)| == |c.text| + TAG_SIZE
  {
    var n := |c.text|;
    U16RoundTrip(n);
    var s := Show(OnWire, c) + t;
    assert s[..2] == ToU16(n);
    assert s[2..TAG_SIZE] == c.sealed.tag;
    assert s[TAG_SIZE..TAG_SIZE + n] == c.sealed.body;
  }

  /** A frame on the wire: two bytes of length, the more significant first, 28 bytes of tag, the body. */
  lemma {:induction false} FrameLayout(c: Chunk)
    requires |c.sealed.tag| == 28 && |c.sealed.body| < 0x1_0000
    ensures var s := Show(OnWire, c);
            && |s| == 30 + |c.sealed.body| && (s[0] as int) * 256 + s[1] as int == |c.sealed.body|
            && s[2..30] == c.sealed.tag && s[30..] == c.sealed.body
  {
    U16BigEndian(|c.sealed.body|);
  }

  /** A reader takes the first two bytes for the length of the body, the more significant first. */
  lemma {:induction false} FrameIsThere(s: seq<Byte>)
    ensures HasFrame(s) <==> 2 <= |s| && 30 + (s[0] as int) * 256 + s[1] as int <= |s|
    ensures HasFrame(s) ==> FrontSealed(s) == Sealed(s[2..30], s[30..30 + (s[0] as int) * 256 + s[1] as int])
  {
    if 2 <= |s| { U16Value(s[..2]); }
  }

  /** A body of 65536 bytes or more does not survive its header: the reader takes another. */
  lemma {:induction false} LongBodyMisread(c: Chunk)
    requires |c.sealed.tag| == AEAD_TAG && |c.sealed.body| >= 0x1_0000
    ensures HasFrame(Show(OnWire, c)) && FrontSealed(Show(OnWire, c)) != c.sealed
  {
    var n := |c.sealed.body|;
    var s := Show(OnWire, c);
    U16Wraps(n);
    assert s[..2] == ToU16(n);
    hide ToU16, FromU16;
    assert |FrontSealed(s).body| < 0x1_0000;
  }

  /** A byte string that begins with frames has only one way to be read as frames. */
  lemma {:induction false} FrameIsUnique(a: Aead, c: Chunk, d: Chunk, s: seq<Byte>, t: seq<Byte>)
    requires c.Authentic(a) && d.Authentic(a)
    requires Show(OnWire, c) + s == Show(OnWire, d) + t
    ensures c == d && s == t
  {
    hide Show, HasFrame, FrontSealed;
    ShowOnWire(a, c, s);
    ShowOnWire(a, d, t);
    var u, v := Show(OnWire, c) + s, Show(OnWire, d) + t;
    assert s == u[|c.text| + TAG_SIZE..] && t == v[|d.text| + TAG_SIZE..];
  }

  /** What a reader has opened of an honest sender's frames is what the sender sealed. */
  lemma {:induction false} OpenedIsPrefix(a: Aead, h: seq<Chunk>, cs: seq<Chunk>, t: seq<Byte>)
    requires AllAuthentic(a, h) && AllAuthentic(a, cs)
    requires Flat(OnWire, h) + t <= Flat(OnWire, cs)
    ensures h <= cs
  {
    hide Show, Flat, HasFrame, FrontSealed;
    if h == [] {
    } else {
      FlatStep(OnWire, h);
      var u := Flat(OnWire, cs)[|Flat(OnWire, h) + t|..];
      var h0 := Show(OnWire, h[0]);
      ShowOnWire(a, h[0], []);
      FlatEmpty(OnWire);
      assert |h0| > 0;
      assert Flat(OnWire, cs) == Flat(OnWire, h) + t + u;
      assert cs != [];
      FlatStep(OnWire, cs);
      var hs := Flat(OnWire, h[1..]);
      assert h0 + (hs + t + u) == h0 + hs + t + u;
      FrameIsUnique(a, h[0], cs[0], hs + t + u, Flat(OnWire, cs[1..]));
      OpenedIsPrefix(a, h[1..], cs[1..], t);
      assert h == [h[0]] + h[1..] && cs == [cs[0]] + cs[1..];
    }
  }

  /** Bytes left over at the end of an honest sender's frames that hold no whole frame are
      the beginning of the next one. */
  lemma {:induction false} LeftoverIsPartial(a: Aead, cs: seq<Chunk>, t: seq<Byte>)
    requires AllAuthentic(a, cs) && t <= Flat(OnWire, cs)
    ensures HasFrame(t) ==> cs != [] && FrontSealed(t) == cs[0].sealed && |cs[0].text| + TAG_SIZE <= |t|
    ensures !HasFrame(t) && cs != [] ==> |t| < |cs[0].text| + TAG_SIZE
  {
    hide Show, Flat;
    FlatEmpty(OnWire);
    if cs != [] {
      FlatStep(OnWire, cs);
      var rest := Flat(OnWire, cs[1..]);
      ShowOnWire(a, cs[0], rest);
      var w := Flat(OnWire, cs);
      if 2 <= |t| {
        assert t[..2] == w[..2];
      }
      if HasFrame(t) {
        var n := TAG_SIZE + FromU16(t[..2]);
        assert t[2..TAG_SIZE] == w[2..TAG_SIZE];
        assert t[TAG_SIZE..n] == w[TAG_SIZE..n];
      }
    }
  }
}
