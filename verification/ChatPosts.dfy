/** The messages members send: who, under which nonce, and what. Sender and nonce come first and
    can be read off the front, so that messages of different senders or nonces stay recognisable
    in a log that is otherwise read from its end. */
module ChatPosts {
  import opened Octets
  import opened Lists
  import opened ChatMessages
  import Codec

  const IDENTITY: nat := 32

  datatype Post = Post(sender: seq<Byte>, nonce: nat, content: seq<Byte>)

  ghost predicate IsPost(p: Post) { |p.sender| == IDENTITY && p.nonce < U64 }

  function Encoded(p: Post): Message { p.sender + Codec.EncodeInt(p.nonce) + p.content }

  function Encodings(ps: seq<Post>): (ms: seq<Message>)
    ensures |ms| == |ps| && forall i :: 0 <= i < |ps| ==> ms[i] == Encoded(ps[i])
  {
    seq(|ps|, i requires 0 <= i < |ps| => Encoded(ps[i]))
  }

  /** No member uses a nonce twice. */
  ghost predicate DistinctKeys(ps: seq<Post>) {
    && (forall i :: 0 <= i < |ps| ==> IsPost(ps[i]))
    && forall i, j :: 0 <= i < j < |ps| ==> ps[i].sender != ps[j].sender || ps[i].nonce != ps[j].nonce
  }

  /** Every message is one of the posts. */
  ghost predicate From(ms: seq<Message>, ps: seq<Post>) { Elements(ms) <= Elements(Encodings(ps)) }

  lemma {:induction false} SameKey(p: Post, q: Post, a: seq<Byte>, b: seq<Byte>)
    requires IsPost(p) && IsPost(q) && Encoded(p) + a == Encoded(q) + b
    ensures p.sender == q.sender && p.nonce == q.nonce
  {
    var x := Encoded(p) + a;
    assert p.sender == x[..IDENTITY] == q.sender;
    assert x[IDENTITY..] == Codec.EncodeInt(p.nonce) + (p.content + a);
    assert x[IDENTITY..] == Codec.EncodeInt(q.nonce) + (q.content + b);
    hide Codec.EncodeInt, Codec.ReadInt, Codec.Pow128;
    Codec.TenBytesSuffice();
    Codec.ReadBack(p.nonce, p.content + a, Codec.WORST_CASE_SIZE);
    Codec.ReadBack(q.nonce, q.content + b, Codec.WORST_CASE_SIZE);
  }

  lemma {:induction false} EncodingsDiffer(ps: seq<Post>, i: nat, j: nat)
    requires DistinctKeys(ps) && i < |ps| && j < |ps|
    ensures Encoded(ps[i]) == Encoded(ps[j]) ==> i == j
  {
    hide Encoded;
    if Encoded(ps[i]) == Encoded(ps[j]) {
      SameKey(ps[i], ps[j], [], []);
    }
  }

  lemma {:induction false} EncodingsDistinct(ps: seq<Post>)
    requires DistinctKeys(ps)
    ensures Distinct(Encodings(ps))
  {
    hide Encoded;
    forall i, j | 0 <= i < j < |ps| ensures Encodings(ps)[i] != Encodings(ps)[j] {
      EncodingsDiffer(ps, i, j);
    }
  }

  /** Two of the posts that begin the same bytes are the same. */
  lemma {:induction false} SameFront(ps: seq<Post>, m: Message, n: Message, a: seq<Byte>, b: seq<Byte>)
    requires DistinctKeys(ps) && m in Encodings(ps) && n in Encodings(ps) && m + a == n + b
    ensures m == n
  {
    hide Encoded;
    var i :| 0 <= i < |ps| && m == Encodings(ps)[i];
    var j :| 0 <= j < |ps| && n == Encodings(ps)[j];
    SameKey(ps[i], ps[j], a, b);
  }

  lemma {:induction false} PackLast(ms: seq<Message>, m: Message)
    ensures Pack(ms + [m]) == Entry(m) + Pack(ms)
  {
    hide Entry;
    PackAppend(ms, [m]);
    assert [m][1..] == [];
    assert Pack([m]) == [] + Entry(m) == Entry(m);
  }

  /** A log that begins another one holds its oldest messages: with posts whose keys differ, a log
      can be read from the front as well. */
  lemma {:induction false} FrontIsSuffix(ps: seq<Post>, bs: seq<Message>, ms: seq<Message>)
    requires DistinctKeys(ps) && From(bs, ps) && From(ms, ps) && Pack(bs) <= Pack(ms)
    ensures |bs| <= |ms| && bs == ms[|ms| - |bs|..]
    decreases |bs|
  {
    hide Pack, DistinctKeys, Encodings;
    if bs == [] {
    } else {
      var b, bt := bs[|bs| - 1], bs[..|bs| - 1];
      assert bs == bt + [b];
      PackLast(bt, b);
      assert |Entry(b)| > 0;
      PackNothing();
      assert ms != [];
      var m, mt := ms[|ms| - 1], ms[..|ms| - 1];
      assert ms == mt + [m];
      PackLast(mt, m);
      var tail := Pack(ms)[|Pack(bs)|..];
      assert Pack(ms) == Pack(bs) + tail;
      hide Entry;
      assert b in Elements(bs) && m in Elements(ms);
      assert b in Elements(Encodings(ps)) && m in Elements(Encodings(ps));
      SameEntry(ps, b, m, Pack(bt) + tail, Pack(mt));
      assert Pack(bt) + tail == Pack(mt);
      assert Elements(bt) <= Elements(bs) && Elements(mt) <= Elements(ms);
      FrontIsSuffix(ps, bt, mt);
    }
  }

  lemma {:induction false} SameEntry(ps: seq<Post>, b: Message, m: Message, x: seq<Byte>, y: seq<Byte>)
    requires DistinctKeys(ps) && b in Encodings(ps) && m in Encodings(ps)
    requires Entry(b) + x == Entry(m) + y
    ensures b == m && x == y
  {
    hide DistinctKeys, Encodings;
    assert Entry(b) + x == b + (ToU16(|b|) + x);
    assert Entry(m) + y == m + (ToU16(|m|) + y);
    SameFront(ps, b, m, ToU16(|b|) + x, ToU16(|m|) + y);
    assert x == (Entry(b) + x)[|Entry(b)|..];
  }
}
