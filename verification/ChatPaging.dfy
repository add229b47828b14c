/** Reading the log in pages, newest message first: a page is a window of fixed size that
    ends at the cursor, and the cursor moves back over the messages that fit in it. */
module ChatPaging {
  import opened Octets
  import opened ChatMessages
  import opened ChatLog

  const WINDOW: nat := 1024 * 8
  const CURSOR_MAX: nat := 0xFFFF_FFFF_FFFF_FFFF

  datatype Fetched = Page(buf: seq<Byte>, next: nat) | IoError

  /** `fetch_messages` over the file and the count of discarded bytes. */
  method FetchMessages(blocks: seq<Byte>, discarded: nat, cursor0: nat) returns (r: Fetched)
    ensures var end := (if cursor0 == CURSOR_MAX then |blocks| + discarded else cursor0) - discarded;
            r == if end < 0 || |blocks| < end then IoError else PageAt(blocks, discarded, end)
  {
    hide Unpack, Junk;
    var cursor := cursor0;
    if cursor == CURSOR_MAX { cursor := |blocks| + discarded; }
    if cursor < discarded { return IoError; }
    var offset := cursor - discarded;
    var finalOffset := if offset < WINDOW then 0 else offset - WINDOW;
    var red := offset - finalOffset;
    if |blocks| < offset { return IoError; }
    var window := blocks[finalOffset..offset];
    var l: nat := |window|;
    assert window[..l] == window;
    while Fits(window[..l])
      invariant l <= |window| && Junk(window[..l]) == Junk(window)
      decreases l
    {
      UnpackStep(window[..l]);
      assert window[..l][..LastStart(window[..l])] == window[..LastStart(window[..l])];
      l := LastStart(window[..l]);
    }
    UnpackStuck(window[..l]);
    cursor := cursor - (|window| - l);
    if red == 0 { cursor := CURSOR_MAX; }
    r := Page(ZeroBytes(WINDOW - red) + window, cursor);
  }

  function WindowAt(blocks: seq<Byte>, end: nat): seq<Byte>
    requires end <= |blocks|
  {
    blocks[if end < WINDOW then 0 else end - WINDOW..end]
  }

  /** The page whose last byte is at `end`: the window, padded in front, and the cursor moved
      back over the messages in it. */
  function PageAt(blocks: seq<Byte>, discarded: nat, end: nat): Fetched
    requires end <= |blocks|
  {
    var window := WindowAt(blocks, end);
    JunkIsPrefix(window);
    Page(ZeroBytes(WINDOW - |window|) + window,
         if end == 0 then CURSOR_MAX else end + discarded - |window| + |Junk(window)|)
  }

  /** A page is 8192 bytes: the last ones in front of its end, behind zeros when there are fewer. */
  lemma {:induction false} PageLayout(blocks: seq<Byte>, discarded: nat, end: nat)
    requires end <= |blocks|
    ensures var page := PageAt(blocks, discarded, end);
            var red := if end < 8192 then end else 8192;
            && page.Page? && |page.buf| == 8192 && page.buf[8192 - red..] == blocks[end - red..end]
            && forall i :: 0 <= i < 8192 - red ==> page.buf[i] == 0
  {
    hide Junk;
  }

  /** A page is empty exactly when the log ends at the cursor or the message before the
      cursor does not fit the window. */
  lemma {:induction false} PageMakesProgress(blocks: seq<Byte>, end: nat)
    requires 0 < end <= |blocks| && WellFormed(blocks[..end])
    ensures Fits(blocks[..end])
    ensures var window := WindowAt(blocks, end);
            Junk(window) == window <==> |LastMessage(blocks[..end])| + 2 > WINDOW
  {
    hide Unpack;
    var f, w := blocks[..end], WindowAt(blocks, end);
    assert w == f[|f| - |w|..];
    if 2 <= |w| { assert w[|w| - 2..] == f[|f| - 2..]; }
    if Fits(w) {
      JunkIsPrefix(w[..LastStart(w)]);
    }
  }

  /** Zeros read as empty messages. */
  lemma {:induction false} ZerosAreEmpty(n: nat)
    ensures forall i :: 0 <= i < |Unpack(ZeroBytes(n))| ==> Unpack(ZeroBytes(n))[i] == []
  {
    if n < 2 {
    } else {
      var z := ZeroBytes(n);
      assert z[n - 2..] == [0, 0];
      assert LastStart(z) == n - 2 && z[..n - 2] == ZeroBytes(n - 2);
      ZerosAreEmpty(n - 2);
      assert LastMessage(z) == [];
    }
  }

  /** What the client takes from a page: messages up to the first empty one. */
  function UntilEmpty(ms: seq<Message>): seq<Message> {
    if ms == [] || ms[0] == [] then [] else [ms[0]] + UntilEmpty(ms[1..])
  }

  lemma {:induction false} UntilEmptySplits(xs: seq<Message>, ys: seq<Message>)
    requires forall i :: 0 <= i < |xs| ==> xs[i] != []
    requires ys == [] || ys[0] == []
    ensures UntilEmpty(xs + ys) == xs
  {
    if xs == [] {
      assert xs + ys == ys;
    } else {
      assert (xs + ys)[1..] == xs[1..] + ys;
      UntilEmptySplits(xs[1..], ys);
    }
  }

  ghost predicate Readable(ms: seq<Message>) {
    forall i :: 0 <= i < |ms| ==> ms[i] != [] && |ms[i]| + 2 <= WINDOW
  }

  /** The client finds in a page exactly the messages the server moved the cursor over, and
      the rest of the log is still to come. */
  lemma {:induction false} PageContents(blocks: seq<Byte>, discarded: nat, end: nat)
    requires end <= |blocks| && WellFormed(blocks[..end]) && Readable(Unpack(blocks[..end]))
    ensures var window := WindowAt(blocks, end);
            var rest := end - |window| + |Junk(window)|;
            && 0 <= rest <= end && (0 < end ==> rest < end)
            && Unpack(blocks[..end]) == UntilEmpty(Unpack(PageAt(blocks, discarded, end).buf)) + Unpack(blocks[..rest])
            && WellFormed(blocks[..rest]) && Readable(Unpack(blocks[..rest]))
  {
    hide Unpack, Junk, UntilEmpty, LastMessage, Fits, LastStart;
    var f, w := blocks[..end], WindowAt(blocks, end);
    var a := f[..|f| - |w|];
    assert f == a + w;
    JunkIsPrefix(w);
    WindowReadsTheSame(a, w);
    var rest := end - |w| + |Junk(w)|;
    assert blocks[..rest] == a + Junk(w);
    var ms, here, more := Unpack(f), Unpack(w), Unpack(blocks[..rest]);
    assert ms == here + more;
    forall i | 0 <= i < |here| ensures here[i] != [] { assert here[i] == ms[i]; }
    forall i | 0 <= i < |more| ensures more[i] != [] && |more[i]| + 2 <= WINDOW { assert more[i] == ms[|here| + i]; }
    var pad := ZeroBytes(WINDOW - |w|);
    WindowReadsTheSame(pad, w);
    if |w| == WINDOW {
      assert pad == [] && pad + w == w;
      UntilEmptySplits(here, []);
      assert here + [] == here;
    } else {
      assert a == [] && f == w;
      assert pad + [] == pad;
      ZerosAreEmpty(WINDOW - |w|);
      UntilEmptySplits(here, Unpack(pad));
    }
    if 0 < end {
      PageMakesProgress(blocks, end);
      UnpackStep(f);
      assert ms[0] == LastMessage(f);
    }
  }

  /** The cursor stands behind the first `end` bytes of the log, which are well-formed. */
  ghost predicate StandsAt(blocks: seq<Byte>, discarded: nat, cursor: nat, end: nat) {
    && end <= |blocks| && end == (if cursor == CURSOR_MAX then |blocks| else cursor - discarded)
    && WellFormed(blocks[..end]) && Readable(Unpack(blocks[..end]))
  }

  /** How much of the log is still in front of a cursor that a page came back with. */
  function Remaining(discarded: nat, next: nat): int {
    if next == CURSOR_MAX then 0 else next - discarded
  }

  /** One request of a client: the messages in front of the cursor and the next cursor. */
  method ReadPage(blocks: seq<Byte>, discarded: nat, cursor: nat, ghost end: nat)
    returns (found: seq<Message>, next: nat)
    requires StandsAt(blocks, discarded, cursor, end) && |blocks| + discarded < CURSOR_MAX
    ensures 0 <= Remaining(discarded, next) <= end
    ensures Unpack(blocks[..end]) == found + Unpack(blocks[..Remaining(discarded, next)])
    ensures next != CURSOR_MAX ==>
              Remaining(discarded, next) < end && StandsAt(blocks, discarded, next, Remaining(discarded, next))
  {
    hide Unpack, Junk, UntilEmpty, WindowAt, WellFormed, Readable, ZeroBytes;
    var page := FetchMessages(blocks, discarded, cursor);
    PageContents(blocks, discarded, end);
    found := UntilEmpty(Unpack(page.buf));
    next := page.next;
  }

  /** Paging from `CURSOR_MAX` until it comes back yields every message of the log exactly
      once, newest first. */
  method ReadAll(blocks: seq<Byte>, discarded: nat) returns (all: seq<Message>)
    requires WellFormed(blocks) && Readable(Unpack(blocks))
    requires |blocks| + discarded < CURSOR_MAX
    ensures all == Unpack(blocks)
  {
    assert blocks[..|blocks|] == blocks;
    assert StandsAt(blocks, discarded, CURSOR_MAX, |blocks|);
    hide *;
    all := [];
    var cursor := CURSOR_MAX;
    ghost var end: nat := |blocks|;
    while true
      invariant StandsAt(blocks, discarded, cursor, end) && end <= |blocks|
      invariant all + Unpack(blocks[..end]) == Unpack(blocks)
      decreases end
    {
      var found;
      found, cursor := ReadPage(blocks, discarded, cursor, end);
      ghost var rest := Remaining(discarded, cursor);
      assert all + (found + Unpack(blocks[..rest])) == all + found + Unpack(blocks[..rest]);
      all := all + found;
      if cursor == CURSOR_MAX {
        EndOfLog(blocks, discarded);
        return;
      }
      end := rest;
    }
  }

  lemma {:induction false} EndOfLog(blocks: seq<Byte>, discarded: nat)
    ensures Remaining(discarded, CURSOR_MAX) == 0 && Unpack(blocks[..0]) == []
  {
  }
}
