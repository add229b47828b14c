/** A replica's chat log: finalized blocks followed by a buffer of messages that are not
    finalized yet, in one file. */
module ChatLog {
  import opened Wrappers
  import opened Octets
  import opened Lists
  import opened Distance
  import opened ChatMessages
  import opened ChatBlocks

  const BLOCK_SIZE: nat := 1024 * 16
  const MAX_UNFINALIZED_BLOCKS: nat := 5
  const UNFINALIZED_BUFFER_CAP: nat := BLOCK_SIZE * MAX_UNFINALIZED_BLOCKS
  const BLOCK_HISTORY: nat := 8
  const REPLICATION_FACTOR: nat := 4
  /** Bytes copied at a time when history is compacted. */
  const COPY_LEN: nat := 1024 * 8
  /** The space `send_message` sets aside for one encoded message. */
  const MAX_ENCODED: nat := 1024 - 40 + 56

  datatype ChatError = OutdatedBlockNumber | AlreadyVoted | TooManyVotes | WrongProposer | WrongBlockNumber | BlockUnexpectedMessages | Encoding

  datatype Proposal = Absent | Local(size: nat) | Remote(block: seq<Byte>)

  datatype BlockProposal = BlockProposal(number: nat, yes: nat, no: nat, proposal: Proposal, votes: seq<nat>)

  // --------------------------------------------------------- walking backwards

  /** Where the walk over messages, newest first, stops: at the first boundary at or below
      the limit. */
  function Boundary(b: seq<Byte>, limit: nat): (l: nat)
    ensures l <= |b|
    decreases |b|
  {
    if !Fits(b) then |b|
    else if LastStart(b) <= limit then LastStart(b)
    else Boundary(b[..LastStart(b)], limit)
  }

  ghost predicate Small(ms: seq<Message>, size: nat) {
    forall i :: 0 <= i < |ms| ==> |ms[i]| + 2 <= size
  }

  /** The boundary splits any buffer between messages, at the limit or less than one message
      below it, unless the unreadable front alone is longer. */
  lemma {:induction false} BoundarySplits(b: seq<Byte>, limit: nat, size: nat)
    requires Small(Unpack(b), size)
    ensures var l := Boundary(b, limit);
            && (|Junk(b)| <= limit ==> l <= limit) && (limit < |b| ==> limit < l + size)
            && Junk(b[..l]) == Junk(b) && WellFormed(b[l..])
            && Unpack(b) == Unpack(b[l..]) + Unpack(b[..l])
    decreases |b|
  {
    hide Fits, LastStart, LastMessage, Unpack, Junk;
    UnpackNothing();
    var l := Boundary(b, limit);
    if !Fits(b) {
      UnpackStuck(b);
      assert b[..l] == b && b[l..] == [];
    } else {
      UnpackStep(b);
      var s := LastStart(b);
      var f, tail := b[..s], b[s..];
      assert |Unpack(b)[0]| + 2 <= size;
      LastIsWellFormed(b);
      JunkIsPrefix(f);
      if limit < s {
        var ms := Unpack(f);
        forall i | 0 <= i < |ms| ensures |ms[i]| + 2 <= size { assert ms[i] == Unpack(b)[i + 1]; }
        BoundarySplits(f, limit, size);
        assert b[..l] == f[..l];
        assert b[l..] == f[l..] + tail;
        WellFormedAppend(f[l..], tail);
        assert Unpack(tail) + (Unpack(f[l..]) + Unpack(f[..l])) == Unpack(tail) + Unpack(f[l..]) + Unpack(f[..l]);
      }
    }
  }

  lemma {:induction false} LastIsWellFormed(b: seq<Byte>)
    requires Fits(b)
    ensures WellFormed(b[LastStart(b)..]) && Unpack(b[LastStart(b)..]) == [LastMessage(b)]
  {
    hide Unpack, Junk, Entry, Fits;
    LastEntry(b);
    var m := LastMessage(b);
    assert b[LastStart(b)..] == [] + Entry(m);
    UnpackAppend([], m);
    UnpackNothing();
  }

  method WalkBack(b: seq<Byte>, limit: nat) returns (l: nat)
    ensures l == Boundary(b, limit)
  {
    l := |b|;
    assert b[..l] == b;
    while Fits(b[..l])
      invariant l <= |b| && Boundary(b, limit) == Boundary(b[..l], limit)
      decreases l
    {
      var s := LastStart(b[..l]);
      assert b[..l][..s] == b[..s];
      l := s;
      if l <= limit { return; }
    }
  }

  // ----------------------------------------------------------- block proposals

  predicate ShouldFinalize(prevLen: nat, len: nat) {
    && len > BLOCK_SIZE
    && len % BLOCK_SIZE > BLOCK_SIZE / 2
    && prevLen % BLOCK_SIZE < BLOCK_SIZE / 2
  }

  /** A block is proposed when the buffer grows from the i-th length to the next. */
  predicate TurnAt(lens: seq<nat>, i: nat)
    requires i < |lens| - 1
  {
    ShouldFinalize(lens[i], lens[i + 1])
  }

  /** While a buffer grows from the first half of a block into the second, a block is proposed once, unless some
      length lands exactly on the middle or it is the first block: then it is not proposed at all. */
  lemma {:induction false} OneTurnPerBlock(lens: seq<nat>, block: nat)
    requires |lens| > 1
    requires forall i, j :: 0 <= i < j < |lens| ==> lens[i] < lens[j]
    requires block * 16384 <= lens[0] < block * 16384 + 8192 < lens[|lens| - 1] < block * 16384 + 16384
    ensures (exists i :: 0 <= i < |lens| - 1 && TurnAt(lens, i)) <==> block > 0 && block * 16384 + 8192 !in lens
    ensures forall i, j :: 0 <= i < j < |lens| - 1 ==> !TurnAt(lens, i) || !TurnAt(lens, j)
  {
    hide TurnAt, Crosses;
    var half := block * 16384 + 8192;
    CrossedOnce(lens, half);
    forall i | 0 <= i < |lens| - 1 ensures TurnAt(lens, i) <==> block > 0 && Crosses(lens, half, i) {
      TurnIsCrossing(lens, block, i);
    }
  }

  predicate Crosses(lens: seq<nat>, half: nat, i: nat)
    requires i < |lens| - 1
  {
    lens[i] < half < lens[i + 1]
  }

  lemma {:induction false} TurnIsCrossing(lens: seq<nat>, block: nat, i: nat)
    requires i < |lens| - 1 && forall i, j :: 0 <= i < j < |lens| ==> lens[i] < lens[j]
    requires block * 16384 <= lens[0] && lens[|lens| - 1] < block * 16384 + 16384
    ensures TurnAt(lens, i) <==> block > 0 && Crosses(lens, block * 16384 + 8192, i)
  {
    assert lens[0] <= lens[i] && lens[i + 1] <= lens[|lens| - 1];
    TurnBetween(lens[i], lens[i + 1], block);
  }

  lemma {:induction false} CrossedOnce(lens: seq<nat>, half: nat)
    requires |lens| > 1 && lens[0] < half < lens[|lens| - 1]
    requires forall i, j :: 0 <= i < j < |lens| ==> lens[i] < lens[j]
    ensures (exists i :: 0 <= i < |lens| - 1 && Crosses(lens, half, i)) <==> half !in lens
    ensures forall i, j :: 0 <= i < j < |lens| - 1 ==> !Crosses(lens, half, i) || !Crosses(lens, half, j)
  {
    if half !in lens {
      var i := Crossing(lens, half);
      assert Crosses(lens, half, i);
    } else {
      var h :| 0 <= h < |lens| && lens[h] == half;
      forall i | 0 <= i < |lens| - 1 ensures !Crosses(lens, half, i) {
        if i < h && i + 1 < h { assert lens[i + 1] < lens[h]; }
      }
    }
    forall i, j | 0 <= i < j < |lens| - 1 ensures !Crosses(lens, half, i) || !Crosses(lens, half, j) {
      if i + 1 < j { assert lens[i + 1] < lens[j]; }
    }
  }

  lemma {:induction false} Crossing(lens: seq<nat>, half: nat) returns (i: nat)
    requires |lens| > 1 && lens[0] < half < lens[|lens| - 1] && half !in lens
    ensures i < |lens| - 1 && lens[i] < half < lens[i + 1]
  {
    i := 0;
    while lens[i + 1] < half
      invariant 0 <= i < |lens| - 1 && lens[i] < half
      decreases |lens| - i
    {
      i := i + 1;
    }
  }

  lemma {:induction false} TurnBetween(prev: nat, len: nat, block: nat)
    requires block * 16384 <= prev && prev < len && len < block * 16384 + 16384
    ensures ShouldFinalize(prev, len) <==> block > 0 && prev < block * 16384 + 8192 < len
  {
    assert prev % 16384 == prev - block * 16384 && len % 16384 == len - block * 16384;
  }

  /** The part of the buffer that a finalizer proposes. */
  function ProposedBlock(buffer: seq<Byte>): seq<Byte> {
    buffer[..Boundary(buffer, |buffer| / BLOCK_SIZE * BLOCK_SIZE)]
  }

  /** What remains of a buffer that has outgrown its cap: the oldest block is dropped. */
  function Trimmed(buffer: seq<Byte>): seq<Byte> {
    if |buffer| > UNFINALIZED_BUFFER_CAP then buffer[Boundary(buffer, BLOCK_SIZE)..] else buffer
  }

  /** A verifier derives from the length of the block the round that the proposer derived
      from the length of its buffer. */
  lemma {:induction false} SameRound(buffer: seq<Byte>)
    requires WellFormed(buffer) && Small(Unpack(buffer), BLOCK_SIZE)
    requires BLOCK_SIZE < |buffer| && |buffer| % BLOCK_SIZE != 0
    ensures var block := ProposedBlock(buffer);
            && (|block| + BLOCK_SIZE - 1) / BLOCK_SIZE == |buffer| / BLOCK_SIZE
            && block != [] && WellFormed(block) && WellFormed(buffer[|block|..])
            && |block| <= |buffer| / 16384 * 16384
            && Unpack(buffer) == Unpack(buffer[|block|..]) + Unpack(block)
  {
    hide Boundary, Unpack, Junk;
    BoundarySplits(buffer, |buffer| / BLOCK_SIZE * BLOCK_SIZE, BLOCK_SIZE);
  }

  /** The proposed block ends less than one message in front of the last whole multiple of 16384 bytes. */
  lemma {:induction false} ProposedLength(buffer: seq<Byte>, size: nat)
    requires WellFormed(buffer) && Small(Unpack(buffer), size) && |buffer| % 16384 != 0
    ensures |ProposedBlock(buffer)| <= |buffer| / 16384 * 16384 < |ProposedBlock(buffer)| + size
  {
    hide Boundary, Unpack, Junk;
    BoundarySplits(buffer, |buffer| / BLOCK_SIZE * BLOCK_SIZE, size);
  }

  /** While messages are only appended, the proposal stays the front of the buffer, and what
      follows it stays whole messages: accepting it finalizes exactly its bytes. */
  lemma {:induction false} AppendsKeepProposal(buffer: seq<Byte>, later: seq<Byte>)
    requires WellFormed(buffer) && Small(Unpack(buffer), BLOCK_SIZE) && WellFormed(later)
    requires BLOCK_SIZE < |buffer| && |buffer| % BLOCK_SIZE != 0
    ensures var size := |ProposedBlock(buffer)|;
            && (buffer + later)[..size] == ProposedBlock(buffer)
            && WellFormed((buffer + later)[size..])
  {
    hide Boundary, Unpack, Junk;
    SameRound(buffer);
    var size := |ProposedBlock(buffer)|;
    assert (buffer + later)[size..] == buffer[size..] + later;
    WellFormedAppend(buffer[size..], later);
  }

  lemma {:induction false} TrimmedFits(buffer: seq<Byte>, size: nat)
    requires Small(Unpack(buffer), size)
    requires 2 * size <= BLOCK_SIZE && |buffer| <= UNFINALIZED_BUFFER_CAP + size
    ensures |Trimmed(buffer)| <= UNFINALIZED_BUFFER_CAP == 81920
    ensures WellFormed(buffer) && 81920 < |buffer| ==>
              |buffer| - |Trimmed(buffer)| <= 16384 < |buffer| - |Trimmed(buffer)| + size
    ensures Unpack(Trimmed(buffer)) <= Unpack(buffer)
    ensures WellFormed(buffer) || UNFINALIZED_BUFFER_CAP < |buffer| ==> WellFormed(Trimmed(buffer))
    ensures Small(Unpack(Trimmed(buffer)), size)
  {
    hide Boundary, Unpack, Junk;
    if |buffer| > UNFINALIZED_BUFFER_CAP {
      BoundarySplits(buffer, BLOCK_SIZE, size);
      SmallPrefix(Unpack(Trimmed(buffer)), Unpack(buffer), size);
    }
  }

  lemma {:induction false} SmallPrefix(xs: seq<Message>, ys: seq<Message>, size: nat)
    requires xs <= ys && Small(ys, size)
    ensures Small(xs, size)
  {
    forall i | 0 <= i < |xs| ensures |xs[i]| + 2 <= size { assert xs[i] == ys[i]; }
  }

  // ---------------------------------------------------------- select_finalizer

  /** The replica whose turn it is: the one with exactly `round` replicas nearer to the last
      block's hash, counting rounds modulo the size of the group. */
  method SelectFinalizer(selector: nat, members: seq<nat>, blockLen: nat) returns (r: nat)
    requires members != [] && Distinct(members)
    ensures r in members
    ensures |Before(Elements(members), r, selector)| == blockLen / BLOCK_SIZE % |members|
    ensures |set m | m in members && Xor(m, selector) < Xor(r, selector)| == blockLen / 16384 % |members|
  {
    hide IsClosest, Xor, Before;
    var roundCount := blockLen / BLOCK_SIZE;
    var sorted := SortByDistance(members, selector);
    SortIsClosest(members, selector, |members|);
    var i := roundCount % |members|;
    r := sorted[i];
    PlaceIsRank(sorted, Elements(members), selector, |members|, i);
    BeforeMeans(members, r, selector);
  }

  lemma {:induction false} BeforeMeans(members: seq<nat>, r: nat, selector: nat)
    ensures Before(Elements(members), r, selector) == set m | m in members && Xor(m, selector) < Xor(r, selector)
  {
    hide Xor;
  }

  /** A replica's turn, distance by distance: as many members are nearer to the hash as there are full blocks, counted
      modulo the members. */
  lemma {:induction false} TurnMeans(r: nat, selector: nat, members: seq<nat>, blockLen: nat)
    ensures IsFinalizer(r, selector, members, blockLen) <==>
              && r in members
              && |set m | m in members && Xor(m, selector) < Xor(r, selector)| == blockLen / 16384 % |members|
  {
    hide Xor, Before;
    BeforeMeans(members, r, selector);
  }

  ghost predicate IsFinalizer(r: nat, selector: nat, members: seq<nat>, blockLen: nat) {
    && members != [] && r in members
    && |Before(Elements(members), r, selector)| == blockLen / BLOCK_SIZE % |members|
  }

  /** Everyone selects the same finalizer, whatever the order of their group list. */
  lemma {:induction false} FinalizerIgnoresOrder(
    r: nat, s: nat, selector: nat, xs: seq<nat>, ys: seq<nat>, xLen: nat, yLen: nat)
    requires Distinct(xs) && Distinct(ys) && Elements(xs) == Elements(ys)
    requires IsFinalizer(r, selector, xs, xLen) && IsFinalizer(s, selector, ys, yLen)
    requires xLen / BLOCK_SIZE == yLen / BLOCK_SIZE
    ensures r == s
  {
    hide Before;
    DistinctSize(xs);
    DistinctSize(ys);
    assert r in Elements(xs) && s in Elements(ys);
    RankIsUnique(Elements(xs), r, s, selector);
  }

  /** A verifier with the same last block and the same group, in any order, confirms the
      proposer's turn from the length of the block alone. */
  lemma {:induction false} VerifierConfirms(
    r: nat, selector: nat, members: seq<nat>, group: seq<nat>, buffer: seq<Byte>)
    requires WellFormed(buffer) && Small(Unpack(buffer), BLOCK_SIZE)
    requires BLOCK_SIZE < |buffer| && |buffer| % BLOCK_SIZE != 0
    requires Distinct(members) && Distinct(group) && Elements(members) == Elements(group)
    requires IsFinalizer(r, selector, members, |buffer|)
    ensures IsFinalizer(r, selector, group, |ProposedBlock(buffer)| + BLOCK_SIZE - 1)
  {
    hide Before, Unpack, Junk, ProposedBlock;
    SameRound(buffer);
    DistinctSize(members);
    DistinctSize(group);
    assert r in Elements(members);
  }

  lemma {:induction false} TheFinalizer(r: nat, s: nat, selector: nat, members: seq<nat>, len: nat)
    requires Distinct(members) && IsFinalizer(r, selector, members, len)
    ensures IsFinalizer(s, selector, members, len) <==> r == s
  {
    if IsFinalizer(s, selector, members, len) {
      FinalizerIgnoresOrder(r, s, selector, members, members, len, len);
    }
  }

  lemma {:induction false} EntryIs(m: Message)
    ensures Entry(m) == m + ToU16(|m|) && |Entry(m)| == |m| + 2
  {
  }

  lemma {:induction false} AppendFits(buffer: seq<Byte>, m: Message)
    requires Small(Unpack(buffer), MAX_ENCODED + 2) && |m| <= MAX_ENCODED
    ensures Small(Unpack(buffer + Entry(m)), MAX_ENCODED + 2)
    ensures Unpack(buffer + Entry(m)) == [m] + Unpack(buffer) && Junk(buffer + Entry(m)) == Junk(buffer)
  {
    hide Unpack, Junk, Entry;
    UnpackAppend(buffer, m);
  }

  /** Writes the n bytes at `from + copied` over those at `copied`. */
  function CopyDown(file: seq<Byte>, from: nat, copied: nat, n: nat): (r: seq<Byte>)
    requires from + copied + n <= |file|
    ensures |r| == |file|
  {
    file[..copied] + file[from + copied..from + copied + n] + file[copied + n..]
  }

  lemma {:induction false} CopiedDown(was: seq<Byte>, file: seq<Byte>, from: nat, copied: nat, n: nat)
    requires |file| == |was| && from + copied + n <= |was|
    requires file[..copied] == was[from..from + copied] && file[from + copied..] == was[from + copied..]
    ensures var next := CopyDown(file, from, copied, n);
            && next[..copied + n] == was[from..from + copied + n]
            && next[from + copied + n..] == was[from + copied + n..]
  {
    assert file[from + copied..][..n] == was[from + copied..][..n];
    assert file[from + copied..][n..] == was[from + copied..][n..];
  }

  /** A message takes up its own length and two bytes. */
  lemma {:induction false} MessagesFit(b: seq<Byte>, m: Message)
    requires m in Unpack(b)
    ensures |m| + 2 <= |b|
    decreases |b|
  {
    hide Unpack;
    if Fits(b) {
      UnpackStep(b);
      if m != LastMessage(b) {
        MessagesFit(b[..LastStart(b)], m);
      }
    } else {
      UnpackStuck(b);
    }
  }

  lemma {:induction false} ShortFrontIsSmall(front: seq<Byte>, buffer: seq<Byte>, size: nat)
    requires WellFormed(buffer) && Small(Unpack(buffer), size) && |front| <= size
    ensures Small(Unpack(front + buffer), size)
  {
    hide Unpack, Junk;
    WellFormedAppend(front, buffer);
    var ms, older := Unpack(buffer), Unpack(front);
    var all := ms + older;
    forall i | 0 <= i < |all| ensures |all[i]| + 2 <= size {
      if i < |ms| {
        assert all[i] == ms[i];
      } else {
        assert all[i] == older[i - |ms|];
        MessagesFit(front, all[i]);
      }
    }
  }

  /** What compaction puts in front of the buffer in place of the new message, as many bytes as that
      takes: the message is in the buffer only when the finalized part happened to end with it. */
  lemma {:induction false} CompactionLosesMessage(front: seq<Byte>, buffer: seq<Byte>, m: Message)
    requires WellFormed(buffer) && m !in Unpack(buffer) && |m| <= MAX_ENCODED && |front| == |Entry(m)|
    ensures Unpack(front + buffer) == Unpack(buffer) + Unpack(front)
    ensures m in Unpack(front + buffer) <==> front == Entry(m)
  {
    hide Unpack, Junk, Entry;
    WellFormedAppend(front, buffer);
    EntryIs(m);
    if front == Entry(m) {
      UnpackAppend([], m);
      assert [] + Entry(m) == front;
      assert m == Unpack(front)[0];
    }
    if m in Unpack(front) {
      OnlyMessage(front, m);
    }
  }

  lemma {:induction false} OnlyMessage(b: seq<Byte>, m: Message)
    requires m in Unpack(b) && |b| == |m| + 2
    ensures b == Entry(m)
  {
    hide Unpack, Entry;
    if Fits(b) {
      UnpackStep(b);
      LastEntry(b);
      EntryIs(m);
      if m != LastMessage(b) {
        MessagesFit(b[..LastStart(b)], m);
      }
    } else {
      UnpackStuck(b);
    }
  }

  // ------------------------------------------------------------------- replica

  class Handle {
    /** The hash of a block, and this replica's identity. */
    const hash: seq<Byte> -> nat
    const self: nat
    var blocks: seq<Byte>
    var bufferLen: nat
    var number: nat
    var latestBlock: nat
    var checkpoint: nat
    var voting: map<nat, BlockProposal>

    ghost predicate Valid()
      reads this
    {
      && bufferLen <= |blocks| && bufferLen <= UNFINALIZED_BUFFER_CAP && checkpoint <= |blocks| - bufferLen
      && Small(Unpack(Buffer()), MAX_ENCODED + 2)
    }

    ghost function Finalized(): seq<Byte>
      requires bufferLen <= |blocks|
      reads this
    {
      blocks[..|blocks| - bufferLen]
    }

    ghost function Buffer(): seq<Byte>
      requires bufferLen <= |blocks|
      reads this
    {
      blocks[|blocks| - bufferLen..]
    }

    constructor (hash: seq<Byte> -> nat, self: nat)
      ensures Valid() && Finalized() == [] && Buffer() == [] && voting == map[]
      ensures this.hash == hash && this.self == self && number == 0 && latestBlock == 0 && checkpoint == 0
    {
      this.hash, this.self := hash, self;
      blocks, bufferLen, number, latestBlock, checkpoint, voting := [], 0, 0, 0, 0, map[];
    }

    /** Writes a message at the end of the file. */
    method Append(encoded: Message)
      requires Valid() && |encoded| <= MAX_ENCODED
      modifies `blocks, `bufferLen
      ensures bufferLen <= |blocks| && Finalized() == old(Finalized())
      ensures Buffer() == old(Buffer()) + Entry(encoded)
      ensures bufferLen <= UNFINALIZED_BUFFER_CAP + MAX_ENCODED + 2
      ensures EndsWith(blocks, old(blocks), encoded)
    {
      hide Unpack, Junk;
      EntryLayout(encoded);
      ghost var was := Buffer();
      var grown := blocks + encoded + ToU16(|encoded|);
      var size := bufferLen + |encoded| + 2;
      assert grown == blocks + Entry(encoded);
      assert grown[|grown| - size..] == was + Entry(encoded);
      assert grown[..|grown| - size] == Finalized();
      blocks, bufferLen := grown, size;
    }

    /** Drops the oldest block of a buffer that has outgrown its cap. */
    method DropOldest()
      requires bufferLen <= |blocks|
      modifies `blocks, `bufferLen
      ensures bufferLen <= |blocks| && Finalized() == old(Finalized())
      ensures Buffer() == Trimmed(old(Buffer()))
    {
      hide Boundary;
      if bufferLen > UNFINALIZED_BUFFER_CAP {
        var buffer := blocks[|blocks| - bufferLen..];
        var dropped := WalkBack(buffer, BLOCK_SIZE);
        var pos := |blocks| - bufferLen;
        blocks := blocks[..pos] + buffer[dropped..];
        bufferLen := |buffer| - dropped;
        assert Buffer() == buffer[dropped..];
      }
    }

    /** Proposes a block when it is this replica's turn. */
    method Propose(prevLen: nat, members: seq<nat>) returns (r: Option<(nat, seq<Byte>)>)
      requires bufferLen <= |blocks| && members != [] && Distinct(members)
      modifies `voting
      ensures r.Some? <==> ShouldFinalize(prevLen, bufferLen)
                           && IsFinalizer(self, latestBlock, members, bufferLen)
      ensures r == None ==> voting == old(voting)
      ensures r.Some? ==>
                var block := ProposedBlock(Buffer());
                && r.value == (number, block)
                && voting == old(voting)[hash(block) := BlockProposal(number, 1, 0, Local(|block|), [])]
    {
      hide Boundary, Before;
      if !ShouldFinalize(prevLen, bufferLen) {
        return None;
      }
      var selected := SelectFinalizer(latestBlock, members, bufferLen);
      TheFinalizer(selected, self, latestBlock, members, bufferLen);
      if selected != self { return None; }
      var block := blocks[|blocks| - bufferLen..];
      var blockSize := WalkBack(block, bufferLen / BLOCK_SIZE * BLOCK_SIZE);
      block := block[..blockSize];
      voting := voting[hash(block) := BlockProposal(number, 1, 0, Local(|block|), [])];
      r := Some((number, block));
    }

    /** Forgets the finalized bytes in front of the checkpoint, by copying what lies behind it, up to
        the given length, to the front of the file. */
    method Compact(fileLen: nat)
      requires checkpoint + bufferLen <= fileLen <= |blocks|
      modifies `blocks, `checkpoint
      ensures blocks == old(blocks)[old(checkpoint)..fileLen]
      ensures checkpoint == fileLen - old(checkpoint) - bufferLen
    {
      ghost var was := blocks;
      var from := checkpoint;
      var toCopy: nat, copied: nat := fileLen - from, 0;
      while toCopy > 0
        invariant copied + toCopy == fileLen - from && |blocks| == |was| && checkpoint == from
        invariant blocks[..copied] == was[from..from + copied]
        invariant blocks[from + copied..] == was[from + copied..]
      {
        var red := if COPY_LEN < toCopy then COPY_LEN else toCopy;
        CopiedDown(was, blocks, from, copied, red);
        blocks := CopyDown(blocks, from, copied, red);
        toCopy, copied := toCopy - red, copied + red;
      }
      blocks := blocks[..copied];
      checkpoint := fileLen - from - bufferLen;
    }

    /** The finalized history is long enough to be compacted. */
    predicate Due()
      reads this
      ensures Due() <==> |blocks| - checkpoint > 131072
    {
      |blocks| - checkpoint > BLOCK_HISTORY * BLOCK_SIZE
    }

    lemma {:induction false} TakenBack(kept: seq<Byte>, buffer: seq<Byte>, n: nat)
      requires n <= |kept|
      ensures var file, len := kept + buffer, n + |buffer|;
              file[|file| - len..] == kept[|kept| - n..] + buffer && file[..|file| - len] == kept[..|kept| - n]
    {
    }

    method AppendAndCompact(encoded: Message)
      requires Valid() && |encoded| <= MAX_ENCODED
      modifies `blocks, `bufferLen, `checkpoint
      ensures bufferLen <= |blocks| && checkpoint <= |blocks| - bufferLen && bufferLen <= UNFINALIZED_BUFFER_CAP + MAX_ENCODED + 2
      ensures old(WellFormed(Buffer())) || !old(Due()) ==> Small(Unpack(Buffer()), MAX_ENCODED + 2)
      ensures !old(Due()) ==>
                && Finalized() == old(Finalized()) && Buffer() == old(Buffer()) + Entry(encoded)
                && (old(WellFormed(Buffer())) ==> WellFormed(Buffer()))
      ensures old(Due()) ==>
                var kept, n := old(Finalized()[checkpoint..]), |Entry(encoded)|;
                && n <= |kept| && Finalized() == kept[..|kept| - n] && Buffer() == kept[|kept| - n..] + old(Buffer())
    {
      hide Unpack, Junk, Entry, Small;
      var fileLen := |blocks|;
      ghost var finalized, buffer := Finalized(), Buffer();
      AppendFits(Buffer(), encoded);
      EntryIs(encoded);
      Append(encoded);
      if fileLen - checkpoint > BLOCK_HISTORY * BLOCK_SIZE {
        ghost var kept, n := finalized[checkpoint..], |Entry(encoded)|;
        assert old(blocks) == finalized + buffer;
        assert blocks[..fileLen] == old(blocks) by { assert blocks == finalized + (buffer + Entry(encoded)); }
        assert blocks[checkpoint..fileLen] == kept + buffer;
        Compact(fileLen);
        TakenBack(kept, buffer, n);
        if WellFormed(buffer) { ShortFrontIsSmall(kept[|kept| - n..], buffer, MAX_ENCODED + 2); }
      }
    }

    /** Appends a message, compacts a history that is due, and drops the oldest block when the buffer outgrows its
        cap. */
    method TakeIn(encoded: Message)
      requires Valid() && |encoded| <= MAX_ENCODED
      modifies `blocks, `bufferLen, `checkpoint
      ensures bufferLen <= |blocks|
      ensures old(WellFormed(Buffer())) || !old(Due()) ==> Valid()
      ensures !old(Due()) ==> Finalized() == old(Finalized()) && Buffer() == Trimmed(old(Buffer()) + Entry(encoded))
      ensures !old(Due()) && old(WellFormed(Buffer())) ==>
                var b, n := Buffer(), |encoded|;
                && WellFormed(b)
                && n + 2 <= |b| && b[|b| - 2 - n..|b| - 2] == encoded && (b[|b| - 2] as int) * 256 + b[|b| - 1] as int == n
      ensures old(Due()) ==>
                var kept, n := old(Finalized()[checkpoint..]), |Entry(encoded)|;
                && n <= |kept| && Finalized() == kept[..|kept| - n]
                && Buffer() == Trimmed(kept[|kept| - n..] + old(Buffer()))
    {
      hide Unpack, Junk, Boundary, Entry, Trimmed, Small, WellFormed;
      if WellFormed(Buffer()) { TrimmedEnds(Buffer(), encoded); }
      AppendAndCompact(encoded);
      if Small(Unpack(Buffer()), MAX_ENCODED + 2) { TrimmedFits(Buffer(), MAX_ENCODED + 2); }
      DropOldest();
    }

    /** Appends a message, compacts a history that is due, drops the oldest block when the buffer
        outgrows its cap, and, when it is this replica's turn, proposes a block. The compaction uses
        the length from before the append: it cuts the message off, and the buffer begins as many
        bytes earlier, in the finalized part. */
    method SendMessage(encoded: Message, members: seq<nat>) returns (r: Result<Option<(nat, seq<Byte>)>, ChatError>)
      requires Valid() && members != [] && Distinct(members)
      modifies `blocks, `bufferLen, `voting, `checkpoint
      ensures bufferLen <= |blocks|
      ensures old(WellFormed(Buffer())) || !old(Due()) || r.Err? ==> Valid()
      ensures !old(Due()) || r.Err? ==> Finalized() == old(Finalized())
      ensures !old(Due()) && old(WellFormed(Buffer())) ==> WellFormed(Buffer())
      ensures r.Err? <==> |encoded| > 1040
      ensures r.Err? ==> Buffer() == old(Buffer()) && blocks == old(blocks)
      ensures r.Ok? && !old(Due()) ==> Buffer() == Trimmed(old(Buffer()) + Entry(encoded))
      ensures r.Ok? && !old(Due()) && old(WellFormed(Buffer())) ==>
                var b, n := Buffer(), |encoded|;
                n + 2 <= |b| && b[|b| - 2 - n..|b| - 2] == encoded && (b[|b| - 2] as int) * 256 + b[|b| - 1] as int == n
      ensures r.Ok? && old(Due()) ==>
                var kept, n := old(Finalized()[checkpoint..]), |Entry(encoded)|;
                && n <= |kept| && Finalized() == kept[..|kept| - n]
                && Buffer() == Trimmed(kept[|kept| - n..] + old(Buffer()))
      ensures r.Err? || r.value == None ==> voting == old(voting)
      ensures r.Ok? ==> (r.value.Some? <==> ShouldFinalize(old(bufferLen), bufferLen)
                                            && IsFinalizer(self, latestBlock, members, bufferLen))
      ensures r.Ok? && r.value.Some? ==>
                var block := ProposedBlock(Buffer());
                && r.value.value == (number, block)
                && voting == old(voting)[hash(block) := BlockProposal(number, 1, 0, Local(|block|), [])]
    {
      hide Unpack, Junk, Boundary, Entry, IsFinalizer, Trimmed, ProposedBlock, Small, WellFormed, ShouldFinalize;
      if |encoded| > MAX_ENCODED { return Err(Encoding); }
      var prevLen := bufferLen;
      TakeIn(encoded);
      var proposed := Propose(prevLen, members);
      r := Ok(proposed);
    }

    /** The checks a replica makes of a proposed block, in order. The proposal is recorded
        before its number and its messages are checked. */
    method ProposalLow(origin: nat, group: seq<nat>, number: nat, block: seq<Byte>, proposal: BlockProposal)
      returns (r: Result<(), ChatError>, next: BlockProposal)
      requires Valid() && group != [] && Distinct(group)
      ensures r == Checked(latestBlock, Buffer(), origin, group, number, block, proposal)
      ensures next == Recorded(r, proposal, block)
    {
      hide Unpack, Junk, Before, Filter;
      next := proposal;
      if proposal.proposal != Absent { return Err(AlreadyVoted), next; }
      if origin in proposal.votes { return Err(AlreadyVoted), next; }
      var selected := SelectFinalizer(latestBlock, group, |block| + BLOCK_SIZE - 1);
      TheFinalizer(selected, origin, latestBlock, group, |block| + BLOCK_SIZE - 1);
      if selected != origin { return Err(WrongProposer), next; }
      next := proposal.(proposal := Remote(block));
      if proposal.number != number { return Err(WrongBlockNumber), next; }
      var buffer := blocks[|blocks| - bufferLen..];
      var messages := Unpack(block);
      var proposed := Elements(messages);
      var present := CountPresent(proposed, buffer);
      if present != |proposed| { return Err(BlockUnexpectedMessages), next; }
      r := Ok(());
    }

    /** Accepts a block this replica proposed itself: the recorded number of bytes at the front of
        the buffer becomes finalized, whatever they are by now. When the buffer has become shorter,
        its 64-bit length wraps and is stored like that. */
    method AcceptLocal(hash: nat, number: nat, size: nat)
      requires Valid() && size < U64
      modifies `bufferLen, `number, `latestBlock, `voting
      ensures this.number == number && latestBlock == hash && voting == Retained(old(voting), number)
      ensures bufferLen == if size <= old(bufferLen) then old(bufferLen) - size else old(bufferLen) - size + U64
      ensures size <= old(bufferLen) ==>
                && Valid()
                && Finalized() == old(Finalized()) + old(Buffer())[..size] && Buffer() == old(Buffer())[size..]
    {
      hide Unpack, Junk, Small, Minus, Retained;
      this.number, latestBlock := number, hash;
      voting := Retained(voting, number);
      ghost var was := Buffer();
      bufferLen := Minus(bufferLen, size);
      if size <= |was| {
        assert Buffer() == was[size..];
        assert was == was[..size] + was[size..];
        WindowReadsTheSame(was[..size], was[size..]);
        SmallPrefix(Unpack(was[size..]), Unpack(was), MAX_ENCODED + 2);
      }
    }

    /** Accepts a block another replica proposed: its bytes become finalized, and its messages
        leave the buffer. */
    method AcceptRemote(hash: nat, number: nat, data: seq<Byte>)
      requires Valid()
      modifies `blocks, `bufferLen, `number, `latestBlock, `voting
      ensures Valid() && WellFormed(Buffer()) && this.number == number && latestBlock == hash
      ensures voting == Retained(old(voting), number)
      ensures Finalized() == old(Finalized()) + data
      ensures Unpack(Buffer()) == Filter(Outside(Elements(Unpack(data))), Unpack(old(Buffer())))
      ensures forall m :: m in Unpack(Buffer()) <==> m in Unpack(old(Buffer())) && m !in Unpack(data)
      ensures Buffer() == Pack(Unpack(Buffer()))
    {
      hide Unpack, Junk, Pack, Filter;
      this.number, latestBlock := number, hash;
      voting := Retained(voting, number);
      var buffer := blocks[|blocks| - bufferLen..];
      var kept := blocks[..|blocks| - bufferLen];
      var lookup := Elements(Unpack(data));
      ghost var was := buffer;
      buffer := RetainInVec(buffer, Outside(lookup));
      RetainedUnpacks(Outside(lookup), was);
      FilteredSmall(Outside(lookup), was, MAX_ENCODED + 2);
      bufferLen := |buffer|;
      blocks := kept + (data + buffer);
      assert Buffer() == buffer;
      assert Finalized() == kept + data;
    }
  }

  /** The first check that a proposed block fails, for a replica with this latest block and buffer. */
  ghost function Checked(latest: nat, buffer: seq<Byte>, origin: nat, group: seq<nat>, number: nat, block: seq<Byte>,
                         proposal: BlockProposal): Result<(), ChatError>
  {
    if proposal.proposal != Absent || origin in proposal.votes then Err(AlreadyVoted)
    else if !IsFinalizer(origin, latest, group, |block| + BLOCK_SIZE - 1) then Err(WrongProposer)
    else if proposal.number != number then Err(WrongBlockNumber)
    else if !Present(Elements(Unpack(block)), Unpack(buffer)) then Err(BlockUnexpectedMessages)
    else Ok(())
  }

  /** A block that passes the first two checks is recorded, whether or not it passes the others. */
  function Recorded(r: Result<(), ChatError>, proposal: BlockProposal, block: seq<Byte>): BlockProposal {
    if r.Err? && r.error in {AlreadyVoted, WrongProposer} then proposal else proposal.(proposal := Remote(block))
  }

  /** The file has grown by a message and the two bytes of its length. */
  ghost predicate EndsWith(blocks: seq<Byte>, was: seq<Byte>, m: Message) {
    && |blocks| == |was| + |m| + 2 && blocks[..|was|] == was && blocks[|was|..|was| + |m|] == m
    && (blocks[|blocks| - 2] as int) * 256 + blocks[|blocks| - 1] as int == |m|
  }

  lemma {:induction false} SuffixEnds(front: seq<Byte>, e: seq<Byte>, cut: nat, n: nat)
    requires |e| == n + 2 && cut <= |front|
    ensures var b := (front + e)[cut..];
            n + 2 <= |b| && b[|b| - 2 - n..|b| - 2] == e[..n] && b[|b| - 2] == e[n] && b[|b| - 1] == e[n + 1]
  {
    assert (front + e)[cut..] == front[cut..] + e;
  }

  /** The newest message stands at the end, whatever was dropped in front. */
  lemma {:induction false} TrimmedEnds(buffer: seq<Byte>, m: Message)
    requires WellFormed(buffer) && Small(Unpack(buffer), MAX_ENCODED + 2) && |m| <= MAX_ENCODED
    ensures var b := Trimmed(buffer + Entry(m));
            |m| + 2 <= |b| && b[|b| - 2 - |m|..|b| - 2] == m && (b[|b| - 2] as int) * 256 + b[|b| - 1] as int == |m|
  {
    hide Unpack, Junk, Boundary, Entry, Small;
    EntryLayout(m);
    AppendFits(buffer, m);
    BoundarySplits(buffer + Entry(m), BLOCK_SIZE, MAX_ENCODED + 2);
    SuffixEnds(buffer, Entry(m), |buffer + Entry(m)| - |Trimmed(buffer + Entry(m))|, |m|);
  }

  /** `a - b` on 64 bits. */
  function Minus(a: nat, b: nat): (d: nat)
    requires a < U64 && b < U64
    ensures d == if b <= a then a - b else a - b + U64
  {
    (a - b) % U64
  }

  /** `voting.retain`: proposals of earlier blocks are forgotten. */
  function Retained(voting: map<nat, BlockProposal>, number: nat): map<nat, BlockProposal> {
    map h | h in voting && voting[h].number >= number :: voting[h]
  }

  method CountPresent(proposed: set<Message>, buffer: seq<Byte>) returns (n: nat)
    ensures n == |Filter(Inside(proposed), Unpack(buffer))|
  {
    hide Unpack, Filter, Junk;
    n := 0;
    var l := |buffer|;
    assert buffer[..l] == buffer;
    while Fits(buffer[..l])
      invariant l <= |buffer|
      invariant |Filter(Inside(proposed), Unpack(buffer))| == n + |Filter(Inside(proposed), Unpack(buffer[..l]))|
      decreases l
    {
      var b := buffer[..l];
      UnpackStep(b);
      var s := LastStart(b);
      assert b[..s] == buffer[..s];
      FilterFirst(Inside(proposed), Unpack(b));
      assert Unpack(b)[1..] == Unpack(buffer[..s]);
      if LastMessage(b) in proposed { n := n + 1; }
      l := s;
    }
    UnpackStuck(buffer[..l]);
    FilterNothing(Inside(proposed));
  }

  lemma {:induction false} FilterNothing(keep: Message -> bool)
    ensures Filter(keep, []) == []
  {
  }

  lemma {:induction false} PackLengthBound(keep: Message -> bool, ms: seq<Message>)
    ensures |Pack(Filter(keep, ms))| <= |Pack(ms)|
  {
    if ms == [] {
    } else {
      PackLengthBound(keep, ms[1..]);
      FilterFirst(keep, ms);
      hide Pack, Filter;
      PackStep(ms);
      var f := Filter(keep, ms[1..]);
      PackStep([ms[0]] + f);
      assert ([ms[0]] + f)[1..] == f && [] + f == f;
    }
  }

  lemma {:induction false} FilteredSmall(keep: Message -> bool, b: seq<Byte>, size: nat)
    requires Small(Unpack(b), size)
    ensures Small(Filter(keep, Unpack(b)), size)
    ensures |Pack(Filter(keep, Unpack(b)))| <= |b|
  {
    hide Unpack, Junk, Filter, Pack;
    PackOfUnpack(b);
    PackLengthBound(keep, Unpack(b));
    var ms, f := Unpack(b), Filter(keep, Unpack(b));
    forall i | 0 <= i < |f| ensures |f[i]| + 2 <= size {
      assert f[i] in ms;
      var j :| 0 <= j < |ms| && ms[j] == f[i];
    }
  }
}
