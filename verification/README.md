# Verified models of the network's algorithmic cores

The repository is a decentralised chat network: clients talk through a double ratchet, nodes
exchange encrypted streams, replicas of a chat keep a block log, and storage is spread with
erasure codes and audited with Merkle trees. This project models the parts of it that are
algorithms rather than wiring, and proves what each is for. `dafny verify dfyconfig.toml`
checks all of it.

- **Double ratchet** (`DoubleRatchet`, `RatchetRuns`). The ratchet is an object with the
  source's fields; its methods are proved equal to step functions, and every run of two
  honest parties over a channel that loses, repeats and reorders headers is shown safe. Hash,
  key derivation, Diffie-Hellman and key encapsulation are parameters of which only two laws
  are used: Diffie-Hellman commutes and decapsulation inverts encapsulation. Step counters
  wrap at 32 bits, as they do in a release build.
- **Falcon** (`HashToPoint`, `Bits`, `FalconCodec`, `FalconFields`). The constant-time
  hash-to-point network (section 3.7 of the Falcon specification v1.2) against plain rejection
  sampling, the norm checks with their wrapping accumulator, the signature compressor (section
  3.11.2) and the fixed-width packers. The squeezed hash output is a parameter. Masks are words
  that are checked to be all zeros or all ones; the accumulator is a number cut to 32 bits
  after every shift; `is_short`'s accumulated word `ng` is represented by its top bit, the only
  one that is looked at.
- **Merkle tree** (`MerkleTree`). The in-order array: batch construction in place, incremental
  `push` and the sibling iterator with their masks and clamps, against recursive definitions,
  for any `combine`.
- **Reed-Solomon** (`Field`, `Vandermonde`, `Fec`, `MatrixInverse`, `Syndrome`, `PolyDivision`,
  `Galois`). Everything is proved over any field of characteristic two on bytes; `Galois` proves
  that the tables the build script generates make such a field. Row-major matrices are
  two-dimensional arrays. The shares that the syndromes are taken of come sorted by different
  numbers, as `Resources::new` leaves them.
- **Encrypted stream** (`Framing`, `Opfusk`, `OpfuskRuns`, `OpfuskLimits`). Both endpoints with
  their buffers, indices and garbage collection, over an inner stream that answers every poll as
  an arbitrary script says. The authenticated cipher is a parameter: decryption inverts encryption and
  lengths are kept. The reader is proved correct for any bytes on the wire, not only those of
  an honest writer.
- **Chat log** (`ChatMessages`, `ChatBlocks`, `ChatLog`, `ChatPosts`, `ChatRuns`,
  `ChatProposals`, `ChatStale`, `ChatServer`, `ChatTally`, `ChatReplica`, `ChatPaging`). Messages parsed backwards, in-place retention, the
  replica's file with its finalized part and its buffer, block proposal and acceptance, whole runs
  of a replica and of its votes, and backward paging. Files are byte sequences; hashes of blocks are a parameter,
  taken to be different for different blocks where a lemma says so.
- **Streaming requests** (`Streaming`, `StreamingRuns`), **routing table** (`Lists`,
  `Distance`, `Dht`) and **binary codec** (`Codec`, `CodecSpelling`, `CodecIo`).

`Arithmetic`, `Bytes`, `Octets` and `Wrappers` hold what the others share. Library
operations that the source calls (sorting by key, binary search, slice moves) are modelled by
what they do.

What the proofs brought out about the code, each with a lemma or a contract that states it:

- Once a party of the double ratchet has answered, what it had not read of its peer's chain is
  lost: the keys that the next round makes it skip are stored under its own step and never found
  again (`SkippedKeysAreLost`, `LostStaysLost`, `SkippingRun`). A chain that reaches counter 2^32 - 1 is mistaken
  for a guarded one (`CounterRunsIntoGuard`).
- The plain left fold over a Merkle proof works if and only if `combine` commutes
  (`FoldNeedsCommuting`).
- `Poly::div` fails on a dividend of full length 256, because `pop` reads one place too far
  (`Div`).
- The encrypted stream needs a capacity of at least 62 and below 65596; the configuration lets
  through more on both sides. At 60 and 61 an endpoint sends empty frames without end
  (`SpinsForever`), below that the first frame outgrows the buffer (`SmallBufferOverflows`), and
  from 65596 on the first full frame is misread (`OverlongFrame`). A `poll_write` that fails may
  have taken data all the same (`FailedWriteTakesData`), and a reader that meets the end of the
  inner stream gets an error even while data is on hand (`PollRead`).
- A replica's check of a proposal is exact if and only if its buffer repeats no message
  (`CheckIsExact`). It repeats none as long as nonces only grow, but rewriting a member's record
  resets the nonce (`NoRepeatsWithoutResets`, `ResetLetsRepeat`).
- A replica that accepts its own proposal finalizes as many bytes as were proposed, whatever they
  are by then: the block itself if and only if all its messages are still buffered
  (`FinalizesProposals`). A buffer that passes its cap in between breaks it
  (`ProposalStandsUntilTrimmed`, `StaleProposal`).
- When a received block is accepted before an own proposal that it overlaps, the length of the
  buffer wraps (`WrapRun`).
- Every delivery of a block counts for it, so that a block is accepted without anybody's vote when
  it is delivered often enough, even one that failed the checks (`DeliveriesAloneAccept`), and an
  accepted block can be accepted and finalized again (`AcceptedAgain`, `TwiceFinalized`).
- From the second block on a block is proposed once for each that the buffer grows by, but not at all when a length lands
  exactly on the middle of a block (`OneTurnPerBlock`).
- Compaction of finalized history loses the message that triggers it, because it uses a length
  read before the append (`CompactionLosesMessage`, `CompactionRun`).
- A vector whose elements take no bytes does not decode (`VecNeedsNonEmpty`), and integers have
  more than one accepted spelling (`IntIsCanonical`).
- An outcome reported for a connection that is no longer tracked would be counted twice
  (`ReportKeepsCount`).

## Model

| member | source | states |
|---|---|---|
| `DoubleRatchet.Ratchet.Sender` | crypto/double-ratchet/src/lib.rs:82-107 | the starter's first state: two keys drawn from the shared secret, its chain at counter 1, zero ciphertext and secret |
| `DoubleRatchet.Ratchet.Recipient` | crypto/double-ratchet/src/lib.rs:48-80 | the answerer's first state: guarded sending chain seeded with Diffie-Hellman, encapsulated secret kept for its first mixed round |
| `DoubleRatchet.Ratchet.AddMissingMessage` | crypto/double-ratchet/src/lib.rs:190-205 | stores the chain's keys up to the given counter, oldest dropped at five; refused exactly when the counter is behind the chain |
| `DoubleRatchet.Ratchet.FindMissingMessage` | crypto/double-ratchet/src/lib.rs:182-188 | hands out the first stored key of an id and removes it, or reports a missing message and changes nothing |
| `DoubleRatchet.IndexOf` | crypto/double-ratchet/src/lib.rs:183-185 | the first position of the id, or proof that it is nowhere in the list |
| `DoubleRatchet.Skip` | crypto/double-ratchet/src/lib.rs:195-202 | skipping touches nothing but the receiving chain and the list of stored keys |
| `DoubleRatchet.Ratchet.EnterRound` | crypto/double-ratchet/src/lib.rs:133-149 | a new root step from the header's keys, with a fresh Diffie-Hellman secret; with a key in the header also a fresh encapsulation secret, and ciphertext and secret newly encapsulated to that key; on a failed decapsulation only the Diffie-Hellman secret has changed |
| `DoubleRatchet.Ratchet.AdvanceRoot` | crypto/double-ratchet/src/lib.rs:145-148 | root, receiving chain, hash and guard after the two inputs were mixed |
| `DoubleRatchet.Ratchet.Recv` | crypto/double-ratchet/src/lib.rs:117-153 | new state and outcome of every header, including every error path, as the step that the run theorems are about |
| `DoubleRatchet.Ratchet.Send` | crypto/double-ratchet/src/lib.rs:155-180 | header, key and new state, starting a round from the guarded state and mixing in the secret every 35th step |
| `DoubleRatchet.InitLaw` | crypto/double-ratchet/src/lib.rs:48-107 | both parties' first states, key by key and counter by counter, from the shared secret |
| `DoubleRatchet.SkipKeepsNewest` | crypto/double-ratchet/src/lib.rs:190-205 | skipping takes each key up to the counter off the chain, in order, and of all kept keys the newest five remain |
| `DoubleRatchet.SendLaw` | crypto/double-ratchet/src/lib.rs:155-180 | when sending takes a root step, from which input, what the header carries and when it carries the encapsulation, field by field |
| `DoubleRatchet.RecvPastLaw` | crypto/double-ratchet/src/lib.rs:122-131 | a header behind the receiver gets the first key kept for its id, which is then gone, or nothing changes |
| `DoubleRatchet.RecvAheadLaw` | crypto/double-ratchet/src/lib.rs:127-152 | a header ahead on the current chain gets the key so many places further on, and the keys before it are kept |
| `DoubleRatchet.RecvRoundLaw` | crypto/double-ratchet/src/lib.rs:130-152 | a header of a later round: when it is refused and what has changed by then, else the new root from the mixed input, the renewed secrets, the guard and the key |
| `RatchetRuns.NextKeepsInv` | crypto/double-ratchet/src/lib.rs:117-205 | the two-party invariant (both roots, chains, hashes, secrets and stored keys agree) survives every send and every delivery of any header the peer ever sent |
| `RatchetRuns.EveryRunIsSafe` | crypto/double-ratchet/src/lib.rs:48-205 | in every run with any loss, repetition and reordering, an accepted header returned exactly the key its `send` returned, no id is accepted twice, and at most five skipped keys are held |
| `RatchetRuns.EveryHeaderHasItsOutcome` | crypto/double-ratchet/src/lib.rs:117-153 | in every reachable state a peer's header is accepted exactly when it is ahead of the receiver or its key was kept; otherwise the answer is a missing message |
| `RatchetRuns.EveryRoundRenews` | crypto/double-ratchet/src/lib.rs:133-149 | in every run, each party's Diffie-Hellman secret, encapsulation seed, ciphertext and encapsulated secret are those of the last deliveries that renewed them |
| `RatchetRuns.OpenedRoundIsFresh` | crypto/double-ratchet/src/lib.rs:133-149 | in every run, a delivery that opens a round puts its own draws in place, and what encapsulation yields for the header's key; without a key in the header the encapsulation's secrets stay |
| `RatchetRuns.HeaderPublishesSecrets` | crypto/double-ratchet/src/lib.rs:165-177 | in every run, a sent header carries the public key of the sender's present secret, and in every 35th round exactly that of its present seed, with its ciphertext |
| `RatchetRuns.HashesMatch` | crypto/double-ratchet/src/lib.rs:109-115 | at equal root steps each party's sending hash is the other's receiving hash |
| `RatchetRuns.LostStaysLost` | crypto/double-ratchet/src/lib.rs:182-205 | a key of a past round that is not among the kept ones is never obtained again, whatever is sent or received |
| `RatchetRuns.UnreadIsLost` | crypto/double-ratchet/src/lib.rs:117-153 | once a party has answered, every key of its peer's chain that it had not yet read is lost |
| `RatchetRuns.SkippedKeysAreLost` | crypto/double-ratchet/src/lib.rs:133-149 | in every run, after a header of the next round each key that it made the receiver skip on the previous chain is lost: the keys are derived, but stored under the wrong step |
| `RatchetRuns.SkippingRun` | crypto/double-ratchet/src/lib.rs:117-153 | a run of seven steps in which a key is skipped by a round change and its message, arriving late, cannot be read |
| `RatchetRuns.CounterRunsIntoGuard` | crypto/double-ratchet/src/lib.rs:155-163 | the bound on messages per chain is needed: at counter 2^32 - 1 the next send starts a round of its own accord |
| `HashToPoint.HashToPointVartime` | crypto/falcon/falcon/src/common.rs:28-56 | the first n accepted samples of the stream, reduced modulo q, in order |
| `HashToPoint.SamplingLaw` | crypto/falcon/falcon/src/common.rs:38-53 | every residue comes from exactly five accepted samples, and samples are taken in stream order |
| `HashToPoint.Reduced` | crypto/falcon/falcon/src/common.rs:91-132 | three masked subtractions leave the residue of an accepted sample and mark a rejected one |
| `HashToPoint.FillTable` | crypto/falcon/falcon/src/common.rs:91-132 | the three buffers laid end to end hold one marked entry per sample |
| `HashToPoint.NoCollision` | crypto/falcon/falcon/src/common.rs:141-180 | no kept entry stands where a moving entry lands, or between there and its place |
| `HashToPoint.PassStep` | crypto/falcon/falcon/src/common.rs:141-180 | one masked swap keeps the order of kept entries and leaves every scanned distance divisible by twice the weight |
| `HashToPoint.SwapStep` | crypto/falcon/falcon/src/common.rs:141-180 | the masked reads and writes through the three buffers are that swap |
| `HashToPoint.Pass` | crypto/falcon/falcon/src/common.rs:137-183 | a pass of weight p clears the bit p of every kept entry's distance and loses nothing |
| `HashToPoint.CompactTable` | crypto/falcon/falcon/src/common.rs:136-184 | after the passes the kept entries stand in front, when enough were kept |
| `HashToPoint.HashToPointCt` | crypto/falcon/falcon/src/common.rs:58-185 | the constant-time result is what rejection sampling yields if and only if at least n of the n + over samples are accepted |
| `HashToPoint.HashToPointTable` | crypto/falcon/falcon/src/common.rs:58-185 | the same for any n and over that the tables hold; with too few accepted samples some output is not a residue |
| `HashToPoint.IsShort` | crypto/falcon/falcon/src/common.rs:200-226 | true exactly when the sum of both squared norms, as an unbounded number, is within the bound, although the sum wraps |
| `HashToPoint.IsShortHalf` | crypto/falcon/falcon/src/common.rs:228-249 | the same from a given partial norm |
| `HashToPoint.NormLaw` | crypto/falcon/falcon/src/common.rs:209-240 | the squared norm of vectors laid end to end is the sum of the norms, and of one number its square |
| `FalconCodec.EmitBytes` | crypto/falcon/falcon/src/codec.rs:409-419 | whole bytes leave the accumulator in order, fewer than eight bits stay, and failure means the buffer is full |
| `FalconCodec.EmitLast` | crypto/falcon/falcon/src/codec.rs:423-436 | the last bits are padded with zeros to a byte |
| `FalconCodec.AppendCode` | crypto/falcon/falcon/src/codec.rs:393-408 | sign, seven bits and unary rest of a coefficient enter the accumulator without overflow |
| `FalconCodec.CodeLayout` | crypto/falcon/falcon/src/codec.rs:393-408 | the code bit by bit: the sign, seven low bits with the highest first, a zero for each further 128, a one; coefficients in order |
| `FalconCodec.CompEncode` | crypto/falcon/falcon/src/codec.rs:364-438 | refused exactly when a coefficient is out of range or the code does not fit; otherwise the bytes are the zero-padded code, and only the length is computed without a buffer |
| `FalconCodec.DecodeOne` | crypto/falcon/falcon/src/codec.rs:459-501 | one coefficient off the bit stream, with every rejection, across byte boundaries |
| `FalconCodec.CompDecode` | crypto/falcon/falcon/src/codec.rs:440-511 | accepts exactly the inputs that parse as n coefficients and zero padding, and returns them with the bytes consumed |
| `FalconCodec.DecompressCompressed` | crypto/falcon/falcon/src/codec.rs:364-511 | decoding an encoding, whatever follows it, gives the same coefficients and length |
| `FalconCodec.CompressDecompressed` | crypto/falcon/falcon/src/codec.rs:440-511 | whatever is accepted is byte for byte the encoding of what is returned: no negative zero, no other padding |
| `FalconFields.Pack` | crypto/falcon/falcon/src/codec.rs:46-63 | the shared packing loop writes the fields, most significant bit first, and zero padding |
| `FalconFields.FieldLayout` | crypto/falcon/falcon/src/codec.rs:46-63 | which coefficients are packed, and that each is its two's complement in the format's width, in order |
| `Bits.BytesLayout` | crypto/falcon/falcon/src/codec.rs:46-63 | a byte's bits in the packed string are its eight, the highest first |
| `Bits.BitAt` | crypto/falcon/falcon/src/codec.rs:46-63 | bit i of a field weighs two to the power of the bits behind it |
| `Bits.PaddedLayout` | crypto/falcon/falcon/src/codec.rs:423-436 | the padded string is the bits and then fewer than eight zeros |
| `FalconFields.Encode` | crypto/falcon/falcon/src/codec.rs:16-303 | all three packers: refused exactly on a coefficient out of range or too little room; otherwise the packed fields and nothing else is written |
| `FalconFields.TakeFields` | crypto/falcon/falcon/src/codec.rs:339-353 | fields leave the accumulator in order until one is refused or too few bits are left |
| `FalconFields.Decode` | crypto/falcon/falcon/src/codec.rs:67-362 | all three unpackers: accept exactly enough bytes holding accepted fields and zero padding |
| `FalconFields.UnpackPacked` | crypto/falcon/falcon/src/codec.rs:16-113 | unpacking a packing, whatever follows it, gives the coefficients and its length |
| `FalconFields.PackUnpacked` | crypto/falcon/falcon/src/codec.rs:240-362 | whatever is accepted is byte for byte the packing of what is returned |
| `MerkleTree.ComputeRecur` | crypto/merkle-tree/src/lib.rs:44-60 | fills the slice in place with the in-order array of its leaves and returns their root, touching nothing outside |
| `MerkleTree.BuildJoin` | crypto/merkle-tree/src/lib.rs:44-60 | a full block and at most as many leaves behind it: their arrays around one node that combines the left root with the right |
| `MerkleTree.RootInOrder` | crypto/merkle-tree/src/lib.rs:44-60 | the root takes every leaf once and in order |
| `MerkleTree.LeafInArray` | crypto/merkle-tree/src/lib.rs:62 | leaf i is stored at place 2 i |
| `MerkleTree.Tree.constructor` | crypto/merkle-tree/src/lib.rs:39-41 | the tree over one leaf |
| `MerkleTree.Tree.FromBase` | crypto/merkle-tree/src/lib.rs:43-71 | the array over the given leaves, or over one default leaf when there are none |
| `MerkleTree.MidPointOfLeaves` | crypto/merkle-tree/src/lib.rs:82-84 | the power-of-two formula points at the recursive root position |
| `MerkleTree.Tree.GetRoot` | crypto/merkle-tree/src/lib.rs:74-76 | the recursive root of the leaves |
| `MerkleTree.JoinLeft` | crypto/merkle-tree/src/lib.rs:93-104 | one step of the climb joins the finished block on the left with what was built so far, clamp included |
| `MerkleTree.Tree.Push` | crypto/merkle-tree/src/lib.rs:86-105 | pushing a leaf gives exactly the array over the leaves with it appended, for any combine |
| `MerkleTree.CollectByPush` | crypto/merkle-tree/src/lib.rs:38-105 | starting from the first leaf and pushing the rest gives the same tree as the batch construction |
| `MerkleTree.BlockInArray` | crypto/merkle-tree/src/lib.rs:43-71 | every aligned block of leaves occupies its own stretch of the array, laid out as its own tree |
| `MerkleTree.LevelStep` | crypto/merkle-tree/src/lib.rs:117-145 | one step of the iterator finds the sibling of the climbing node at its clamped position, or knows there is none |
| `MerkleTree.Tree.Proof` | crypto/merkle-tree/src/lib.rs:107-146 | exactly the siblings on the path from leaf to root, bottom up, at most ilog2(len) of them |
| `MerkleTree.RecombineGivesRoot` | crypto/merkle-tree/src/lib.rs:107-146 | recombining the leaf with its siblings, each on its side, gives the root |
| `MerkleTree.FoldGivesRoot` | crypto/merkle-tree/src/lib.rs:107-146 | for a commutative combine the plain left fold gives the root too |
| `MerkleTree.FoldOfFirstLeaf` | crypto/merkle-tree/src/lib.rs:107-146 | for the first leaf the plain fold gives the root with any combine |
| `MerkleTree.FoldNeedsCommuting` | crypto/merkle-tree/src/lib.rs:107-146 | the plain fold gives the root of every tree at every leaf if and only if combine commutes |
| `MerkleTree.FoldNeedsSides` | crypto/merkle-tree/src/lib.rs:107-146 | a combine with which the plain fold fails everywhere but at the first leaf: it returns the leaf, and the root is the first one |
| `Vandermonde.MasterPolynomial` | storage/berkleamp-welch/src/math.rs:167-177 | the in-place products are the monic polynomial that vanishes at the points and nowhere else |
| `Vandermonde.DivideAndEvaluate` | storage/berkleamp-welch/src/math.rs:183-188 | synthetic division by x - r, and the quotient's value at r, in one loop |
| `Vandermonde.QuotientSeparates` | storage/berkleamp-welch/src/math.rs:190-193 | the quotient scaled by the inverse of that value is one at its own point and zero at the others |
| `Vandermonde.CreateInvertedVdm` | storage/berkleamp-welch/src/math.rs:159-195 | column r holds exactly the Lagrange polynomial of point r |
| `Fec.PointsDistinct` | storage/berkleamp-welch/src/fec.rs:17-29 | the points 0, 2, 4, 8, ... are different up to 256 of them |
| `Fec.FillPowers` | storage/berkleamp-welch/src/fec.rs:27-29 | the lower rows hold the powers of their point |
| `Fec.EncodingMatrix` | storage/berkleamp-welch/src/fec.rs:23-43 | identity on top; below, row r holds the values at point r of the Lagrange polynomials |
| `Fec.VandermondeMatrix` | storage/berkleamp-welch/src/fec.rs:45-55 | the running powers make row i, but for a constant factor, the values of X^i at all points |
| `Fec.MulSliceXor` | storage/berkleamp-welch/src/galois.rs:129-140 | adds the scaled input to the stretch of the output and touches nothing else |
| `Fec.Fec.constructor` | storage/berkleamp-welch/src/fec.rs:17-58 | a valid code for every 0 < required < total <= 256, with both of its matrices |
| `Fec.Fec.Encode` | storage/berkleamp-welch/src/fec.rs:70-94 | both length errors and the zero-block panic exactly when they occur; otherwise the parity bytes, and an untouched buffer on error |
| `Fec.Fec.ParityIsCodeword` | storage/berkleamp-welch/src/fec.rs:70-94 | data and parity are the values, at the points, of the one polynomial of degree below required through the data |
| `Fec.Fec.ParityAt` | storage/berkleamp-welch/src/fec.rs:70-94 | byte s of parity block r stands behind the bytes of the blocks before it and is the value, at the r-th point, of the polynomial that takes the data blocks' bytes s at their points |
| `Fec.InterpolantValue` | storage/berkleamp-welch/src/fec.rs:35-43 | that polynomial's value anywhere is the matrix row times the data |
| `Fec.SharesDetermineData` | storage/berkleamp-welch/src/fec.rs:17-43 | two data columns that agree in any required distinct shares are equal |
| `Fec.Fec.AnySharesDetermineData` | storage/berkleamp-welch/src/fec.rs:70-94 | the same for one byte column of encoded data |
| `Fec.Fec.AnySharesDetermineBlocks` | storage/berkleamp-welch/src/fec.rs:70-94 | data whose encodings agree in all bytes of any required distinct shares is the same data |
| `MatrixInverse.SwapRows` | storage/berkleamp-welch/src/math.rs:141-145 | exactly the two rows change places |
| `MatrixInverse.ScaleRow` | storage/berkleamp-welch/src/galois.rs:146-155 | one row is multiplied by a factor, nothing else changes |
| `MatrixInverse.AddMulRows` | storage/berkleamp-welch/src/math.rs:148-157 | one row gains a multiple of another, nothing else changes |
| `MatrixInverse.ForwardColumn` | storage/berkleamp-welch/src/math.rs:37-58 | a column becomes zero below a diagonal one, or is left alone without a pivot; out times the original stays mx |
| `MatrixInverse.BackwardColumn` | storage/berkleamp-welch/src/math.rs:60-66 | a column becomes zero above the diagonal under the same invariant |
| `MatrixInverse.LinkedAdd` | storage/berkleamp-welch/src/math.rs:148-157 | a row operation on both matrices keeps out times the original equal to mx, and keeps a matrix that leads back from both |
| `MatrixInverse.InvertMatrixWith` | storage/berkleamp-welch/src/math.rs:33-69 | out times the original is mx in the end; every column finds a pivot if and only if the matrix is invertible, and then mx is the identity and out the inverse on both sides |
| `MatrixInverse.ZeroRowMeansSingular` | storage/berkleamp-welch/src/math.rs:37-66 | a row that elimination has emptied means that the matrix has no inverse |
| `Syndrome.StandardizeForward` | storage/berkleamp-welch/src/math.rs:9-23 | a column becomes zero below a diagonal one, or is left alone without a pivot; the weighted sums of the rows stay the same |
| `Syndrome.StandardizeMatrix` | storage/berkleamp-welch/src/math.rs:6-31 | the rows keep their weighted sums, and the identity stands in front when the first columns are independent |
| `Syndrome.ParityMatrix` | storage/berkleamp-welch/src/math.rs:71-86 | the rest of the standardised rows, turned, and the identity |
| `Syndrome.ParityAnnihilates` | storage/berkleamp-welch/src/math.rs:71-86 | it takes a vector to zero if and only if the vector is a weighted sum of the standardised rows |
| `Syndrome.SelectColumns` | storage/berkleamp-welch/src/fec.rs:289-302 | the columns of the shares that are present, in order |
| `Syndrome.SpanIsValues` | storage/berkleamp-welch/src/fec.rs:288-307 | the weighted sums of those columns are the values, at the points of the shares, of the polynomials of degree below required |
| `Syndrome.SyndromeMatrix` | storage/berkleamp-welch/src/fec.rs:288-307 | the derived matrix takes received symbols to zero if and only if they are those of one codeword at the given share numbers |
| `Syndrome.SyndromeOf` | storage/berkleamp-welch/src/fec.rs:185-189 | one syndrome for every byte column at once |
| `Syndrome.NothingToCorrect` | storage/berkleamp-welch/src/fec.rs:173-191 | correction finds nothing if and only if every byte column of the received shares is that of one codeword |
| `PolyDivision.Sanitize` | storage/berkleamp-welch/src/math.rs:248-251 | trailing zero coefficients go, one always stays |
| `PolyDivision.DivideRound` | storage/berkleamp-welch/src/math.rs:285-302 | one round of long division keeps dividend = X^s times quotient times divisor plus remainder, coefficient by coefficient, and shortens the remainder |
| `PolyDivision.Div` | storage/berkleamp-welch/src/math.rs:270-310 | no result exactly for a zero divisor, a panic exactly for a dividend of full length, otherwise a = q b + r as an identity of coefficients, with r zero or shorter than b without its trailing zeros |
| `PolyDivision.DivisionIsUnique` | storage/berkleamp-welch/src/math.rs:270-310 | only one quotient and remainder meet that promise |
| `PolyDivision.DivisionEvaluates` | storage/berkleamp-welch/src/math.rs:270-318 | a(x) = q(x) b(x) + r(x) for every x |
| `PolyDivision.EvalPoly` | storage/berkleamp-welch/src/math.rs:312-318 | the sum of powers is the value by Horner's rule |
| `Galois.OrderIs255` | storage/berkleamp-welch/build.rs:9-24 | two has order exactly 255 under the reduced product |
| `Galois.LogExists` | storage/berkleamp-welch/build.rs:9-24 | every non-zero byte is a power of two |
| `Galois.GfIsLawful` | storage/berkleamp-welch/build.rs:40-54 | carry-less product reduced by the generating polynomial is a field with exclusive-or |
| `Galois.TwiceInField` | storage/berkleamp-welch/build.rs:9-24 | which field it is: doubling moves the bits up, and the one that falls out comes back as 29 |
| `Galois.GfExpTable` | storage/berkleamp-welch/build.rs:28-38 | the exponent table is what the erasure code assumes of it |
| `Galois.GenLogTable` | storage/berkleamp-welch/build.rs:9-24 | the running doubling fills in the logarithm of every non-zero byte |
| `Galois.GenExpTable` | storage/berkleamp-welch/build.rs:28-38 | every power, written twice so that sums of logarithms need no reduction |
| `Galois.Multiply` | storage/berkleamp-welch/build.rs:40-54 | looking up the sum of logarithms is the reduced carry-less product |
| `Galois.GenMulTable` | storage/berkleamp-welch/build.rs:56-69 | all products |
| `Galois.GenInvTable` | storage/berkleamp-welch/build.rs:98-108 | all inverses |
| `Galois.Divide` | storage/berkleamp-welch/src/galois.rs:14-34 | refused exactly for a zero divisor; otherwise the quotient, which times the divisor gives the dividend back |
| `Galois.Power` | storage/berkleamp-welch/src/galois.rs:37-50 | the n-th power, zero and the zeroth power included |
| `Galois.NewFec` | storage/berkleamp-welch/src/fec.rs:17-58 | the code over the generated tables is a valid one over this field |
| `Galois.NibbleProduct` | storage/berkleamp-welch/src/galois.rs:77-99 | a product is the sum of the products of the two nibbles, which is what the table-shuffling form relies on |
| `Framing.OpenedIsPrefix` | crypto/opfusk/src/lib.rs:418-440 | frames a reader opened from an honest writer's bytes are the first frames it sealed |
| `Framing.LeftoverIsPartial` | crypto/opfusk/src/lib.rs:418-440 | what stands behind them is a whole frame exactly when the writer's next frame has arrived |
| `Framing.LongBodyMisread` | crypto/opfusk/src/lib.rs:258-259 | a body of 65536 bytes or more is misread through its two-byte length |
| `Framing.FrameLayout` | crypto/opfusk/src/lib.rs:250-264 | a frame is two bytes of length, the more significant first, 28 bytes of tag, and the body |
| `Framing.FrameIsThere` | crypto/opfusk/src/lib.rs:418-432 | a reader waits for as many bytes as the first two say, the more significant first, and takes tag and body from behind them |
| `Octets.U16Order` | crypto/opfusk/src/lib.rs:259 | the two bytes of a smaller length come before those of a larger one |
| `Opfusk.EncryptKeeps` | crypto/opfusk/src/lib.rs:250-264 | sealing turns the unsealed text into one more frame and keeps every bound of the write buffer |
| `Opfusk.PassLaw` | crypto/opfusk/src/lib.rs:283-328 | one pass of the writing loop in lengths: when it seals, when it drops what was taken, and exactly how much it takes in |
| `Opfusk.SmallBufferNeverRests` | crypto/opfusk/src/lib.rs:283-321 | at a capacity of twice a header, 60 or 61, a pass of a fresh endpoint with nothing to send puts an empty frame on the wire and ends where it began |
| `OpfuskLimits.SpinsForever` | crypto/opfusk/src/lib.rs:281-334 | such passes follow each other without end, for as long as the inner stream takes what it is given |
| `Opfusk.SmallBufferOverflows` | crypto/opfusk/src/lib.rs:258-263 | below 60 the first pass of a fresh endpoint seals an empty frame that the buffer cannot hold, so that its vector has to grow |
| `OpfuskLimits.OverlongFrame` | crypto/opfusk/src/lib.rs:271-342 | at any capacity from 65596 on, one write to a fresh endpoint seals a frame that a reader takes for another |
| `OpfuskLimits.FailedWriteTakesData` | crypto/opfusk/src/lib.rs:271-342 | a write that fails on a fresh endpoint has taken a buffer full of data all the same |
| `Opfusk.Output.constructor` | crypto/opfusk/src/lib.rs:231-248 | a fresh endpoint, with room for one header in its write buffer |
| `Opfusk.Output.EncryptInProgress` | crypto/opfusk/src/lib.rs:250-264 | the text collected becomes one sealed frame in place, with the next draw of the generator: its first two bytes are its length, the more significant first, then the cipher's tag and body, and nothing in front of it changes |
| `Opfusk.Output.MakeRoom` | crypto/opfusk/src/lib.rs:283-321 | the exact effect of sealing, offering and collecting; they make progress in a fixed order of measures, or the inner stream is not ready |
| `Opfusk.Output.PollWrite` | crypto/opfusk/src/lib.rs:271-342 | terminates; every pass has its exact effect, and it stops at the first that has none or fails; reports exactly the bytes it took; wire and buffer together stay the frames of what was taken; data is left behind only when the inner stream is not ready |
| `Opfusk.Output.PollFlush` | crypto/opfusk/src/lib.rs:344-362 | when it completes, everything taken is on the wire |
| `Opfusk.Output.ReadInner` | crypto/opfusk/src/lib.rs:401-416 | reads until the buffer is full or the inner stream is not ready; the end of the stream is an error |
| `Opfusk.OpenKeeps` | crypto/opfusk/src/lib.rs:418-440 | opening a frame in place keeps the layout of the read buffer and its account of the wire |
| `Opfusk.Output.OpenFrames` | crypto/opfusk/src/lib.rs:418-440 | opens every whole frame; stops with a refusal exactly at a whole frame that does not authenticate |
| `Opfusk.Output.CopyOut` | crypto/opfusk/src/lib.rs:442-464 | copies opened text, never a header, and stops early only at an empty chunk |
| `Opfusk.Output.PollRead` | crypto/opfusk/src/lib.rs:378-473 | for any bytes on the wire: terminates in bounds, delivers exactly the text of the authenticated frames in order, refuses only a frame that does not authenticate, reports the end of the inner stream at once whatever is on hand, and leaves room only when nothing is |
| `OpfuskRuns.DeliveredIsPrefix` | crypto/opfusk/src/lib.rs:230-473 | in every state of two connected endpoints the text delivered is a prefix of the text taken |
| `OpfuskRuns.NeverDenied` | crypto/opfusk/src/lib.rs:435-437 | an honest writer's frame is never refused |
| `OpfuskRuns.NoFrameIsTooLong` | crypto/opfusk/src/lib.rs:390-416 | a reader whose buffer is as long as the writer's, less a header, never stalls on a full buffer |
| `OpfuskRuns.DrainedMeansEqual` | crypto/opfusk/src/lib.rs:344-473 | after a completed flush, with the wire empty and the reader idle, text delivered and text taken are equal |
| `OpfuskRuns.Perform` | crypto/opfusk/src/lib.rs:271-473 | one call and its result: what a write took, what a read delivered, something taken while nothing has been, no refusal, no stall |
| `OpfuskRuns.Converse` | crypto/opfusk/src/lib.rs:271-473 | over every sequence of writes, flushes and reads with every behaviour of the inner stream: one result a call up to the first error, the text taken is what the writes took by their results and not empty if there was any, and the prefix, no refusal, no stall for a long enough reader, and equality once everything has drained |
| `ChatMessages.UnpackOfPack` | chat/spec/src/chat.rs:236-250 | reading a log backwards gives its messages, newest first, and nothing else |
| `ChatMessages.PackOfUnpack` | chat/spec/src/chat.rs:236-250 | every buffer is an unreadable front followed by the messages read from it |
| `ChatMessages.EntryLayout` | chat/server/src/storage/chat.rs:304-307 | in the file a message is followed by its length, the more significant byte first |
| `ChatMessages.LastLayout` | chat/spec/src/chat.rs:236-250 | the last two bytes of a buffer, the more significant first, say how many bytes in front of them are its last message, or that there is none |
| `ChatMessages.WindowReadsTheSame` | chat/server/src/storage/chat.rs:526-540 | the messages found in a window are the newest messages of the whole log |
| `ChatMessages.MoveMem` | chat/spec/src/chat.rs:190-203 | the kept stretch moves up against what was kept before; bytes in front are untouched |
| `ChatMessages.Retain` | chat/spec/src/chat.rs:186-234 | the returned region is exactly the encodings of the messages that satisfy the predicate, in order; unparsed bytes are untouched |
| `ChatMessages.RetainInVec` | chat/spec/src/chat.rs:179-182 | the same as a whole buffer |
| `ChatMessages.RetainedUnpacks` | chat/spec/src/chat.rs:186-250 | unpacking what was retained is filtering what was unpacked |
| `ChatBlocks.PresentMeansHeld` | chat/server/src/storage/chat.rs:488-491 | with different messages in the buffer, the count equals the block's size if and only if every message of the block is held |
| `ChatBlocks.CheckIsExact` | chat/server/src/storage/chat.rs:488-491 | the check tells for every block whether all its messages are held, if and only if the buffer repeats no message |
| `ChatBlocks.RepeatsFool` | chat/server/src/storage/chat.rs:488-491 | a buffer with a repetition always has a block that fools the check |
| `ChatBlocks.AcceptanceConserves` | chat/server/src/storage/chat.rs:592-607 | accepting a block conserves the messages if and only if the block repeats none and holds none that the buffer lacks |
| `ChatBlocks.AcceptanceKeepsLength` | chat/server/src/storage/chat.rs:592-607 | a block of different messages that passed the check leaves the length of the file unchanged |
| `ChatLog.BoundarySplits` | chat/server/src/storage/chat.rs:335-341 | walking back over the messages of any buffer stops between messages, at the limit or less than one message below it |
| `ChatLog.WalkBack` | chat/server/src/storage/chat.rs:371-381 | both walks of the source stop at that boundary |
| `ChatLog.SameRound` | chat/server/src/storage/chat.rs:371-381 | the proposed block is a non-empty whole-message front, and the round derived from its length is the one derived from the buffer's |
| `ChatLog.ProposedLength` | chat/server/src/storage/chat.rs:371-381 | the proposed block ends less than one message in front of the last whole multiple of the block size |
| `ChatLog.TrimmedFits` | chat/server/src/storage/chat.rs:329-348 | dropping the oldest block of any buffer brings it within its cap and keeps the newest messages whole |
| `ChatLog.AppendsKeepProposal` | chat/server/src/storage/chat.rs:383-393 | while messages are only appended, the proposal stays the front of the buffer and whole messages follow it |
| `ChatLog.SelectFinalizer` | chat/server/src/storage/chat.rs:78-88 | the member with exactly as many members of smaller exclusive-or to the hash as there are full blocks, modulo the group's size |
| `ChatLog.TurnMeans` | chat/server/src/storage/chat.rs:78-88 | whose turn it is, distance by distance |
| `ChatLog.FinalizerIgnoresOrder` | chat/server/src/storage/chat.rs:78-88 | in the same round the choice does not depend on the order of the group list |
| `ChatLog.VerifierConfirms` | chat/server/src/storage/chat.rs:468-471 | a verifier with the same last block and group confirms the proposer from the block's length alone |
| `ChatLog.OneTurnPerBlock` | chat/server/src/storage/chat.rs:353-359 | while a buffer grows from the first half of a block into the second a block is proposed exactly once, unless it is the first block or a length lands on the middle: then never |
| `ChatLog.Handle.Propose` | chat/server/src/storage/chat.rs:353-393 | a block is proposed exactly at the trigger and in one's turn; it is the buffer's whole-message front and is recorded as local |
| `ChatLog.Handle.SendMessage` | chat/server/src/storage/chat.rs:292-394 | the message is appended and the oldest block dropped over the cap, the finalized part untouched, the buffer within its cap; or, when history is due for compaction, the exact bytes that are left; without compaction the buffer ends with the message and its length, the more significant byte first |
| `ChatLog.Handle.Compact` | chat/server/src/storage/chat.rs:312-327 | copying in pieces towards the front leaves exactly the bytes between the checkpoint and the given length |
| `ChatLog.Handle.AppendAndCompact` | chat/server/src/storage/chat.rs:296-327 | compaction cuts the new message off and lets the buffer begin as many bytes earlier, in the finalized part |
| `ChatLog.Handle.TakeIn` | chat/server/src/storage/chat.rs:292-348 | the message is the last of the buffer, followed by its length; with history due for compaction it is cut off again |
| `ChatLog.CompactionLosesMessage` | chat/server/src/storage/chat.rs:296-327 | after that the message is in the buffer if and only if the finalized part happened to end with it |
| `ChatLog.Handle.ProposalLow` | chat/server/src/storage/chat.rs:457-494 | accepted exactly when unseen, not voted on, from the finalizer, of the right number and present; recorded even when a later check fails |
| `ChatLog.Handle.AcceptLocal` | chat/server/src/storage/chat.rs:574-591 | the finalized part grows by the recorded number of bytes at the front of the buffer, whatever they are; with fewer bytes left the length wraps at 64 bits and is stored |
| `ChatLog.Handle.AcceptRemote` | chat/server/src/storage/chat.rs:592-611 | the finalized part grows by the block's bytes, and the buffer is the old one less the block's messages, in order |
| `ChatPosts.FrontIsSuffix` | chat/spec/src/chat.rs:154-159 | a log that begins the bytes of another one holds its oldest messages, when no member uses a nonce twice |
| `ChatRuns.EveryMessageIsAccounted` | chat/server/src/storage/chat.rs:266-611 | in every run of messages, nonce resets, proposals of any bytes and decisions, however stale: each message sent is, as often as it was sent, in what was finalized, the buffer, the dropped blocks, or among those cut or removed by an acceptance; what was finalized on top of that is counted; the finalized log is the accepted pieces; the buffer is within its cap |
| `ChatProposals.FrontMeansHeld` | chat/server/src/storage/chat.rs:588-591 | in a buffer of newer messages behind what is left of the block's, the front is the block, byte by byte, if and only if all its messages are buffered |
| `ChatProposals.FinalizesProposals` | chat/server/src/storage/chat.rs:383-393 | in every run without nonce resets, each acceptance finalizes the block with the accepted hash if and only if every own proposal is still held, message by message, when it is accepted |
| `ChatProposals.ReplicasAgree` | chat/server/src/storage/chat.rs:574-611 | two replicas that accepted the same hashes, as own or as received proposals, where one held all its own: the other finalized the same blocks if and only if it held all its own, and then the finalized logs are equal |
| `ChatProposals.ConservesExactly` | chat/server/src/storage/chat.rs:592-607 | in such runs no message is cut, lost or gained if and only if every received block that is accepted repeats no message and holds only buffered ones |
| `ChatProposals.NoMessageIsLost` | chat/server/src/storage/chat.rs:266-611 | then each message sent is in exactly one of the finalized blocks, the buffer and the dropped blocks |
| `ChatProposals.RunReads` | chat/server/src/storage/chat.rs:574-611 | what the account calls finalized is what reading the finalized log yields, when the accepted blocks are well-formed |
| `ChatStale.NoRepeatsWithoutResets` | chat/server/src/storage/chat.rs:655-660 | nonces that only grow keep the messages in the buffer different, in every run |
| `ChatStale.ResetLetsRepeat` | chat/server/src/storage/chat.rs:636-648 | when a member's record is rewritten, its old message is accepted again and the buffer holds it twice |
| `ChatStale.ProposalStandsUntilTrimmed` | chat/server/src/storage/chat.rs:329-393 | over any messages sent since, the front of the buffer is still the proposed block if and only if the buffer never passed its cap |
| `ChatStale.StaleProposal` | chat/server/src/storage/chat.rs:574-591 | a run in which sixteen proposed messages are dropped with the oldest block, and the acceptance of their hash finalizes as many bytes of other messages |
| `ChatStale.WrapRun` | chat/server/src/storage/chat.rs:588-591 | a run in which a received block is accepted first, and the own proposal then takes more bytes than the buffer has |
| `ChatServer.DeliveriesAloneAccept` | chat/server/src/storage/chat.rs:437-454 | without any vote a recorded block is accepted at its second delivery if it passed the checks, and at its third if it did not, and not before |
| `ChatServer.ServedIsRun` | chat/server/src/storage/chat.rs:266-611 | the file after any inputs is where a run of steps takes it that is a function of those inputs |
| `ChatServer.PostsAreInputs` | chat/server/src/storage/chat.rs:266-394 | the messages of that run are exactly the inputs that were taken in, by a fold over the inputs that only keeps nonces |
| `ChatServer.ServedOk` | chat/server/src/storage/chat.rs:396-455 | each input keeps the votes in step with the run, which accepts exactly the hashes that inputs get accepted; by `ThreeVotesAccept` those with three counted votes for a recorded block |
| `ChatTally.BallotLaw` | chat/server/src/storage/chat.rs:396-423 | a counted ballot adds one for the block if it agrees and one against if not, and its voter; three for a recorded block accept it, and nothing a ballot does removes an entry |
| `ChatTally.DeliveryLaw` | chat/server/src/storage/chat.rs:425-455 | a considered delivery adds one for the block and one more for or against; three for a recorded block accept it, or else three against remove the entry |
| `ChatTally.CheckLaw` | chat/server/src/storage/chat.rs:457-494 | when a delivery passes, with which error it fails, and what its entry holds afterwards |
| `ChatTally.MessageLaw` | chat/server/src/storage/chat.rs:383-393 | an own proposal is an entry with its own vote; other messages leave the votes alone |
| `ChatTally.VotesAreCounted` | chat/server/src/storage/chat.rs:396-455 | in every run of inputs an entry's votes for are the own proposal, the deliveries, those that passed and the agreeing ballots; its votes against are the other deliveries and the disagreeing ballots |
| `ChatTally.ThreeVotesAccept` | chat/server/src/storage/chat.rs:689-695 | in every run an input gets a block accepted if and only if it is counted, a block is recorded, and the count of votes for it is at least three |
| `ChatTally.ThreeVotesReject` | chat/server/src/storage/chat.rs:446-451 | in every run an entry disappears exactly when a delivery leaves three votes against it without acceptance, or when a block of a later number is accepted |
| `ChatServer.InputsFinalize` | chat/server/src/storage/chat.rs:266-611 | without rewritten records, every acceptance finalizes the block with the accepted hash if and only if every own proposal is still held when it is accepted |
| `ChatServer.AcceptedEntryStays` | chat/server/src/storage/chat.rs:574-584 | the entry of an accepted block stays, with its votes but without its proposal, unless it is older than the number accepted |
| `ChatServer.AcceptedAgain` | chat/server/src/storage/chat.rs:425-494 | a block accepted before is accepted and finalized once more at a delivery if and only if that is from the finalizer of the round and not from a voter |
| `ChatServer.TwiceFinalized` | chat/server/src/storage/chat.rs:425-611 | a run of four deliveries of one block that finalizes it twice |
| `ChatReplica.SendPost` | chat/server/src/storage/chat.rs:266-394 | sending leaves the replica as `Served` says: exactly the message, and the proposal when it is this replica's turn |
| `ChatReplica.SettleLocal` | chat/server/src/storage/chat.rs:574-591 | accepting an own proposal does to the file exactly what the step that accepts its hash does |
| `ChatReplica.SettleRemote` | chat/server/src/storage/chat.rs:574-611 | the same for a received block |
| `ChatReplica.Receive` | chat/server/src/storage/chat.rs:425-494 | a delivered block: the exact answer, and the replica as `Served` says after checking, recording, counting and deciding |
| `ChatReplica.Vote` | chat/server/src/storage/chat.rs:396-423 | a vote on a block, seen or not: the exact answer, and the replica as `Served` says, which by `BallotLaw` counts an agreeing vote for the block and any other against it |
| `ChatReplica.Play` | chat/server/src/storage/chat.rs:266-611 | after any sequence of messages, rewritten records, deliveries and votes, until history is due for compaction or the length wraps, file, votes, number and latest hash are the function `ServedAll` of the inputs played |
| `ChatReplica.CompactionRun` | chat/server/src/storage/chat.rs:296-327 | a new replica that accepts one long block loses the next message, unless the block ends with it |
| `ChatPaging.FetchMessages` | chat/server/src/storage/chat.rs:516-547 | the padded window ending at the cursor and the cursor moved back over its whole messages; an error outside the file |
| `ChatPaging.PageLayout` | chat/server/src/storage/chat.rs:523-536 | a page is the last 8192 bytes in front of its end, behind zeros when there are fewer |
| `ChatPaging.PageMakesProgress` | chat/server/src/storage/chat.rs:538-540 | a page is empty exactly when the message before the cursor does not fit the window |
| `ChatPaging.PageContents` | chat/client-node/src/requests.rs:497-503 | the client, stopping at the first empty message, finds exactly the messages the cursor moved over |
| `ChatPaging.ReadPage` | chat/client-node/src/requests.rs:490-503 | one request yields the newest messages in front of the cursor, and the next cursor stands behind exactly the rest |
| `ChatPaging.ReadAll` | chat/server/src/storage/chat.rs:516-547 | paging from the maximal cursor until it comes back yields every message once, newest first, and ends |
| `Streaming.Behaviour.CreateStream` | protocols/streaming/src/lib.rs:55-67 | one more request on some connection to the peer, or a new connection with one request and a dial |
| `Streaming.Behaviour.NewHandler` | protocols/streaming/src/lib.rs:69-77 | everything becomes pending, and the handler starts with all of it |
| `Streaming.Behaviour.ConnectionGone` | protocols/streaming/src/lib.rs:109-166 | another connection to the peer takes over all requests, or each of them fails with one event |
| `Streaming.Behaviour.OnConnectionHandlerEvent` | protocols/streaming/src/lib.rs:168-185 | one event, for the peer of the connection and with the outcome reported, and one pending request less for an outgoing outcome on a tracked connection |
| `Streaming.Behaviour.Poll` | protocols/streaming/src/lib.rs:187-211 | new requests first, then events last in first out, then nothing |
| `Streaming.Handler.Poll` | protocols/streaming/src/lib.rs:251-274 | queued outcomes first, then one substream request per request |
| `Streaming.Handler.OnBehaviourEvent` | protocols/streaming/src/lib.rs:276-281 | the handler owes as many more substream requests as it is told |
| `Streaming.Handler.OnConnectionEvent` | protocols/streaming/src/lib.rs:283-303 | every negotiated or failed outbound substream queues one outcome, with the flag of success, and an inbound one an incoming stream |
| `StreamingRuns.NextKeeps` | protocols/streaming/src/lib.rs:55-303 | for each peer the count of requests, and each connection's account and the reasons of all events, survive every step of behaviour, handlers and swarm |
| `StreamingRuns.NoUnderflow` | protocols/streaming/src/lib.rs:177-181 | the decrement of the pending count never goes below zero |
| `StreamingRuns.EveryRunConserves` | protocols/streaming/src/lib.rs:55-303 | in every run and for each peer, requests made for it are outgoing-stream events the application received for it, those waiting for it, and requests held on its connections; a live connection's pending count is what its handler, the swarm and the substreams still owe |
| `StreamingRuns.EveryEventHasItsReason` | protocols/streaming/src/lib.rs:55-303 | in every run, the events received or waiting are exactly the reported outcomes under the peer of their connection, the dials and the failures of lost connections; what a handler heard, with its success, is what it passed on or will |
| `StreamingRuns.QuietMeansAnswered` | protocols/streaming/src/lib.rs:55-211 | with nothing held and no event waiting, each peer's requests have each had one answer under that peer |
| `StreamingRuns.ReportKeepsCount` | protocols/streaming/src/lib.rs:168-185 | the count for its peer survives a report if and only if its connection is tracked or it is of an incoming stream; otherwise a request counts twice; other peers' counts always survive |
| `Distance.XorHalves` | protocols/dht/src/lib.rs:146-156 | the distance is exclusive or, bit by bit |
| `Distance.DistanceInjective` | protocols/dht/src/lib.rs:146-156 | no two identifiers are equally far from a key |
| `Distance.ClosestIsUnique` | protocols/dht/src/lib.rs:140-162 | the list of closest identifiers is a function of the set of identifiers alone |
| `Distance.RemovalOutside` | protocols/dht/src/lib.rs:126-130 | removing an identifier outside the group leaves the group unchanged |
| `Dht.RoutingTable.BulkInsert` | protocols/dht/src/lib.rs:112-116 | a sorted rearrangement, and a proper table exactly when no identifier occurs twice |
| `Dht.RoutingTable.Search` | protocols/dht/src/lib.rs:118-122 | the place of an identifier, or where it belongs; found exactly when present |
| `Dht.RoutingTable.Insert` | protocols/dht/src/lib.rs:118-124 | the table as a map gains or replaces one entry and stays sorted |
| `Dht.RoutingTable.Remove` | protocols/dht/src/lib.rs:126-130 | the table as a map loses the entry, which is returned |
| `Dht.RoutingTable.Get` | protocols/dht/src/lib.rs:133-138 | the entry's address, if there is one |
| `Dht.RoutingTable.Closest` | protocols/dht/src/lib.rs:140-162 | the identifiers of smallest exclusive-or to the key, as many as asked for or as there are, in ascending order of it, and all others farther; a panic exactly for a count of zero and a table that is not empty |
| `Codec.IntRoundTrip` | utils/codec/src/impls.rs:177-222 | every 16, 32 and 64-bit integer comes back from its base-128 form with exactly the suffix (unsigned LEB128, section 7.6 of DWARF 4) |
| `Codec.IntNotCanonical` | utils/codec/src/impls.rs:191-204 | the decoder accepts a second spelling of zero |
| `Codec.IntIsCanonical` | utils/codec/src/impls.rs:191-222 | an accepted spelling is the one the encoder writes if and only if it is one byte or does not end in a zero, and the number was not cut to 64 bits |
| `Codec.IntLayout` | utils/codec/src/impls.rs:177-189 | the encoder's form: low seven bits first, the high bit on every byte but the last, no trailing zero |
| `Codec.IntDecodes` | utils/codec/src/impls.rs:191-222 | what decoding does to any bytes: the number spelled up to the first byte below 128, which must be among ten, cut to 64 bits, and refused exactly when the type is too narrow |
| `Codec.Layout` | utils/codec/src/impls.rs:142-376 | where the parts of each value lie on the wire and which tags stand in front |
| `Codec.ArrayLayout` | utils/codec/src/impls.rs:341-348 | elements go on the wire from the first to the last: an array is its parts one behind the other, and a single element is itself |
| `Codec.RoundTrip` | utils/codec/src/impls.rs:177-413 | for every type of the universe, every value and every suffix, decoding the encoding returns the value and exactly the suffix |
| `Codec.EncodingIsPrefixFree` | utils/codec/src/impls.rs:177-413 | no encoding begins another value's encoding |
| `Codec.VecNeedsNonEmpty` | utils/codec/src/std_impls.rs:273-295 | a vector type round-trips for all values and suffixes if and only if its elements take at least one byte |
| `CodecSpelling.DecodesSpellings` | utils/codec/src/impls.rs:142-413 | the decoder accepts exactly the bytes that begin with a spelling of a value, by a definition of spellings that does not mention it, and leaves what follows |
| `CodecSpelling.EncodingSpells` | utils/codec/src/impls.rs:142-413 | an encoding is a spelling of its value |
| `CodecSpelling.EncodingIsShortest` | utils/codec/src/impls.rs:142-413 | the encoder writes no more bytes for a value than any spelling of it has |
| `CodecIo.Base128Encode` | utils/codec/src/impls.rs:177-189 | pushes exactly the base-128 form, and fails exactly when it does not fit |
| `CodecIo.Base128Decode` | utils/codec/src/impls.rs:191-204 | reads at most ten bytes, keeps the value to 64 bits, and moves the cursor past what it read |
| `CodecIo.EncodeValue` | utils/codec/src/impls.rs:142-413 | writes the encoding of any value, fails exactly when the buffer is too small, and never writes anything else |
| `CodecIo.EncodeItems` | utils/codec/src/impls.rs:341-348 | the same for the elements of arrays and vectors |
| `CodecIo.DecodeValue` | utils/codec/src/impls.rs:142-413 | decodes any type and leaves the cursor behind the value |
| `CodecIo.EncodeToSlice` | utils/codec/src/lib.rs:67-73 | the encoding, or nothing exactly when the slice is too short |
| `CodecIo.EncodedLen` | utils/codec/src/lib.rs:82-100 | the length of the encoding |
| `CodecIo.DecodeExact` | utils/codec/src/lib.rs:106-110 | a value exactly when decoding leaves nothing over |
| `CodecIo.ThereAndBack` | utils/codec/src/lib.rs:67-110 | whatever fits its slice comes back from it |

## Left out

- Network behaviours, swarm wiring, tasks, databases, file handles, the chain interface and the user interfaces: input and output, and foreign code.
- The insides of hash, key derivation, X25519, Kyber, AES-GCM and Ed25519, and Falcon's FFT, random generator and floating-point emulation.
- Wakers, timeouts, logging and rate limiting.
- Opfusk.Output.PollWrite: capacities below 62, which the configuration lets through, are excluded by `Roomy`; `SpinsForever` and `SmallBufferOverflows` show what goes wrong there, up to the point where the vector grows.
- OpfuskRuns.Converse: a writer's capacity above 65595 is excluded by `GoodCapacity`; `OverlongFrame` shows why.
- Opfusk.Output.PollFlush: the script of the inner stream is finite, so a stream that answers `Ready(0)` for ever, on which the source spins, ends in `Pending`; capacities below 62 as above.
- Opfusk: the handshake before the stream, `poll_close`, and the growth of a vector or a capacity larger than asked for.
- MerkleTree.ComputeRecur: the branch for an empty right half, which an odd number of nodes never takes, is not modelled; `clear` and `index_of` neither.
- `Fec::rebuild` and what `correct` does once a syndrome is not zero, the general `invert_matrix`, and the SIMD forms of the slice routines.
- FalconFields.Encode: fields of more than 16 bits, and of more than 8 bits for 8-bit coefficients, are outside the model; no caller uses them.
- ChatMessages.Retain: the predicate is a pure function; the source also lets it change the message.
- ChatLog.Handle.SendMessage: permissions and the members' database, which come first in the source.
- ChatLog.Handle.AcceptLocal: a build with overflow checks panics where the length wraps.
- ChatReplica.Vote: the source panics when a fifth replica votes on one block, which is an error here.
- ChatRuns.EveryMessageIsAccounted: runs in which finalized history is compacted; a run in which the length of the buffer wraps stands still from there on.
- ChatPaging.ReadAll: messages are assumed non-empty and at most a window long, as every encoded message is; the log does not change between pages.
- Streaming: peers' connection groups are one map with two-part keys, and counters are unbounded.
- Dht: identifiers are numbers rather than 32-byte arrays, and the key is already hashed.
- Codec: maps, sets, strings, socket addresses, trailing vectors, 128-bit integers above 64 bits, and `SortedCompactVec`.
