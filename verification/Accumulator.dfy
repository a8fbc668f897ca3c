/** Header inclusion proofs against the master accumulator of epoch roots. */
module Accumulator {
  import opened Bytes
  import opened Merkle

  const EPOCH_SIZE: nat := 8192
  const MERGE_BLOCK_NUMBER: nat := 15_537_393

  type U256 = n: nat | n < Pow2(256) witness 0

  datatype Header = Header(number: nat, hash: Word)
  datatype HeaderRecord = HeaderRecord(blockHash: Word, totalDifficulty: U256)
  datatype BlockHeaderProof = NoProof | AccumulatorProof(words: seq<Word>)

  /** `OutOfBounds` is the panic of an unchecked list index. */
  datatype Outcome<+T> = Accepted(value: T) | Rejected(reason: Reason) | OutOfBounds
  datatype Reason =
    | InvalidProofType
    | MissingProof
    | MerkleProofFailed
    | HashMismatch
    | NoProofForIndex
    | InvalidProofLength

  // --- The SSZ root of an epoch accumulator ---

  function Chunk(n: nat): (w: Word)
  {
    ToLittleEndian(n, 32)
  }

  function RecordRoots(hs: Hasher<Word>, epoch: seq<HeaderRecord>): (roots: seq<Word>)
    ensures |roots| == |epoch|
  {
    if epoch == [] then []
    else [hs.combine(epoch[0].blockHash, Chunk(epoch[0].totalDifficulty))] + RecordRoots(hs, epoch[1..])
  }

  function ListRoot(hs: Hasher<Word>, epoch: seq<HeaderRecord>): Word
    requires |epoch| <= Pow2(13)
  {
    Merkleize(hs, Pad(hs, RecordRoots(hs, epoch), 13), 13)
  }

  /** `tree_hash_root` of `List[HeaderRecord, 8192]`: record roots, merkleized, length mixed in. */
  function SszRoot(hs: Hasher<Word>, epoch: seq<HeaderRecord>): Word
    requires |epoch| <= Pow2(13)
  {
    hs.combine(ListRoot(hs, epoch), Chunk(|epoch|))
  }

  /** A chunk is the number in little-endian. */
  lemma ChunkIsLittleEndian(n: U256)
    ensures LittleEndian(Chunk(n)) == n
  {
    hide LittleEndian, ToLittleEndian, Pow2;
    LittleEndianRoundTrip(n, 32);
  }

  /** The last word of every constructed proof: 8192 in little-endian. */
  lemma LengthWord()
    ensures Chunk(8192)[0] == 0x00 && Chunk(8192)[1] == 0x20
    ensures forall i :: 2 <= i < 32 ==> Chunk(8192)[i] == 0
  {
    hide ToLittleEndian;
    FirstByte(EPOCH_SIZE, 32);
    FirstByte(32, 31);
    ZeroBytes(30);
  }

  lemma FirstByte(n: nat, k: nat)
    requires k > 0
    ensures ToLittleEndian(n, k) == [n % 256] + ToLittleEndian(n / 256, k - 1)
  {
  }

  lemma {:induction false} ZeroBytes(n: nat)
    ensures forall i :: 0 <= i < n ==> ToLittleEndian(0, n)[i] == 0
  {
    if n > 0 {
      ZeroBytes(n - 1);
    }
  }

  // --- Validation ---

  function EpochIndex(header: Header): nat
  {
    header.number / EPOCH_SIZE
  }

  function RecordIndex(header: Header): (i: nat)
    ensures i < EPOCH_SIZE
  {
    header.number % EPOCH_SIZE
  }

  function GeneralizedIndex(header: Header): nat
  {
    EPOCH_SIZE * 2 * 2 + RecordIndex(header) * 2
  }

  function ValidateHeaderWithProof(hs: Hasher<Word>, epochs: seq<Word>, header: Header, proof: BlockHeaderProof)
    : Outcome<()>
  {
    match proof
    case NoProof =>
      if header.number <= MERGE_BLOCK_NUMBER then Rejected(MissingProof) else Accepted(())
    case AccumulatorProof(words) =>
      if header.number > MERGE_BLOCK_NUMBER then Rejected(InvalidProofType)
      else if EpochIndex(header) >= |epochs| then OutOfBounds
      else if VerifyMerkleProof(hs, header.hash, words, 15, GeneralizedIndex(header), epochs[EpochIndex(header)])
      then Accepted(())
      else Rejected(MerkleProofFailed)
  }

  /** All outcomes of validation: without a proof only headers after the merge pass, with one only
      headers up to it, if the epoch is known and the branch leads to its root. */
  lemma ValidationOutcomes(hs: Hasher<Word>, epochs: seq<Word>, header: Header, words: seq<Word>)
    ensures ValidateHeaderWithProof(hs, epochs, header, NoProof) ==
            if header.number > 15_537_393 then Accepted(()) else Rejected(MissingProof)
    ensures ValidateHeaderWithProof(hs, epochs, header, AccumulatorProof(words)) ==
            if header.number > 15_537_393 then Rejected(InvalidProofType)
            else if header.number / 8192 >= |epochs| then OutOfBounds
            else if && |words| == 15
                    && RootFromBranch(hs, header.hash, words, 32768 + 2 * (header.number % 8192))
                       == epochs[header.number / 8192]
            then Accepted(())
            else Rejected(MerkleProofFailed)
  {
    hide RootFromBranch;
  }

  /** The verifier's path: the record index at depth 14, then the left child of the root. */
  lemma VerifierPath(hs: Hasher<Word>, header: Header, words: seq<Word>)
    requires |words| == 15
    ensures RootFromBranch(hs, header.hash, words, 32768 + 2 * (header.number % 8192)) ==
            hs.combine(RootFromBranch(hs, header.hash, words[..14], 2 * (header.number % 8192)), words[14])
  {
    var i := 2 * RecordIndex(header);
    assert Pow2(14) == 16384 && Pow2(15) == 32768;
    hide RootFromBranch, Bit, Pow2;
    RootIgnoresHighBits(hs, header.hash, words, i);
    assert words == words[..14] + [words[14]];
    RootFromLongerBranch(hs, header.hash, words[..14], words[14], i);
    TopBit(i, 14);
  }

  lemma {:induction false} RecordRootAt(hs: Hasher<Word>, epoch: seq<HeaderRecord>, i: nat)
    requires i < |epoch|
    ensures RecordRoots(hs, epoch)[i] == hs.combine(epoch[i].blockHash, Chunk(epoch[i].totalDifficulty))
  {
    if i > 0 {
      RecordRootAt(hs, epoch[1..], i - 1);
    }
  }

  /** Where an accepted proof of a wrong header contradicts the honest tree. */
  function FindCollision(hs: Hasher<Word>, header: Header, words: seq<Word>, epoch: seq<HeaderRecord>)
    : Collision<Word>
    requires |words| == 15 && |epoch| <= Pow2(13) && header.number % 8192 < |epoch|
  {
    var i := RecordIndex(header);
    var top := (RootFromBranch(hs, header.hash, words[..14], 2 * i), words[14]);
    var honestTop := (ListRoot(hs, epoch), Chunk(|epoch|));
    var low := (header.hash, words[0]);
    var honestLow := (epoch[i].blockHash, Chunk(epoch[i].totalDifficulty));
    var node := hs.combine(low.0, low.1);
    if top != honestTop then Collision(top, honestTop)
    else if node == hs.combine(honestLow.0, honestLow.1) then Collision(low, honestLow)
    else Extract(hs, node, words[1..14], i, Pad(hs, RecordRoots(hs, epoch), 13), 13)
  }

  /** Soundness, for any epoch accumulator that has the record and any fifteen proof words: an
      accepted header is the recorded one, and the first word is its total difficulty. Otherwise
      the proof exhibits a hash collision. */
  lemma AcceptedHeaderIsRecorded(hs: Hasher<Word>, epochs: seq<Word>, header: Header, words: seq<Word>,
                                 epoch: seq<HeaderRecord>)
    requires |epoch| <= 8192 && header.number % 8192 < |epoch|
    requires header.number / 8192 < |epochs| && epochs[header.number / 8192] == SszRoot(hs, epoch)
    requires ValidateHeaderWithProof(hs, epochs, header, AccumulatorProof(words)).Accepted?
    ensures |words| == 15
    ensures var record := epoch[header.number % 8192];
            || (header.hash == record.blockHash && words[0] == Chunk(record.totalDifficulty))
            || IsCollision(hs, FindCollision(hs, header, words, epoch))
  {
    hide Merkleize, Extract, Chunk;
    VerifierPath(hs, header, words);
    var i := RecordIndex(header);
    var roots := RecordRoots(hs, epoch);
    RecordRootAt(hs, epoch, i);
    var branch := words[..14];
    assert branch[1..] == words[1..14];
    var node := hs.combine(header.hash, words[0]);
    assert RootFromBranch(hs, header.hash, branch, 2 * i) == RootFromBranch(hs, node, words[1..14], i);
    if RootFromBranch(hs, header.hash, branch, 2 * i) == ListRoot(hs, epoch) {
      ProofSound(hs, node, words[1..14], i, Pad(hs, roots, 13), 13);
    }
  }

  // --- Construction ---

  /** Two leaves per record, so that the difficulty is the leaf beside the block hash. */
  function Leaves(epoch: seq<HeaderRecord>): (leaves: seq<Word>)
    ensures |leaves| == 2 * |epoch|
  {
    if epoch == [] then []
    else Leaves(epoch[..|epoch| - 1]) + [epoch[|epoch| - 1].blockHash, Chunk(epoch[|epoch| - 1].totalDifficulty)]
  }

  lemma {:induction false} LeafAt(epoch: seq<HeaderRecord>, i: nat)
    requires i < |epoch|
    ensures Leaves(epoch)[2 * i] == epoch[i].blockHash
    ensures Leaves(epoch)[2 * i + 1] == Chunk(epoch[i].totalDifficulty)
  {
    if i < |epoch| - 1 {
      LeafAt(epoch[..|epoch| - 1], i);
    }
  }

  /** `MasterAccumulator::construct_proof`. */
  method ConstructProof(hs: Hasher<Word>, header: Header, epoch: seq<HeaderRecord>) returns (r: Outcome<seq<Word>>)
    requires |epoch| <= 8192
    ensures r.OutOfBounds? <==> header.number % 8192 >= |epoch|
    ensures r.Accepted? <==> header.number % 8192 < |epoch| && epoch[header.number % 8192].blockHash == header.hash
    ensures r.Accepted? ==> r.value == ProofOf(hs, epoch, header.number % 8192)
    ensures r.Rejected? ==> r.reason == HashMismatch
  {
    var index := RecordIndex(header);
    if index >= |epoch| {
      return OutOfBounds;
    }
    if epoch[index].blockHash != header.hash {
      return Rejected(HashMismatch);
    }
    var leaves: seq<Word> := [];
    for i := 0 to |epoch|
      invariant leaves == Leaves(epoch[..i])
    {
      assert epoch[..i + 1][..i] == epoch[..i];
      leaves := leaves + [epoch[i].blockHash];
      leaves := leaves + [Chunk(epoch[i].totalDifficulty)];
    }
    assert epoch[..|epoch|] == epoch;
    r := ProveLeaf(hs, header, epoch, leaves);
  }

  /** The second half of `construct_proof`, from the leaves to the fifteen words. */
  method ProveLeaf(hs: Hasher<Word>, header: Header, epoch: seq<HeaderRecord>, leaves: seq<Word>)
    returns (r: Outcome<seq<Word>>)
    requires |epoch| <= 8192 && header.number % 8192 < |epoch| && leaves == Leaves(epoch)
    requires epoch[header.number % 8192].blockHash == header.hash
    ensures r == Accepted(ProofOf(hs, epoch, header.number % 8192))
  {
    hide Create, ProofFor, Leaves, Chunk, Pow2;
    ProofOfRecord(hs, epoch, RecordIndex(header));
    var index := RecordIndex(header) * 2;
    var generated := GenerateProof(hs, Create(hs, leaves, 14), index, 14);
    var (leaf, proof) := generated.value;
    assert leaf == header.hash;
    proof := proof + [Chunk(EPOCH_SIZE)];
    r := if |proof| == 15 then Accepted(proof) else Rejected(InvalidProofLength);
  }

  /** The fifteen words `construct_proof` returns: siblings, then always the full epoch size. */
  function ProofOf(hs: Hasher<Word>, epoch: seq<HeaderRecord>, i: nat): (words: seq<Word>)
    requires |epoch| <= 8192
  {
    assert Pow2(14) == 16384;
    match ProofFor(hs, Create(hs, Leaves(epoch), 14), 2 * i, 14)
    case Err(_) => []
    case Ok((_, siblings)) => siblings + [Chunk(EPOCH_SIZE)]
  }

  lemma ProofOfRecord(hs: Hasher<Word>, epoch: seq<HeaderRecord>, i: nat)
    requires |epoch| <= 8192 && i < |epoch|
    ensures |ProofOf(hs, epoch, i)| == 15
    ensures |Leaves(epoch)| <= Pow2(14)
    ensures var r := ProofFor(hs, Create(hs, Leaves(epoch), 14), 2 * i, 14);
            && r.Ok? && r.value.0 == epoch[i].blockHash && r.value.1 == ProofOf(hs, epoch, i)[..14]
  {
    assert Pow2(14) == 16384;
    hide Create, ProofFor, RootFromBranch, TreeHash, Pow2, Chunk;
    ProofComplete(hs, Leaves(epoch), 2 * i, 14);
    LeafAt(epoch, i);
  }

  lemma {:induction false} LeavesPairUp(hs: Hasher<Word>, epoch: seq<HeaderRecord>)
    ensures PairUp(hs, Leaves(epoch)) == RecordRoots(hs, epoch)
  {
    forall i | 0 <= i < |epoch| ensures PairUp(hs, Leaves(epoch))[i] == RecordRoots(hs, epoch)[i] {
      PairUpAt(hs, Leaves(epoch), i);
      LeafAt(epoch, i);
      RecordRootAt(hs, epoch, i);
    }
  }

  /** A full epoch's leaf tree, one level deeper, has the root of the SSZ list. */
  lemma FullTreeHash(hs: Hasher<Word>, epoch: seq<HeaderRecord>)
    requires |epoch| == 8192
    ensures |Leaves(epoch)| == Pow2(14) && |epoch| == Pow2(13)
    ensures TreeHash(hs, Create(hs, Leaves(epoch), 14)) == ListRoot(hs, epoch)
  {
    assert Pow2(13) == 8192 && Pow2(14) == 16384;
    LeavesPairUp(hs, epoch);
    NoPadding(hs, Leaves(epoch), 14);
    NoPadding(hs, RecordRoots(hs, epoch), 13);
    MerkleizeLayer(hs, Leaves(epoch), 13);
    hide Merkleize, Pow2, Create, Pad;
    CreateIsMerkleize(hs, Leaves(epoch), 14);
  }

  /** The constructed proof with another last word, such as the true length of the epoch. */
  function ProofWithLength(hs: Hasher<Word>, epoch: seq<HeaderRecord>, i: nat, length: Word): seq<Word>
    requires |epoch| <= 8192
  {
    var words := ProofOf(hs, epoch, i);
    if words == [] then [] else words[..|words| - 1] + [length]
  }

  lemma OwnLength(hs: Hasher<Word>, epoch: seq<HeaderRecord>, i: nat)
    requires |epoch| <= 8192 && i < |epoch|
    ensures ProofWithLength(hs, epoch, i, Chunk(8192)) == ProofOf(hs, epoch, i)
  {
    ProofOfRecord(hs, epoch, i);
  }

  /** What the constructed proof, whatever its last word, leads to from the header's own hash. */
  lemma ConstructedRoot(hs: Hasher<Word>, header: Header, epoch: seq<HeaderRecord>, length: Word)
    requires |epoch| <= 8192 && header.number % 8192 < |epoch|
    requires epoch[header.number % 8192].blockHash == header.hash
    ensures |Leaves(epoch)| <= Pow2(14)
    ensures var words := ProofWithLength(hs, epoch, header.number % 8192, length);
            && |words| == 15
            && RootFromBranch(hs, header.hash, words, 32768 + 2 * (header.number % 8192)) ==
               hs.combine(TreeHash(hs, Create(hs, Leaves(epoch), 14)), length)
  {
    var i := RecordIndex(header);
    hide Pow2, Create, ProofFor, RootFromBranch, TreeHash, Chunk, Leaves, ProofOf;
    ProofOfRecord(hs, epoch, i);
    VerifierPath(hs, header, ProofWithLength(hs, epoch, i, length));
    assert ProofWithLength(hs, epoch, i, length)[..14] == ProofOf(hs, epoch, i)[..14];
    ProofComplete(hs, Leaves(epoch), 2 * i, 14);
    LeafAt(epoch, i);
  }

  /** Completeness: the proof constructed for any pre-merge header of a full epoch is accepted. */
  lemma ConstructedProofAccepted(hs: Hasher<Word>, epochs: seq<Word>, header: Header, epoch: seq<HeaderRecord>)
    requires |epoch| == 8192
    requires header.number <= 15_537_393 && epoch[header.number % 8192].blockHash == header.hash
    requires header.number / 8192 < |epochs|
    requires |epoch| <= Pow2(13) && epochs[header.number / 8192] == SszRoot(hs, epoch)
    ensures ValidateHeaderWithProof(hs, epochs, header, AccumulatorProof(ProofOf(hs, epoch, header.number % 8192)))
            == Accepted(())
  {
    hide Merkleize, RootFromBranch, Create, ListRoot, TreeHash, Chunk, ProofFor, Pow2;
    ProofOfRecord(hs, epoch, RecordIndex(header));
    OwnLength(hs, epoch, RecordIndex(header));
    ConstructedRoot(hs, header, epoch, Chunk(EPOCH_SIZE));
    FullTreeHash(hs, epoch);
  }

  /** In a shorter epoch, such as the last one before the merge, the constructed proof carries
      the wrong length: it is accepted only if it exhibits a hash collision. */
  lemma ShortEpochProofFails(hs: Hasher<Word>, epochs: seq<Word>, header: Header, epoch: seq<HeaderRecord>)
    requires |epoch| < 8192 && header.number % 8192 < |epoch|
    requires epoch[header.number % 8192].blockHash == header.hash
    requires header.number / 8192 < |epochs|
    requires |epoch| <= Pow2(13) && epochs[header.number / 8192] == SszRoot(hs, epoch)
    requires ValidateHeaderWithProof(hs, epochs, header,
                                     AccumulatorProof(ProofOf(hs, epoch, header.number % 8192))).Accepted?
    ensures |Leaves(epoch)| <= Pow2(14)
    ensures IsCollision(hs, Collision((TreeHash(hs, Create(hs, Leaves(epoch), 14)), Chunk(8192)),
                                      (ListRoot(hs, epoch), Chunk(|epoch|))))
  {
    hide Merkleize, RootFromBranch, Create, ListRoot, TreeHash, Chunk, ProofFor, Pow2;
    ProofOfRecord(hs, epoch, RecordIndex(header));
    OwnLength(hs, epoch, RecordIndex(header));
    ConstructedRoot(hs, header, epoch, Chunk(EPOCH_SIZE));
    if Chunk(EPOCH_SIZE) == Chunk(|epoch|) {
      ChunkInjective(EPOCH_SIZE, |epoch|);
    }
  }

  /** The record level of the leaf tree: beyond the records, pairs of zero leaves hashed together. */
  function PaddedRecords(hs: Hasher<Word>, epoch: seq<HeaderRecord>): (level: seq<Word>)
    requires |epoch| <= 8192
    ensures |level| == Pow2(13)
  {
    assert Pow2(13) == 8192 && Pow2(14) == 16384;
    PairUp(hs, Pad(hs, Leaves(epoch), 14))
  }

  lemma LeafTreeRoot(hs: Hasher<Word>, epoch: seq<HeaderRecord>)
    requires |epoch| <= 8192
    ensures |Leaves(epoch)| <= Pow2(14)
    ensures TreeHash(hs, Create(hs, Leaves(epoch), 14)) == Merkleize(hs, PaddedRecords(hs, epoch), 13)
  {
    assert Pow2(13) == 8192 && Pow2(14) == 16384;
    MerkleizeLayer(hs, Pad(hs, Leaves(epoch), 14), 13);
    hide Merkleize, Pow2, Create, Pad;
    CreateIsMerkleize(hs, Leaves(epoch), 14);
  }

  lemma PaddingAt(hs: Hasher<Word>, epoch: seq<HeaderRecord>)
    requires |epoch| < 8192
    ensures |epoch| < Pow2(13)
    ensures PaddedRecords(hs, epoch)[|epoch|] == hs.combine(hs.zero, hs.zero)
    ensures Pad(hs, RecordRoots(hs, epoch), 13)[|epoch|] == hs.zero
  {
    assert Pow2(13) == 8192 && Pow2(14) == 16384;
    hide PairUp, Leaves, RecordRoots, Pow2;
    PairUpAt(hs, Pad(hs, Leaves(epoch), 14), |epoch|);
  }

  /** The length word is not all: whatever the last word, the true length included, the proof made
      from the leaf tree of a shorter epoch is accepted only if a pair of zeros hashes to zero or
      a collision can be computed, of the last step or of the two trees. */
  lemma ShortEpochTreeDiffers(hs: Hasher<Word>, epochs: seq<Word>, header: Header, epoch: seq<HeaderRecord>,
                              length: Word)
    requires |epoch| < 8192 && header.number % 8192 < |epoch|
    requires epoch[header.number % 8192].blockHash == header.hash
    requires header.number / 8192 < |epochs|
    requires |epoch| < Pow2(13) && epochs[header.number / 8192] == SszRoot(hs, epoch)
    requires ValidateHeaderWithProof(hs, epochs, header,
               AccumulatorProof(ProofWithLength(hs, epoch, header.number % 8192, length))).Accepted?
    ensures |Leaves(epoch)| <= Pow2(14)
    ensures || hs.combine(hs.zero, hs.zero) == hs.zero
            || IsCollision(hs, Collision((TreeHash(hs, Create(hs, Leaves(epoch), 14)), length),
                                         (ListRoot(hs, epoch), Chunk(|epoch|))))
            || IsCollision(hs, ExtractBetween(hs, PaddedRecords(hs, epoch), Pad(hs, RecordRoots(hs, epoch), 13),
                                              |epoch|, 13))
  {
    hide Merkleize, RootFromBranch, Create, TreeHash, Chunk, ProofOf, Pow2, ProofWithLength, PaddedRecords,
      Pad, ExtractBetween;
    ConstructedRoot(hs, header, epoch, length);
    LeafTreeRoot(hs, epoch);
    PaddingAt(hs, epoch);
    if TreeHash(hs, Create(hs, Leaves(epoch), 14)) == ListRoot(hs, epoch) {
      RootBindsChunks(hs, PaddedRecords(hs, epoch), Pad(hs, RecordRoots(hs, epoch), 13), |epoch|, 13);
    }
  }

  /** The smallest case: one record, and a hash that keeps its right argument. */
  lemma ShortEpochExample()
    ensures var hs := Hasher((a: Word, b: Word) => b, ZERO_WORD);
            var epoch := [HeaderRecord(ZERO_WORD, 0)];
            var header := Header(0, ZERO_WORD);
            && 1 <= Pow2(13)
            && ValidateHeaderWithProof(hs, [SszRoot(hs, epoch)], header, AccumulatorProof(ProofOf(hs, epoch, 0)))
               == Rejected(MerkleProofFailed)
  {
    hide Chunk, Create, RootFromBranch, ProofOf, ListRoot, TreeHash, Leaves;
    var hs := Hasher((a: Word, b: Word) => b, ZERO_WORD);
    var epoch := [HeaderRecord(ZERO_WORD, 0)];
    var header := Header(0, ZERO_WORD);
    var epochs := [SszRoot(hs, epoch)];
    if ValidateHeaderWithProof(hs, epochs, header, AccumulatorProof(ProofOf(hs, epoch, 0))).Accepted? {
      ShortEpochProofFails(hs, epochs, header, epoch);
      ChunkInjective(EPOCH_SIZE, 1);
    }
  }

  lemma ChunkInjective(m: nat, n: nat)
    requires m <= 8192 && n <= 8192 && Chunk(m) == Chunk(n)
    ensures m == n
  {
    assert EPOCH_SIZE < Pow2(256);
    hide LittleEndian, ToLittleEndian, Pow2;
    LittleEndianRoundTrip(m, 32);
    LittleEndianRoundTrip(n, 32);
  }
}
