/** Merkle proofs as `spv.ts` builds, cuts and checks them. */
module MerkleProof {
  import opened HexBytes
  import opened Hashing
  import opened MerkleTree
  import opened Results
  import opened Sequences

  /** A branch as the Electrum server reports it: hashes in display byte order, the deepest first. */
  datatype MerkleBranch = MerkleBranch(blockHeight: int, merkle: seq<Hex>, position: int)

  datatype MerkleError = IncorrectProofLength | InvalidMerkleTree | ProofNotValid

  function ReverseAll(items: seq<Hex>): (r: seq<Hex>)
    ensures |r| == |items|
    ensures forall i :: 0 <= i < |items| ==> r[i] == Reverse(items[i])
  {
    seq(|items|, i requires 0 <= i < |items| => Reverse(items[i]))
  }

  method CreateMerkleProof(branch: MerkleBranch) returns (proof: Hex)
    ensures proof == Concat(ReverseAll(branch.merkle))
  {
    proof := [];
    var items := branch.merkle;
    for i := 0 to |items|
      invariant proof == Concat(ReverseAll(items[..i]))
    {
      ConcatOne(ReverseAll(items[..i]), Reverse(items[i]));
      assert ReverseAll(items[..i + 1]) == ReverseAll(items[..i]) + [Reverse(items[i])];
      proof := proof + Reverse(items[i]);
    }
    assert items[..|items|] == items;
  }

  function SplitProof(proof: Hex): (r: Result<seq<Hash32>, MerkleError>) {
    if |proof| % 32 != 0 then Err(IncorrectProofLength)
    else
      FullChunks(proof, 32, |proof| / 32);
      Ok(Chunks(proof, 32))
  }

  lemma ChunksNext(proof: Hex, i: nat)
    requires i + 32 <= |proof|
    ensures Chunks(proof[i..], 32) == [proof[i..i + 32]] + Chunks(proof[i + 32..], 32)
  {
    assert proof[i..][..32] == proof[i..i + 32];
    assert proof[i..][32..] == proof[i + 32..];
    ChunksStep(proof[i..], 32);
  }

  lemma NoChunks(proof: Hex, i: nat)
    requires i == |proof|
    ensures Chunks(proof[i..], 32) == []
  {
  }

  /** The pieces are the only list of 32-byte strings that concatenates to the proof. */
  method SplitMerkleProof(proof: Hex) returns (r: Result<seq<Hash32>, MerkleError>)
    ensures r.Ok? <==> |proof| % 32 == 0
    ensures r.Ok? ==> Concat(r.value) == proof
    ensures r.Err? ==> r.error == IncorrectProofLength
    ensures r == SplitProof(proof)
  {
    if |proof| % 32 != 0 {
      return Err(IncorrectProofLength);
    }
    var hashes := Pieces(proof);
    FullChunks(proof, 32, |proof| / 32);
    ConcatOfChunks(proof, 32);
    return Ok(hashes);
  }

  /** The loop of `splitMerkleProof`. */
  method Pieces(proof: Hex) returns (pieces: seq<Hex>)
    requires |proof| % 32 == 0
    ensures pieces == Chunks(proof, 32)
  {
    hide Chunks;
    pieces := [];
    var i := 0;
    while i < |proof|
      invariant 0 <= i <= |proof| && i % 32 == 0
      invariant pieces + Chunks(proof[i..], 32) == Chunks(proof, 32)
    {
      ChunksNext(proof, i);
      Assoc<Hex>(pieces, [proof[i..i + 32]], Chunks(proof[i + 32..], 32));
      pieces := pieces + [proof[i..i + 32]];
      i := i + 32;
    }
    NoChunks(proof, i);
    NothingToAdd<Hex>(pieces);
  }

  /** Accepted: the branch folds to the root, and an empty branch stands for a block with one transaction. */
  predicate MerkleAccepts(sha: Sha256, txHash: Hex, root: Hex, branch: seq<Hash32>, idx: int) {
    && Fold(sha, Reverse(txHash), branch, idx) == root
    && (branch == [] ==> idx == 0)
  }

  method ValidateMerkleTree(sha: Sha256, txHash: Hex, root: Hex, branch: seq<Hash32>, idx: int)
    returns (r: Result<(), MerkleError>)
    ensures r.Ok? <==> MerkleAccepts(sha, txHash, root, branch, idx)
    ensures branch == [] ==> (r.Ok? <==> Reverse(txHash) == root && idx == 0)
    ensures branch != [] ==> (r.Ok? <==> Fold(sha, Reverse(txHash), branch, idx) == root)
    ensures r.Err? ==> r.error == if branch == [] then InvalidMerkleTree else ProofNotValid
  {
    if Reverse(txHash) == root && idx == 0 && |branch| == 0 {
      return Ok(());
    }
    r := ValidateMerkleTreeHashes(sha, txHash, root, branch, idx);
  }

  method ValidateMerkleTreeHashes(sha: Sha256, txHash: Hex, root: Hex, branch: seq<Hash32>, transactionIndex: int)
    returns (r: Result<(), MerkleError>)
    ensures r.Ok? <==> branch != [] && Fold(sha, Reverse(txHash), branch, transactionIndex) == root
    ensures r.Err? ==> r.error == if branch == [] then InvalidMerkleTree else ProofNotValid
  {
    if |branch| == 0 {
      return Err(InvalidMerkleTree);
    }
    var idx := transactionIndex;
    var currentHash: Hex := Reverse(txHash);
    for i := 0 to |branch|
      invariant Fold(sha, currentHash, branch[i..], idx) == Fold(sha, Reverse(txHash), branch, transactionIndex)
    {
      assert branch[i..][0] == branch[i] && branch[i..][1..] == branch[i + 1..];
      var sibling: Hex := branch[i];
      if IsRightChild(idx) {
        currentHash := Hash256(sha, sibling + currentHash);
      } else {
        currentHash := Hash256(sha, currentHash + sibling);
      }
      idx := Shift(idx);
    }
    assert branch[|branch|..] == [];
    if currentHash != root {
      return Err(ProofNotValid);
    }
    return Ok(());
  }

  // -------------------------------------------------------------------------------------------

  /** Cutting a created proof gives back the branch, hash by hash in internal byte order. */
  lemma SplitAfterCreate(merkle: seq<Hex>)
    requires forall m :: m in merkle ==> |m| == 32
    ensures SplitProof(Concat(ReverseAll(merkle))) == Ok(ReverseAll(merkle))
    ensures |Concat(ReverseAll(merkle))| == 32 * |merkle|
  {
    var hashes := ReverseAll(merkle);
    ConcatLength(hashes, 32);
    ChunksOfConcat(hashes, 32);
  }

  /** The branch that an honest server reports for transaction `i`, in display byte order. */
  function HonestMerkle(sha: Sha256, level: Level, i: nat): (merkle: seq<Hex>)
    requires i < |level|
    ensures |merkle| == Depth(|level|)
    ensures forall m :: m in merkle ==> |m| == 32
  {
    ReverseAll(Branch(sha, level, i))
  }

  /** Every transaction of every block is accepted after creating, cutting and checking its proof. */
  lemma MemberIsAccepted(sha: Sha256, level: Level, i: nat)
    requires i < |level| && i < 0x8000_0000
    ensures var split := SplitProof(Concat(ReverseAll(HonestMerkle(sha, level, i))));
            split.Ok? && MerkleAccepts(sha, Reverse(level[i]), Root(sha, level), split.value, i)
  {
    hide Fold, Root, SplitProof, Branch;
    var branch := Branch(sha, level, i);
    var merkle := HonestMerkle(sha, level, i);
    SplitAfterCreate(merkle);
    forall k | 0 <= k < |branch| ensures Reverse(merkle[k]) == branch[k] {
      ReverseTwice(branch[k]);
    }
    assert ReverseAll(merkle) == branch;
    ReverseTwice(level[i]);
    BranchFoldsToRoot(sha, level, i);
  }

  /** Whatever index and whatever hash is accepted with a branch as long as the tree is high, it is a leaf. */
  lemma AcceptedIsMember(sha: Sha256, txHash: Hex, level: Level, branch: seq<Hash32>, idx: int)
    requires |branch| == Depth(|level|)
    requires MerkleAccepts(sha, txHash, Root(sha, level), branch, idx)
    ensures || txHash == Reverse(level[Reached(|level|, idx)])
            || IsCollision(sha, FoldCollision(sha, Reverse(txHash), branch, level, idx))
    ensures 0 <= idx < |level| && idx < 0x8000_0000 ==> Reached(|level|, idx) == idx
  {
    FoldIsSound(sha, Reverse(txHash), branch, level, idx);
    ReverseTwice(txHash);
    if 0 <= idx < |level| && idx < 0x8000_0000 {
      ReachedInRange(|level|, idx);
    }
  }
}
