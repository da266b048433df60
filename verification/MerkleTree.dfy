/**
 The Merkle tree of a Bitcoin block (developer reference, section "Merkle Trees"): pairs of 32-byte nodes
 are hashed together level by level, and on a level of odd size the last node is paired with itself.
 This is the reference definition that the branch check of `spv.ts` is compared with.
 */
module MerkleTree {
  import opened Arithmetic
  import opened HexBytes
  import opened Hashing

  type Level = nodes: seq<Hash32> | nodes != [] witness [ZERO_HASH]

  /** What is hashed for the parent number `k` of a level. */
  function PairAt(level: Level, k: nat): (pair: Hex)
    requires 2 * k < |level|
    ensures |pair| == 64
  {
    var left: Hex, right: Hex := level[2 * k], level[Min(2 * k + 1, |level| - 1)];
    left + right
  }

  function Parents(sha: Sha256, level: Level): (parents: Level)
    ensures |parents| == (|level| + 1) / 2
    ensures forall k :: 0 <= k < |parents| ==> parents[k] == Hash256(sha, PairAt(level, k))
  {
    seq((|level| + 1) / 2, k requires 0 <= k < (|level| + 1) / 2 => Hash256(sha, PairAt(level, k)))
  }

  function Root(sha: Sha256, level: Level): Hash32
    decreases |level|
  {
    if |level| == 1 then level[0] else Root(sha, Parents(sha, level))
  }

  /** Number of levels above one of `n` nodes. */
  function Depth(n: nat): nat {
    if n <= 1 then 0 else 1 + Depth((n + 1) / 2)
  }

  /** The nodes paired with node `i` and its ancestors, the deepest first. */
  function Branch(sha: Sha256, level: Level, i: nat): (branch: seq<Hash32>)
    requires i < |level|
    ensures |branch| == Depth(|level|)
    decreases |level|
  {
    if |level| == 1 then []
    else [Sibling(level, i)] + Branch(sha, Parents(sha, level), i / 2)
  }

  function Sibling(level: Level, i: nat): Hash32
    requires i < |level|
  {
    if i % 2 == 1 then level[i - 1] else level[Min(i + 1, |level| - 1)]
  }

  // -------------------------------------------------------------------------------------------
  // Indices as the source computes with them: JavaScript numbers, `%` and `>>`.

  function ToInt32(n: int): int {
    var m := n % 0x1_0000_0000;
    if m < 0x8000_0000 then m else m - 0x1_0000_0000
  }

  /** `idx % 2 === 1`: never true of a negative number, whose remainder is -1 or -0. */
  predicate IsRightChild(idx: int) {
    0 < idx && idx % 2 == 1
  }

  /** `idx >> 1`: the operand is first wrapped to 32 bits. */
  function Shift(idx: int): int {
    ToInt32(idx) / 2
  }

  /** The shift halves a non-negative index exactly when the index fits in 31 bits. */
  lemma ShiftHalvesExactly(idx: nat)
    ensures Shift(idx) == idx / 2 <==> idx < 0x8000_0000
  {
    if idx >= 0x8000_0000 {
      assert Shift(idx) < 0x4000_0000 <= idx / 2;
    }
  }

  lemma Parity(n: int, half: int)
    ensures (n - 2 * half) % 2 == n % 2
  {
  }

  lemma Wrapped(n: int) returns (k: int)
    ensures ToInt32(n) == n - k * 0x1_0000_0000
  {
    k := n / 0x1_0000_0000;
    if 0x8000_0000 <= n % 0x1_0000_0000 {
      k := k + 1;
    }
  }

  /** The shift halves, rounding down, what is left of the index when it loses multiples of 2^32. */
  lemma ShiftInNumbers(idx: int) returns (k: int)
    ensures -0x4000_0000 <= Shift(idx) < 0x4000_0000
    ensures 2 * Shift(idx) + idx % 2 == idx - k * 0x1_0000_0000
  {
    assert -0x8000_0000 <= ToInt32(idx) < 0x8000_0000;
    hide ToInt32;
    k := Wrapped(idx);
    Parity(idx, k * 0x8000_0000);
  }

  /** The hash of a node with its sibling, ordered by the index. */
  function PairOf(h: Hex, sibling: Hash32, idx: int): Hex {
    if IsRightChild(idx) then sibling + h else h + sibling
  }

  /** What the branch check computes: the root that the branch leads to. */
  function Fold(sha: Sha256, h: Hex, branch: seq<Hash32>, idx: int): Hex
    decreases |branch|
  {
    if branch == [] then h
    else Fold(sha, Hash256(sha, PairOf(h, branch[0], idx)), branch[1..], Shift(idx))
  }

  /** Cutting a branch in two at index 0: the node that the first `cut` hashes lead to, folded with the others. */
  lemma {:induction false} FoldCut(sha: Sha256, h: Hex, branch: seq<Hash32>, cut: nat)
    requires 0 < cut <= |branch|
    ensures Fold(sha, h, branch, 0)
            == Fold(sha, Hash256(sha, PairOf(Fold(sha, h, branch[..cut - 1], 0), branch[cut - 1], 0)), branch[cut..], 0)
    decreases cut
  {
    if cut > 1 {
      var rest, h' := branch[1..], Hash256(sha, PairOf(h, branch[0], 0));
      FoldCut(sha, h', rest, cut - 1);
      assert branch[..cut - 1][1..] == rest[..cut - 2];
      assert branch[cut..] == rest[cut - 1..];
    }
  }

  /** Small trees and branches, written out. */
  lemma SmallTrees(sha: Sha256, a: Hash32, b: Hash32, c: Hash32)
    ensures Root(sha, [a]) == a
    ensures Root(sha, [a, b]) == sha(sha(Pair(a, b)))
    ensures Root(sha, [a, b, c]) == sha(sha(Pair(sha(sha(Pair(a, b))), sha(sha(Pair(c, c))))))
  {
    OneParent(sha, a, b);
    var ab, cc := sha(sha(Pair(a, b))), sha(sha(Pair(c, c)));
    assert PairAt([a, b, c], 0) == Pair(a, b) && PairAt([a, b, c], 1) == Pair(c, c);
    assert Parents(sha, [a, b, c]) == [ab, cc];
    OneParent(sha, ab, cc);
  }

  lemma OneParent(sha: Sha256, a: Hash32, b: Hash32)
    ensures Root(sha, [a, b]) == sha(sha(Pair(a, b)))
  {
    assert PairAt([a, b], 0) == Pair(a, b);
    assert Parents(sha, [a, b]) == [sha(sha(Pair(a, b)))];
  }

  function Pair(left: Hex, right: Hex): Hex {
    left + right
  }

  lemma SmallBranches(sha: Sha256, h: Hex, s: Hash32, t: Hash32)
    ensures Fold(sha, h, [], 0) == h
    ensures Fold(sha, h, [s], 0) == sha(sha(h + s)) && Fold(sha, h, [s], 1) == sha(sha(s + h))
    ensures Fold(sha, h, [s, t], 1) == sha(sha(Pair(sha(sha(s + h)), t)))
    ensures Fold(sha, h, [s, t], 2) == sha(sha(Pair(t, sha(sha(h + s)))))
    ensures Fold(sha, h, [s], -1) == sha(sha(h + s))
  {
    assert [s, t][1..] == [t] && [t][1..] == [];
    assert Shift(1) == 0 && Shift(2) == 1;
    assert Fold(sha, h, [s, t], 1) == Fold(sha, sha(sha(s + h)), [t], 0);
    assert Fold(sha, h, [s, t], 2) == Fold(sha, sha(sha(h + s)), [t], 1);
  }

  // -------------------------------------------------------------------------------------------
  // Completeness

  lemma PairWithSibling(level: Level, i: nat)
    requires i < |level|
    ensures PairOf(level[i], Sibling(level, i), i) == PairAt(level, i / 2)
  {
    assert i == 2 * (i / 2) + i % 2;
  }

  /** The branch of a node folds to the root. */
  lemma {:induction false} BranchFoldsToRoot(sha: Sha256, level: Level, i: nat)
    requires i < |level| && i < 0x8000_0000
    ensures Fold(sha, level[i], Branch(sha, level, i), i) == Root(sha, level)
    decreases |level|
  {
    if |level| > 1 {
      var parents := Parents(sha, level);
      var branch := Branch(sha, level, i);
      BranchFoldsToRoot(sha, parents, i / 2);
      ShiftHalvesExactly(i);
      PairWithSibling(level, i);
      assert branch[0] == Sibling(level, i);
      assert branch[1..] == Branch(sha, parents, i / 2);
    }
  }

  // -------------------------------------------------------------------------------------------
  // Soundness

  /**
   The node reached from the root by descending one level per bit of the index, most significant bit
   first; a step to a right child that does not exist stays on the duplicated left one.
   */
  function Reached(n: nat, idx: int): (r: nat)
    requires 0 < n
    ensures r < n
    decreases n
  {
    if n == 1 then 0
    else
      var parent := Reached((n + 1) / 2, Shift(idx));
      Min(2 * parent + (if IsRightChild(idx) then 1 else 0), n - 1)
  }

  /** The index of an existing node reaches that node. */
  lemma {:induction false} ReachedInRange(n: nat, i: nat)
    requires i < n && i < 0x8000_0000
    ensures Reached(n, i) == i
    decreases n
  {
    if n > 1 {
      ShiftHalvesExactly(i);
      ReachedInRange((n + 1) / 2, i / 2);
      assert i == 2 * (i / 2) + i % 2;
      assert IsRightChild(i) <==> i % 2 == 1;
    }
  }

  lemma {:induction false} ReachedZero(n: nat)
    requires 0 < n
    ensures Reached(n, 0) == 0
    decreases n
  {
    if n > 1 {
      ReachedZero((n + 1) / 2);
    }
  }

  /** Walks the accepted branch and the tree side by side up to the first two different preimages of one node. */
  function FoldCollision(sha: Sha256, h: Hex, branch: seq<Hash32>, level: Level, idx: int): (Hex, Hex)
    decreases |branch|
  {
    if branch == [] then ([], [])
    else
      var parents := Parents(sha, level);
      var claimed := PairOf(h, branch[0], idx);
      var actual := PairAt(level, Reached(|parents|, Shift(idx)));
      if claimed != actual && Hash256(sha, claimed) == Hash256(sha, actual) then CollisionFrom(sha, claimed, actual)
      else FoldCollision(sha, Hash256(sha, claimed), branch[1..], parents, Shift(idx))
  }

  lemma SamePair(h: Hex, sibling: Hash32, idx: int, level: Level, p: nat)
    requires 2 * p < |level|
    requires PairOf(h, sibling, idx) == PairAt(level, p)
    ensures h == level[Min(2 * p + (if IsRightChild(idx) then 1 else 0), |level| - 1)]
  {
    var pair := PairAt(level, p);
    assert |h| == 32;
    assert pair[..32] == level[2 * p];
    assert pair[32..] == level[Min(2 * p + 1, |level| - 1)];
    assert PairOf(h, sibling, idx)[32..] == if IsRightChild(idx) then h else sibling;
    assert PairOf(h, sibling, idx)[..32] == if IsRightChild(idx) then sibling else h;
  }

  /**
   A branch as long as the tree is high, folding to its root for any index, starts from the node that the
   index reaches, or `FoldCollision` computes a collision. The hash may have any length.
   */
  lemma {:induction false} FoldIsSound(sha: Sha256, h: Hex, branch: seq<Hash32>, level: Level, idx: int)
    requires |branch| == Depth(|level|)
    requires Fold(sha, h, branch, idx) == Root(sha, level)
    ensures h == level[Reached(|level|, idx)] || IsCollision(sha, FoldCollision(sha, h, branch, level, idx))
    decreases |branch|
  {
    if |level| > 1 {
      var parents := Parents(sha, level);
      var claimed := PairOf(h, branch[0], idx);
      var p := Reached(|parents|, Shift(idx));
      FoldIsSound(sha, Hash256(sha, claimed), branch[1..], parents, Shift(idx));
      if claimed == PairAt(level, p) {
        SamePair(h, branch[0], idx, level, p);
      }
    }
  }

  // -------------------------------------------------------------------------------------------
  // Upper levels, and why a branch of another length cannot lead to node 0

  function Ascend(sha: Sha256, level: Level, steps: nat): (up: Level)
    requires steps <= Depth(|level|)
    ensures Depth(|up|) == Depth(|level|) - steps
    ensures Root(sha, up) == Root(sha, level)
    decreases steps
  {
    if steps == 0 then level else Ascend(sha, Parents(sha, level), steps - 1)
  }

  /** `branch` leads from the hash of `text` to an inner node: the left edge of the level above `below`. */
  function ShortCollision(sha: Sha256, text: Hex, branch: seq<Hash32>, below: Level): (Hex, Hex) {
    if Hash256(sha, text) == Parents(sha, below)[0] then CollisionFrom(sha, text, PairAt(below, 0))
    else FoldCollision(sha, Hash256(sha, text), branch, Parents(sha, below), 0)
  }

  /** The last part of `branch` leads from an inner node to the leaf that is the hash of `leaf`. */
  function LongCollision(sha: Sha256, pair: Hex, branch: seq<Hash32>, leaf: Hex, level: Level): (Hex, Hex) {
    if Hash256(sha, pair) == level[0] then CollisionFrom(sha, pair, leaf)
    else FoldCollision(sha, Hash256(sha, pair), branch, level, 0)
  }

  /** The collision that `FirstLeafFixesLength` promises, by comparing the branch with the left edge of the tree. */
  function LengthCollision(sha: Sha256, text: Hex, branch: seq<Hash32>, texts: seq<Hex>, level: Level): (Hex, Hex)
    requires |texts| == |level|
  {
    var k, d := |branch|, Depth(|level|);
    if k < d then
      ShortCollision(sha, text, branch, Ascend(sha, level, d - k - 1))
    else if k == d then
      LongCollision(sha, text, branch, texts[0], level)
    else
      var pair := PairOf(Fold(sha, Hash256(sha, text), branch[..k - d - 1], 0), branch[k - d - 1], 0);
      LongCollision(sha, pair, branch[k - d..], texts[0], level)
  }

  ghost predicate HashesOf(sha: Sha256, texts: seq<Hex>, level: seq<Hash32>) {
    |texts| == |level| && forall i :: 0 <= i < |texts| ==> level[i] == Hash256(sha, texts[i])
  }

  lemma LongBranch(sha: Sha256, text: Hex, branch: seq<Hash32>, cut: nat, leaf: Hex, level: Level)
    requires level[0] == Hash256(sha, leaf)
    requires 0 < cut && |branch| == cut + Depth(|level|)
    requires Fold(sha, Hash256(sha, text), branch, 0) == Root(sha, level)
    ensures var below := Fold(sha, Hash256(sha, text), branch[..cut - 1], 0);
            || |leaf| == 64
            || IsCollision(sha, LongCollision(sha, PairOf(below, branch[cut - 1], 0), branch[cut..], leaf, level))
  {
    var below := Fold(sha, Hash256(sha, text), branch[..cut - 1], 0);
    FoldCut(sha, Hash256(sha, text), branch, cut);
    FoldIs32(sha, Hash256(sha, text), branch[..cut - 1], 0);
    InnerNodeAsLeaf(sha, PairOf(below, branch[cut - 1], 0), branch[cut..], leaf, level);
  }

  lemma InnerNodeAsLeaf(sha: Sha256, pair: Hex, branch: seq<Hash32>, leaf: Hex, level: Level)
    requires level[0] == Hash256(sha, leaf)
    requires |branch| == Depth(|level|)
    requires Fold(sha, Hash256(sha, pair), branch, 0) == Root(sha, level)
    ensures pair == leaf || IsCollision(sha, LongCollision(sha, pair, branch, leaf, level))
  {
    FoldIsSound(sha, Hash256(sha, pair), branch, level, 0);
    ReachedZero(|level|);
  }

  lemma {:induction false} FoldIs32(sha: Sha256, h: Hex, branch: seq<Hash32>, idx: int)
    requires |h| == 32
    ensures |Fold(sha, h, branch, idx)| == 32
    decreases |branch|
  {
    if branch != [] {
      FoldIs32(sha, Hash256(sha, PairOf(h, branch[0], idx)), branch[1..], Shift(idx));
    }
  }

  lemma ShortBranch(sha: Sha256, text: Hex, branch: seq<Hash32>, below: Level)
    requires |below| > 1
    requires |branch| == Depth(|Parents(sha, below)|)
    requires Fold(sha, Hash256(sha, text), branch, 0) == Root(sha, below)
    ensures |text| == 64 || IsCollision(sha, ShortCollision(sha, text, branch, below))
  {
    var up := Parents(sha, below);
    FoldIsSound(sha, Hash256(sha, text), branch, up, 0);
    ReachedZero(|up|);
  }

  /**
   A branch that leads from the hash of `text` at index 0 to the root of a tree over `texts` is as long as
   the tree is high and `text` is the first of `texts`; otherwise one of the two is 64 bytes long, like
   the text of an inner node, or `LengthCollision` computes a collision.
   */
  lemma FirstLeafFixesLength(sha: Sha256, text: Hex, branch: seq<Hash32>, texts: seq<Hex>, level: Level)
    requires HashesOf(sha, texts, level)
    requires Fold(sha, Hash256(sha, text), branch, 0) == Root(sha, level)
    ensures || (|branch| == Depth(|level|) && text == texts[0])
            || (|branch| < Depth(|level|) && |text| == 64)
            || (|branch| > Depth(|level|) && |texts[0]| == 64)
            || IsCollision(sha, LengthCollision(sha, text, branch, texts, level))
  {
    if |branch| < Depth(|level|) {
      ShortBranch(sha, text, branch, Ascend(sha, level, Depth(|level|) - |branch| - 1));
    } else if |branch| > Depth(|level|) {
      LongBranch(sha, text, branch, |branch| - Depth(|level|), texts[0], level);
    } else {
      InnerNodeAsLeaf(sha, text, branch, texts[0], level);
    }
  }
}
