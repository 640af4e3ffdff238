/**
 * The Merkle tree that merkletree-tool/src/create-proof.js builds with
 * `new MerkleTree(leafNodes, keccak256, { sortPairs: true })`, its root and
 * its proofs, together with the verifier that consumes them (the fold of
 * OpenZeppelin's `MerkleProof.verify`).
 *
 * The hash function is a parameter: nothing is assumed about keccak256.
 */
module MerkleTree {

  import opened AddressCodec

  /** A hash function from bytes to bytes (keccak256 in the source). */
  type Hasher = Bytes -> Bytes

  /** A level of the tree: its nodes, left to right. */
  type Level = seq<Bytes>

  /**
   * `Buffer.compare(a, b) <= 0`: unsigned byte-wise lexicographic order in
   * which a proper prefix comes first.
   */
  predicate LexLe(a: Bytes, b: Bytes) {
    |a| == 0 || (|b| > 0 && (a[0] < b[0] || (a[0] == b[0] && LexLe(a[1..], b[1..]))))
  }

  lemma {:induction false} LexLeTotal(a: Bytes, b: Bytes)
    ensures LexLe(a, b) || LexLe(b, a)
  {
    if |a| > 0 && |b| > 0 && a[0] == b[0] {
      LexLeTotal(a[1..], b[1..]);
    }
  }

  lemma {:induction false} LexLeAntisymmetric(a: Bytes, b: Bytes)
    requires LexLe(a, b) && LexLe(b, a)
    ensures a == b
  {
    if |a| > 0 {
      LexLeAntisymmetric(a[1..], b[1..]);
      assert a == [a[0]] + a[1..] && b == [b[0]] + b[1..];
    }
  }

  /**
   * The `sortPairs` combination of two sibling nodes: the pair is sorted
   * with `Buffer.compare` and the concatenation is hashed.
   */
  function Combine(hash: Hasher, a: Bytes, b: Bytes): (r: Bytes)
    ensures (LexLe(a, b) && r == hash(a + b)) || (LexLe(b, a) && r == hash(b + a))
  {
    LexLeTotal(a, b);
    if LexLe(a, b) then hash(a + b) else hash(b + a)
  }

  /** The combination is the hash of min ‖ max, whichever side each node is on. */
  lemma CombineSymmetric(hash: Hasher, a: Bytes, b: Bytes)
    ensures Combine(hash, a, b) == Combine(hash, b, a)
    ensures LexLe(a, b) ==> Combine(hash, a, b) == hash(a + b)
    ensures LexLe(b, a) ==> Combine(hash, a, b) == hash(b + a)
  {
    LexLeTotal(a, b);
    if LexLe(a, b) && LexLe(b, a) {
      LexLeAntisymmetric(a, b);
    }
  }

  /**
   * One round of tree building: complete pairs are combined, and an odd
   * trailing node is carried up unchanged (no duplication, no self-pairing).
   */
  function NextLevel(hash: Hasher, nodes: Level): (r: Level)
    ensures |r| == (|nodes| + 1) / 2
  {
    if |nodes| <= 1 then nodes
    else [Combine(hash, nodes[0], nodes[1])] + NextLevel(hash, nodes[2..])
  }

  /**
   * Node j of the next level combines the complete pair 2j, 2j+1, or is the
   * odd trailing node 2j itself when it has no partner.
   */
  lemma {:induction false} NextLevelAt(hash: Hasher, nodes: Level, j: nat)
    requires j < |NextLevel(hash, nodes)|
    ensures 2 * j < |nodes|
    ensures 2 * j + 1 < |nodes| ==> NextLevel(hash, nodes)[j] == Combine(hash, nodes[2 * j], nodes[2 * j + 1])
    ensures 2 * j + 1 == |nodes| ==> NextLevel(hash, nodes)[j] == nodes[2 * j]
  {
    if j > 0 {
      NextLevelAt(hash, nodes[2..], j - 1);
    }
  }

  /**
   * All levels of the tree, leaves first: a new level is added while the
   * last one has more than one node.
   */
  function Levels(hash: Hasher, nodes: Level): (r: seq<Level>)
    ensures |r| >= 1 && r[0] == nodes
    ensures |r[|r| - 1]| == if |nodes| == 0 then 0 else 1
    decreases |nodes|
  {
    if |nodes| <= 1 then [nodes]
    else [nodes] + Levels(hash, NextLevel(hash, nodes))
  }

  /** Every level above the leaves is NextLevel of the one below, which has more than one node. */
  lemma {:induction false} LevelsChain(hash: Hasher, nodes: Level, k: nat)
    requires k + 1 < |Levels(hash, nodes)|
    ensures |Levels(hash, nodes)[k]| > 1
    ensures Levels(hash, nodes)[k + 1] == NextLevel(hash, Levels(hash, nodes)[k])
    decreases |nodes|
  {
    if k > 0 {
      LevelsChain(hash, NextLevel(hash, nodes), k - 1);
    }
  }

  /** The library's tree object: its leaves and all its levels. */
  datatype Tree = Tree(leaves: Level, levels: seq<Level>)

  /**
   * `new MerkleTree(leaves, hash, { sortPairs: true })`: the leaves are level
   * 0, and the top level is exactly the root (nothing for no leaves).
   */
  function Build(hash: Hasher, leaves: Level): (t: Tree)
    ensures t.leaves == leaves && |t.levels| >= 1 && t.levels[0] == leaves
    ensures t.levels[|t.levels| - 1] == if leaves == [] then [] else [GetRoot(t)]
  {
    Tree(leaves, Levels(hash, leaves))
  }

  /** `getRoot()`: the single node of the top level, or no bytes for an empty tree. */
  function GetRoot(t: Tree): Bytes {
    if t.levels == [] || t.levels[|t.levels| - 1] == [] then []
    else t.levels[|t.levels| - 1][0]
  }

  /**
   * The proof walk of `getProof` from position `index` through the given
   * levels: at each level the sibling (index - 1 for a right node, index + 1
   * for a left one) is collected when it exists, then the index is halved.
   */
  function LevelProof(levels: seq<Level>, index: nat): (p: seq<Bytes>)
    ensures |p| <= |levels|
  {
    if levels == [] then []
    else
      var pair := if index % 2 == 1 then index - 1 else index + 1;
      (if pair < |levels[0]| then [levels[0][pair]] else []) + LevelProof(levels[1..], index / 2)
  }

  /**
   * The position `getProof` uses for a leaf given without an index: the scan
   * over all leaves keeps the LAST equal one; -1 when there is none.
   */
  function LastIndexOf(leaves: Level, leaf: Bytes): (k: int)
    ensures -1 <= k < |leaves|
    ensures k >= 0 ==> leaves[k] == leaf
    ensures forall j :: k < j < |leaves| ==> leaves[j] != leaf
  {
    if leaves == [] then -1
    else if leaves[|leaves| - 1] == leaf then |leaves| - 1
    else LastIndexOf(leaves[..|leaves| - 1], leaf)
  }

  /** `getProof(leaf)`: the proof of the last leaf equal to `leaf`, or [] when absent. */
  function GetProof(t: Tree, leaf: Bytes): (p: seq<Bytes>)
    ensures |p| <= |t.levels|
    ensures leaf !in t.leaves ==> p == []
  {
    var index := LastIndexOf(t.leaves, leaf);
    if index < 0 then [] else LevelProof(t.levels, index)
  }

  /** `processProof`: fold the proof into the leaf with the same combination. */
  function ProcessProof(hash: Hasher, leaf: Bytes, proof: seq<Bytes>): Bytes
    decreases |proof|
  {
    if proof == [] then leaf
    else ProcessProof(hash, Combine(hash, leaf, proof[0]), proof[1..])
  }

  /** `MerkleProof.verify(proof, root, leaf)`. */
  predicate Verify(hash: Hasher, proof: seq<Bytes>, root: Bytes, leaf: Bytes) {
    ProcessProof(hash, leaf, proof) == root
  }

  /** Folding a proof made of two parts folds the first part, then the second. */
  lemma {:induction false} ProcessProofAppend(hash: Hasher, leaf: Bytes, p: seq<Bytes>, q: seq<Bytes>)
    ensures ProcessProof(hash, leaf, p + q) == ProcessProof(hash, ProcessProof(hash, leaf, p), q)
    decreases |p|
  {
    if p != [] {
      assert (p + q)[1..] == p[1..] + q;
      ProcessProofAppend(hash, Combine(hash, leaf, p[0]), p[1..], q);
    } else {
      assert p + q == q;
    }
  }

  /** The node that a position's sibling step leads to is its parent in the next level. */
  lemma StepToParent(hash: Hasher, nodes: Level, i: nat)
    requires |nodes| > 1 && i < |nodes|
    ensures var pair := if i % 2 == 1 then i - 1 else i + 1;
      var next := NextLevel(hash, nodes);
      i / 2 < |next| &&
      (pair < |nodes| ==> Combine(hash, nodes[i], nodes[pair]) == next[i / 2]) &&
      (pair >= |nodes| ==> nodes[i] == next[i / 2])
  {
    NextLevelAt(hash, nodes, i / 2);
    if i % 2 == 1 {
      CombineSymmetric(hash, nodes[i - 1], nodes[i]);
    }
  }

  /** The tree over a level and the tree over the next level have the same root. */
  lemma RootOneLevelUp(hash: Hasher, nodes: Level)
    requires |nodes| > 1
    ensures GetRoot(Tree(nodes, Levels(hash, nodes))) == GetRoot(Tree(NextLevel(hash, nodes), Levels(hash, NextLevel(hash, nodes))))
  {
    var upper := Levels(hash, NextLevel(hash, nodes));
    var levels := Levels(hash, nodes);
    assert levels == [nodes] + upper;
    assert levels[|levels| - 1] == upper[|upper| - 1];
  }

  /**
   * One level up: folding the proof from position i into node i gives what
   * folding the parent's proof into the parent gives.
   */
  lemma FoldOneLevelUp(hash: Hasher, nodes: Level, i: nat)
    requires |nodes| > 1 && i < |nodes|
    ensures var next := NextLevel(hash, nodes);
      i / 2 < |next| &&
      ProcessProof(hash, nodes[i], LevelProof(Levels(hash, nodes), i)) ==
        ProcessProof(hash, next[i / 2], LevelProof(Levels(hash, next), i / 2))
  {
    var next := NextLevel(hash, nodes);
    var levels := [nodes] + Levels(hash, next);
    assert Levels(hash, nodes) == levels;
    assert levels[1..] == Levels(hash, next);
    StepToParent(hash, nodes, i);
    var pair := if i % 2 == 1 then i - 1 else i + 1;
    var rest := LevelProof(Levels(hash, next), i / 2);
    if pair < |nodes| {
      assert LevelProof(levels, i) == [nodes[pair]] + rest;
      assert ProcessProof(hash, nodes[i], [nodes[pair]] + rest) == ProcessProof(hash, next[i / 2], rest);
    } else {
      assert LevelProof(levels, i) == rest;
    }
  }

  /**
   * The central correctness property at one level: the proof collected from
   * position i, folded into the node at i, gives the tree's root.
   */
  lemma {:induction false} LevelProofVerifies(hash: Hasher, nodes: Level, i: nat)
    requires i < |nodes|
    ensures Verify(hash, LevelProof(Levels(hash, nodes), i), GetRoot(Tree(nodes, Levels(hash, nodes))), nodes[i])
    decreases |nodes|
  {
    if |nodes| == 1 {
      assert LevelProof(Levels(hash, nodes), i) == [] + LevelProof([], 0);
    } else {
      RootOneLevelUp(hash, nodes);
      FoldOneLevelUp(hash, nodes, i);
      LevelProofVerifies(hash, NextLevel(hash, nodes), i / 2);
    }
  }

  /** A proof never has more elements than there are levels above the leaves. */
  lemma {:induction false} LevelProofLength(hash: Hasher, nodes: Level, i: nat)
    requires i < |nodes|
    ensures |LevelProof(Levels(hash, nodes), i)| <= |Levels(hash, nodes)| - 1
    decreases |nodes|
  {
    var levels := Levels(hash, nodes);
    if |nodes| == 1 {
      assert LevelProof(levels, i) == [] + LevelProof([], 0);
    } else {
      var next := NextLevel(hash, nodes);
      assert levels[1..] == Levels(hash, next);
      LevelProofLength(hash, next, i / 2);
    }
  }

  /** 2 to the power k. */
  function Pow2(k: nat): (p: nat)
    ensures p >= 1
  {
    if k == 0 then 1 else 2 * Pow2(k - 1)
  }

  /** k is the least height whose full tree holds n leaves: n <= 2^k, and 2^(k-1) < n when k > 0. */
  predicate HeightFits(n: nat, k: nat) {
    n <= Pow2(k) && (k == 0 || Pow2(k - 1) < n)
  }

  /**
   * The height of the tree (the number of levels above the leaves) is the
   * least k with n <= 2^k, for n leaves.
   */
  lemma {:induction false} LevelsHeight(hash: Hasher, nodes: Level)
    requires |nodes| > 0
    ensures HeightFits(|nodes|, |Levels(hash, nodes)| - 1)
    decreases |nodes|
  {
    if |nodes| > 1 {
      var next := NextLevel(hash, nodes);
      var k := |Levels(hash, next)| - 1;
      LevelsUp(hash, nodes);
      LevelsHeight(hash, next);
      HalvingHeight(|nodes|, k);
    }
  }

  /** A list of more than one node has one level more than its next level. */
  lemma LevelsUp(hash: Hasher, nodes: Level)
    requires |nodes| > 1
    ensures |Levels(hash, nodes)| == |Levels(hash, NextLevel(hash, nodes))| + 1
  {
  }

  /** One more level doubles the number of leaves a tree of that height can hold. */
  lemma HalvingHeight(n: nat, k: nat)
    requires n > 1 && HeightFits((n + 1) / 2, k)
    ensures HeightFits(n, k + 1)
  {
    assert Pow2(k + 1) == 2 * Pow2(k);
    if k > 0 {
      assert Pow2(k) == 2 * Pow2(k - 1);
    }
  }
}
