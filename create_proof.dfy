/**
 * `generateProofs` of merkletree-tool/src/create-proof.js: one leaf per
 * address, the sorted-pair tree over the leaves in input order, and the
 * bundle {merkleRoot, proofs: [{address, proof}]}. Hashes stay byte
 * sequences; their hex rendering in the JSON output is not modelled.
 */
module CreateProof {

  import opened AddressCodec
  import opened MerkleTree

  /** One `{address, proof}` entry of the output. */
  datatype ProofEntry = ProofEntry(address: string, proof: seq<Bytes>)

  /** The written bundle `{merkleRoot, proofs}`. */
  datatype ProofSet = ProofSet(merkleRoot: Bytes, proofs: seq<ProofEntry>)

  /** `list.map(addr => keccak256(Buffer.from(addr.replace("0x", ""), "hex")))`. */
  function LeafNodes(hash: Hasher, list: seq<string>): (leaves: Level)
    ensures |leaves| == |list|
  {
    seq(|list|, i requires 0 <= i < |list| => hash(LeafInput(list[i])))
  }

  /**
   * `generateProofs`: the root of the tree over the leaves, and one entry per
   * input address, in input order, with the address copied verbatim.
   */
  function GenerateProofs(hash: Hasher, list: seq<string>): (r: ProofSet)
    ensures |r.proofs| == |list|
    ensures forall i :: 0 <= i < |list| ==> r.proofs[i].address == list[i]
  {
    var leaves := LeafNodes(hash, list);
    var tree := Build(hash, leaves);
    ProofSet(GetRoot(tree),
      seq(|list|, i requires 0 <= i < |list| => ProofEntry(list[i], GetProof(tree, leaves[i]))))
  }

  /** A canonical address: "0x" followed by 40 hex digits of either case. */
  predicate IsAddress(s: string) {
    |s| == 42 && s[..2] == "0x" && IsHexString(s[2..])
  }

  /**
   * For well-formed addresses, leaf i is the hash of the 20 bytes spelled by
   * the 40 digits of address i, and it does not depend on their case.
   */
  lemma LeafNodesOfAddresses(hash: Hasher, list: seq<string>, i: nat)
    requires i < |list| && IsAddress(list[i])
    ensures var d := list[i][2..];
      |HexDecode(d)| == 20 &&
      LeafNodes(hash, list)[i] == hash(HexDecode(d)) &&
      LeafNodes(hash, list)[i] == LeafNodes(hash, ["0x" + ToLowerString(d)])[0]
  {
    var d := list[i][2..];
    assert list[i] == "0x" + d;
    AddressLeafInput(d);
  }

  /** The proof emitted for address i is the tree's proof for the last position holding leaf i. */
  lemma {:induction false} EntryProofPosition(hash: Hasher, list: seq<string>, i: nat)
    requires i < |list|
    ensures var leaves := LeafNodes(hash, list);
      var j := LastIndexOf(leaves, leaves[i]);
      i <= j && leaves[j] == leaves[i] &&
      GenerateProofs(hash, list).proofs[i].proof == LevelProof(Levels(hash, leaves), j)
  {
  }

  /**
   * Every generated proof verifies: folding proof i into leaf i with the
   * sorted-pair combination gives the generated root.
   */
  lemma GeneratedProofsVerify(hash: Hasher, list: seq<string>, i: nat)
    requires i < |list|
    ensures var out := GenerateProofs(hash, list);
      Verify(hash, out.proofs[i].proof, out.merkleRoot, LeafNodes(hash, list)[i])
  {
    var leaves := LeafNodes(hash, list);
    EntryProofPosition(hash, list, i);
    LevelProofVerifies(hash, leaves, LastIndexOf(leaves, leaves[i]));
  }

  /** A proof has at most as many elements as there are levels above the leaves. */
  lemma ProofLengthBound(hash: Hasher, list: seq<string>, i: nat)
    requires i < |list|
    ensures |GenerateProofs(hash, list).proofs[i].proof| <= |Levels(hash, LeafNodes(hash, list))| - 1
  {
    var leaves := LeafNodes(hash, list);
    EntryProofPosition(hash, list, i);
    LevelProofLength(hash, leaves, LastIndexOf(leaves, leaves[i]));
  }

  /** When no later address has the same leaf, its proof is the one for its own position. */
  lemma OwnPositionProof(hash: Hasher, list: seq<string>, i: nat)
    requires i < |list|
    requires forall j :: i < j < |list| ==> LeafNodes(hash, list)[j] != LeafNodes(hash, list)[i]
    ensures GenerateProofs(hash, list).proofs[i].proof == LevelProof(Levels(hash, LeafNodes(hash, list)), i)
  {
    EntryProofPosition(hash, list, i);
  }

  /** A repeated address is not deduplicated: every copy gets the proof of the last copy. */
  lemma DuplicatesShareProof(hash: Hasher, list: seq<string>, i: nat, j: nat)
    requires i < j < |list| && list[i] == list[j]
    ensures var out := GenerateProofs(hash, list);
      out.proofs[i].proof == out.proofs[j].proof
  {
  }

  /** A one-address list: the root is that address's leaf and its proof is empty. */
  lemma SingleAddress(hash: Hasher, a: string)
    ensures GenerateProofs(hash, [a]) == ProofSet(hash(LeafInput(a)), [ProofEntry(a, [])])
  {
    var leaves := LeafNodes(hash, [a]);
    var levels := Levels(hash, leaves);
    assert levels == [leaves];
    assert LevelProof(levels, 0) == [] + LevelProof([], 0);
  }

  /** The levels and per-position proofs of a two-leaf tree. */
  lemma TwoLeafTree(hash: Hasher, h0: Bytes, h1: Bytes)
    ensures var levels := Levels(hash, [h0, h1]);
      levels == [[h0, h1], [Combine(hash, h0, h1)]] &&
      LevelProof(levels, 0) == [h1] && LevelProof(levels, 1) == [h0]
  {
    var top := NextLevel(hash, [h0, h1]);
    assert top == [Combine(hash, h0, h1)] + NextLevel(hash, []);
    assert top == [Combine(hash, h0, h1)];
    assert Levels(hash, top) == [top];
    var levels := Levels(hash, [h0, h1]);
    assert levels == [[h0, h1]] + Levels(hash, top);
    assert LevelProof([top], 0) == [] + LevelProof([], 0);
    assert LevelProof(levels, 0) == [h1] + LevelProof([top], 0);
    assert LevelProof(levels, 1) == [h0] + LevelProof([top], 0);
  }

  /** In a two-leaf tree, the root and the proof that `getProof` finds for each leaf. */
  lemma TwoLeafLookup(hash: Hasher, h0: Bytes, h1: Bytes)
    ensures var tree := Build(hash, [h0, h1]);
      GetRoot(tree) == Combine(hash, h0, h1) &&
      GetProof(tree, h0) == [h1] && GetProof(tree, h1) == [h0]
  {
    var leaves := [h0, h1];
    TwoLeafTree(hash, h0, h1);
    assert LastIndexOf(leaves, h1) == 1;
    assert LastIndexOf(leaves, h0) == (if h1 == h0 then 1 else 0) by {
      assert leaves[..1] == [h0];
    }
  }

  /** The bundle's root is the root of the tree over the leaves. */
  lemma RootOf(hash: Hasher, list: seq<string>, leaves: Level)
    requires LeafNodes(hash, list) == leaves
    ensures GenerateProofs(hash, list).merkleRoot == GetRoot(Build(hash, leaves))
  {
  }

  /** Entry i of the bundle: address i with the tree's proof for leaf i. */
  lemma EntryAt(hash: Hasher, list: seq<string>, leaves: Level, i: nat)
    requires LeafNodes(hash, list) == leaves && i < |list|
    ensures GenerateProofs(hash, list).proofs[i] == ProofEntry(list[i], GetProof(Build(hash, leaves), leaves[i]))
  {
  }

  /**
   * A two-address list: the root is the hash of the sorted pair of leaves
   * and each address's proof is exactly the other leaf.
   */
  lemma TwoAddresses(hash: Hasher, a: string, b: string)
    ensures var h0, h1 := hash(LeafInput(a)), hash(LeafInput(b));
      var out := GenerateProofs(hash, [a, b]);
      (LexLe(h0, h1) ==> out.merkleRoot == hash(h0 + h1)) &&
      (LexLe(h1, h0) ==> out.merkleRoot == hash(h1 + h0)) &&
      out.proofs == [ProofEntry(a, [h1]), ProofEntry(b, [h0])]
  {
    var h0, h1 := hash(LeafInput(a)), hash(LeafInput(b));
    TwoLeaves(hash, a, b);
    var out := GenerateProofs(hash, [a, b]);
    RootOf(hash, [a, b], [h0, h1]);
    TwoLeafLookup(hash, h0, h1);
    EntryAt(hash, [a, b], [h0, h1], 0);
    EntryAt(hash, [a, b], [h0, h1], 1);
    EntriesOfTwo(out.proofs, ProofEntry(a, [h1]), ProofEntry(b, [h0]));
    CombineSymmetric(hash, h0, h1);
  }

  /** The levels and per-position proofs of a three-leaf tree. */
  lemma ThreeLeafTree(hash: Hasher, h0: Bytes, h1: Bytes, h2: Bytes)
    ensures var p := Combine(hash, h0, h1);
      var levels := Levels(hash, [h0, h1, h2]);
      |levels| == 3 && levels[1] == [p, h2] && levels[2] == [Combine(hash, p, h2)] &&
      LevelProof(levels, 0) == [h1, h2] && LevelProof(levels, 1) == [h0, h2] &&
      LevelProof(levels, 2) == [p]
  {
    var leaves := [h0, h1, h2];
    var p := Combine(hash, h0, h1);
    var mid := NextLevel(hash, leaves);
    assert NextLevel(hash, [h2]) == [h2];
    assert mid == [p] + NextLevel(hash, [h2]);
    assert mid == [p, h2];
    TwoLeafTree(hash, p, h2);
    var upper := Levels(hash, mid);
    var levels := Levels(hash, leaves);
    assert levels == [leaves] + upper;
    assert LevelProof(levels, 0) == [h1] + LevelProof(upper, 0);
    assert LevelProof(levels, 1) == [h0] + LevelProof(upper, 0);
    assert LevelProof(levels, 2) == [] + LevelProof(upper, 1);
  }

  /** `getProof`'s lookup in three distinct leaves finds each leaf at its own position. */
  lemma ThreeLeafPositions(h0: Bytes, h1: Bytes, h2: Bytes)
    requires h0 != h1 && h0 != h2 && h1 != h2
    ensures LastIndexOf([h0, h1, h2], h0) == 0
    ensures LastIndexOf([h0, h1, h2], h1) == 1
    ensures LastIndexOf([h0, h1, h2], h2) == 2
  {
    assert [h0, h1, h2][..2] == [h0, h1];
    assert [h0, h1][..1] == [h0];
    assert LastIndexOf([h0], h0) == 0;
    assert LastIndexOf([h0, h1], h0) == 0;
    assert LastIndexOf([h0, h1], h1) == 1;
  }

  /** In a three-leaf tree with distinct leaves, the root and the proof found for each leaf. */
  lemma ThreeLeafLookup(hash: Hasher, h0: Bytes, h1: Bytes, h2: Bytes)
    requires h0 != h1 && h0 != h2 && h1 != h2
    ensures var tree := Build(hash, [h0, h1, h2]);
      var p := Combine(hash, h0, h1);
      GetRoot(tree) == Combine(hash, p, h2) &&
      GetProof(tree, h0) == [h1, h2] && GetProof(tree, h1) == [h0, h2] && GetProof(tree, h2) == [p]
  {
    var leaves := [h0, h1, h2];
    var tree := Build(hash, leaves);
    var levels := tree.levels;
    assert levels == Levels(hash, leaves);
    ThreeLeafTree(hash, h0, h1, h2);
    ThreeLeafPositions(h0, h1, h2);
    assert GetRoot(tree) == levels[2][0];
    assert GetProof(tree, h0) == LevelProof(levels, 0);
    assert GetProof(tree, h1) == LevelProof(levels, 1);
    assert GetProof(tree, h2) == LevelProof(levels, 2);
  }

  lemma EntriesOfTwo(s: seq<ProofEntry>, x: ProofEntry, y: ProofEntry)
    requires |s| == 2 && s[0] == x && s[1] == y
    ensures s == [x, y]
  {
  }

  lemma EntriesOfThree(s: seq<ProofEntry>, x: ProofEntry, y: ProofEntry, z: ProofEntry)
    requires |s| == 3 && s[0] == x && s[1] == y && s[2] == z
    ensures s == [x, y, z]
  {
  }

  /** The leaves of a two-address list. */
  lemma TwoLeaves(hash: Hasher, a: string, b: string)
    ensures LeafNodes(hash, [a, b]) == [hash(LeafInput(a)), hash(LeafInput(b))]
  {
    var leaves := LeafNodes(hash, [a, b]);
    assert leaves[0] == hash(LeafInput(a));
    assert leaves[1] == hash(LeafInput(b));
  }

  /** The leaves of a three-address list. */
  lemma ThreeLeaves(hash: Hasher, a: string, b: string, c: string)
    ensures LeafNodes(hash, [a, b, c]) == [hash(LeafInput(a)), hash(LeafInput(b)), hash(LeafInput(c))]
  {
    var leaves := LeafNodes(hash, [a, b, c]);
    assert leaves[0] == hash(LeafInput(a));
    assert leaves[1] == hash(LeafInput(b));
    assert leaves[2] == hash(LeafInput(c));
  }

  /**
   * A three-address list with distinct leaves: the third leaf is carried up
   * unpaired, so its proof has one element, while the first two have two.
   */
  lemma ThreeAddresses(hash: Hasher, a: string, b: string, c: string)
    requires var h0, h1, h2 := hash(LeafInput(a)), hash(LeafInput(b)), hash(LeafInput(c));
      h0 != h1 && h0 != h2 && h1 != h2
    ensures var h0, h1, h2 := hash(LeafInput(a)), hash(LeafInput(b)), hash(LeafInput(c));
      var out := GenerateProofs(hash, [a, b, c]);
      var p := Combine(hash, h0, h1);
      out.merkleRoot == Combine(hash, p, h2) &&
      out.proofs == [ProofEntry(a, [h1, h2]), ProofEntry(b, [h0, h2]), ProofEntry(c, [p])]
  {
    var h0, h1, h2 := hash(LeafInput(a)), hash(LeafInput(b)), hash(LeafInput(c));
    ThreeLeaves(hash, a, b, c);
    var out := GenerateProofs(hash, [a, b, c]);
    RootOf(hash, [a, b, c], [h0, h1, h2]);
    ThreeLeafLookup(hash, h0, h1, h2);
    EntryAt(hash, [a, b, c], [h0, h1, h2], 0);
    EntryAt(hash, [a, b, c], [h0, h1, h2], 1);
    EntryAt(hash, [a, b, c], [h0, h1, h2], 2);
    EntriesOfThree(out.proofs, ProofEntry(a, [h1, h2]), ProofEntry(b, [h0, h2]), ProofEntry(c, [Combine(hash, h0, h1)]));
  }

  /** An empty list gives no root bytes and no entries (no error is raised). */
  lemma EmptyList(hash: Hasher)
    ensures GenerateProofs(hash, []) == ProofSet([], [])
  {
  }
}
