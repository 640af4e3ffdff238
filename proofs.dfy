/**
 * app/src/helpers/proofs.ts: the front end's lookup of an account's proof in
 * one of the five bundled proof files. The five JSON files it imports are a
 * parameter here (`Bundled`), since their contents are generated data.
 */
module Proofs {

  import opened Wrappers

  /** The template-literal type `0x${string}` of app/src/helpers/types.ts. */
  type Hex = s: string | |s| >= 2 && s[0] == '0' && s[1] == 'x' witness "0x"

  /** `Proof` of app/src/helpers/types.ts: one address and its proof. */
  datatype Proof = Proof(address: Hex, proof: seq<Hex>)

  /** `ProofList` of app/src/helpers/types.ts: a whole generated bundle. */
  datatype ProofList = ProofList(merkleRoot: Hex, proofs: seq<Proof>)

  /** The five imported proof files. */
  datatype Bundled = Bundled(
    nftFreelist: ProofList,
    nftWhitelist: ProofList,
    tokenAirdrop: ProofList,
    tokenSeedsale: ProofList,
    tokenPresale: ProofList)

  /** The list names that `getProofs` recognises. */
  const KnownLists: set<string> :=
    {"nft-freelist", "nft-whitelist", "token-airdrop", "token-seedsale", "token-presale"}

  /** `getProofs`: the bundle for a list name, or null for any other name. */
  function GetProofs(files: Bundled, listName: string): (r: Option<ProofList>)
    ensures r.Some? <==> listName in KnownLists
    ensures listName == "nft-freelist" ==> r == Some(files.nftFreelist)
    ensures listName == "nft-whitelist" ==> r == Some(files.nftWhitelist)
    ensures listName == "token-airdrop" ==> r == Some(files.tokenAirdrop)
    ensures listName == "token-seedsale" ==> r == Some(files.tokenSeedsale)
    ensures listName == "token-presale" ==> r == Some(files.tokenPresale)
  {
    match listName
    case "nft-freelist" => Some(files.nftFreelist)
    case "nft-whitelist" => Some(files.nftWhitelist)
    case "token-airdrop" => Some(files.tokenAirdrop)
    case "token-seedsale" => Some(files.tokenSeedsale)
    case "token-presale" => Some(files.tokenPresale)
    case _ => None
  }

  /** Entry k is the first entry whose address is string-equal to `address`. */
  predicate FirstMatch(entries: seq<Proof>, address: Hex, k: int) {
    0 <= k < |entries| && entries[k].address == address &&
    forall j :: 0 <= j < k ==> entries[j].address != address
  }

  /**
   * `Array.find` with `proof.address === address`: the first entry whose
   * address is string-equal to the query, or nothing.
   */
  function Find(entries: seq<Proof>, address: Hex): (r: Option<Proof>)
    ensures r.None? <==> forall k :: 0 <= k < |entries| ==> entries[k].address != address
    ensures r.Some? ==> exists k :: FirstMatch(entries, address, k) && entries[k] == r.value
  {
    if entries == [] then None
    else if entries[0].address == address then Some(entries[0])
    else
      var r := Find(entries[1..], address);
      assert forall k :: 1 <= k < |entries| ==> entries[k] == entries[1..][k - 1];
      r
  }

  /** `checkProof`: the proof of the address in the named list, or [] when there is none. */
  function CheckProof(files: Bundled, listName: string, address: Hex): (r: seq<Hex>)
    ensures r == [] ||
      (listName in KnownLists &&
       exists k :: 0 <= k < |GetProofs(files, listName).value.proofs| &&
         r == GetProofs(files, listName).value.proofs[k].proof)
  {
    match GetProofs(files, listName)
    case None => []
    case Some(list) =>
      match Find(list.proofs, address)
      case Some(entry) => entry.proof
      case None => []
  }

  /** An unknown list name gives the empty proof. */
  lemma UnknownListGivesEmpty(files: Bundled, listName: string, address: Hex)
    requires listName !in KnownLists
    ensures CheckProof(files, listName, address) == []
  {
  }

  /** A listed address gets the proof of the first entry with exactly that address. */
  lemma {:induction false} FirstMatchWins(files: Bundled, listName: string, address: Hex, k: nat)
    requires listName in KnownLists
    requires FirstMatch(GetProofs(files, listName).value.proofs, address, k)
    ensures CheckProof(files, listName, address) == GetProofs(files, listName).value.proofs[k].proof
  {
    var entries := GetProofs(files, listName).value.proofs;
    var r := Find(entries, address);
    var k' :| FirstMatch(entries, address, k') && entries[k'] == r.value;
    assert k' == k;
  }

  /** An address with no string-equal entry gets the empty proof. */
  lemma UnlistedGivesEmpty(files: Bundled, listName: string, address: Hex)
    requires listName in KnownLists
    requires forall k :: 0 <= k < |GetProofs(files, listName).value.proofs| ==>
      GetProofs(files, listName).value.proofs[k].address != address
    ensures CheckProof(files, listName, address) == []
  {
  }

  /** The list's root plays no part in the lookup. */
  lemma RootPlaysNoPart(files: Bundled, listName: string, address: Hex, root: Hex)
    ensures var reroot := Bundled(
        files.nftFreelist.(merkleRoot := root), files.nftWhitelist.(merkleRoot := root),
        files.tokenAirdrop.(merkleRoot := root), files.tokenSeedsale.(merkleRoot := root),
        files.tokenPresale.(merkleRoot := root));
      CheckProof(reroot, listName, address) == CheckProof(files, listName, address)
  {
  }

  /**
   * Matching is by string equality: in a list whose one entry is for `a`,
   * every other spelling `b` gets the empty proof, even one that differs
   * from `a` only in letter case and so names the same account.
   */
  lemma MatchIsCaseSensitive(files: Bundled, listName: string, a: Hex, b: Hex, p: seq<Hex>)
    requires listName in KnownLists
    requires GetProofs(files, listName).value.proofs == [Proof(a, p)]
    requires a != b
    ensures CheckProof(files, listName, b) == []
    ensures CheckProof(files, listName, a) == p
  {
  }
}
