# Merkle allowlist proofs and front-end helpers, in Dafny

This project models the logic of an NFT-mint / token-sale dApp that gates
free mints, whitelist mints, airdrops and pre-sales with Merkle allowlists:

- `merkletree-tool/src/create-proof.js`, `generateProofs`: each `0x` address is
  decoded to bytes and hashed into a leaf. A Merkle tree with sorted pairs is
  built over the leaves in input order. The bundle `{merkleRoot, proofs:
  [{address, proof}]}` is emitted (modules `AddressCodec`, `MerkleTree`,
  `CreateProof`). The tree, root and proof walk of the `merkletreejs` library
  with `sortPairs: true` are written out. So is the verifier that folds a
  proof with the same sorted-pair rule (OpenZeppelin's `MerkleProof.verify`).
- `app/src/helpers/proofs.ts`: `getProofs` selects one of the five bundled
  proof files by list name. `checkProof` looks up an address by exact string
  match, with `[]` as the fallback (module `Proofs`).
- `app/src/helpers/calculeteTime.ts`: `formatTimeDiff` splits the time until a
  timestamp into days, hours and minutes, or returns `"Complated"` (module
  `CalculeteTime`).
- `app/src/helpers/createMulticall.ts`: `createMulticall` builds one call
  record per function name, in order (module `CreateMulticall`).

keccak256 is a parameter `hash: Bytes -> Bytes`, and nothing is assumed
about it. The clock read `Date.now()` is the parameter `nowMillis`. The five
JSON proof files that `proofs.ts` imports are the parameter `Bundled`.

The central theorem is `CreateProof.GeneratedProofsVerify`. For every list
and every index i, folding the emitted proof i into leaf i with the
sorted-pair combination gives the emitted root. It holds for every hash
function, duplicate addresses included.

The code behaves as follows where a reader might expect otherwise:

- Address decoding never fails. `addr.replace("0x", "")` removes the first
  `"0x"` anywhere in the string. Node's hex decoder stops silently at the
  first non-hex pair. A malformed address is hashed from whatever prefix
  decodes; no invalid-address error is raised. An address spelled with `0X`
  keeps its prefix and is hashed from no bytes at all
  (`AddressCodec.UpperCasePrefixDecodesEmpty`).
- An empty list gives an empty root and no entries, not an error
  (`CreateProof.EmptyList`).
- Duplicates are not removed. `getProof(leaf)` searches all leaves and keeps
  the last equal one, so every copy of a repeated address gets the proof of
  its last copy (`CreateProof.DuplicatesShareProof`). That proof still
  verifies.
- The root depends on input order. Sorting makes each pair combination
  symmetric, but which nodes are paired depends on their positions.

## Model

| member | source | states |
|---|---|---|
| `AddressCodec.IndexOf0x` | merkletree-tool/src/create-proof.js:35 | the result is -1 or an occurrence of "0x" at or after the start, and no earlier position holds one |
| `AddressCodec.Strip0x` | merkletree-tool/src/create-proof.js:35 | `replace("0x", "")` removes exactly the first occurrence of "0x" (two characters shorter), or leaves the string unchanged when there is none |
| `AddressCodec.Strip0xPrefixed` | merkletree-tool/src/create-proof.js:35 | on a `0x`-prefixed string only the prefix is removed |
| `AddressCodec.HexDecode` | merkletree-tool/src/create-proof.js:35 | `Buffer.from(s, "hex")` yields at most one byte per two characters; `DecodeAt` and `DecodeStops` say which bytes |
| `AddressCodec.DecodeAt` | merkletree-tool/src/create-proof.js:35 | byte i of `Buffer.from(s, "hex")` is the value of hex digits 2i and 2i+1, and both are hex digits |
| `AddressCodec.DecodeStops` | merkletree-tool/src/create-proof.js:35 | decoding stops only at the end of the string or at the first pair holding a non-hex character |
| `AddressCodec.DecodeEncode` | merkletree-tool/src/create-proof.js:35 | decoding the lower-case hex rendering of any bytes gives back those bytes |
| `AddressCodec.DecodeLength` | merkletree-tool/src/create-proof.js:35 | a string of hex digits decodes to half its length in bytes |
| `AddressCodec.DecodeIgnoresCase` | merkletree-tool/src/create-proof.js:35 | lower-casing a string never changes its decoding |
| `AddressCodec.AddressLeafInput` | merkletree-tool/src/create-proof.js:35 | a `0x` address of 40 hex digits is hashed from exactly the 20 bytes its digits spell, the same for either case of the digits |
| `AddressCodec.UpperCasePrefixDecodesEmpty` | merkletree-tool/src/create-proof.js:35 | an address written `0X…` keeps its prefix and is hashed from the empty byte string |
| `AddressCodec.LeafInput` | merkletree-tool/src/create-proof.js:35 | the bytes hashed into a leaf are at most half as many as the address has characters; `AddressLeafInput` gives them exactly for a canonical address |
| `MerkleTree.LexLeTotal` | merkletree-tool/src/create-proof.js:39 | `Buffer.compare` order is total: of any two byte strings one is at most the other |
| `MerkleTree.LexLeAntisymmetric` | merkletree-tool/src/create-proof.js:39 | two byte strings that are each at most the other are equal |
| `MerkleTree.Combine` | merkletree-tool/src/create-proof.js:38-40 | the `sortPairs` combination hashes the two nodes with the `Buffer.compare`-smaller one first |
| `MerkleTree.CombineSymmetric` | merkletree-tool/src/create-proof.js:38-40 | the sorted-pair combination does not depend on left/right position and is the hash of min ‖ max |
| `MerkleTree.NextLevel` | merkletree-tool/src/create-proof.js:38-40 | one round of building halves the node count, rounding up; `NextLevelAt` gives each node |
| `MerkleTree.NextLevelAt` | merkletree-tool/src/create-proof.js:38-40 | node j of the next level combines the complete pair 2j, 2j+1, or is the odd trailing node 2j carried up unchanged |
| `MerkleTree.Levels` | merkletree-tool/src/create-proof.js:38-40 | level 0 is the leaves in input order, and the top level has exactly one node for a non-empty list (none for an empty one) |
| `MerkleTree.LevelsChain` | merkletree-tool/src/create-proof.js:38-40 | each level above the leaves is the pairing of the level below, which had more than one node |
| `MerkleTree.Build` | merkletree-tool/src/create-proof.js:38-40 | the tree keeps the leaves as level 0, and its top level is exactly `[getRoot()]`, or empty for no leaves |
| `MerkleTree.LevelProof` | merkletree-tool/src/create-proof.js:44 | the sibling walk collects at most one node per level |
| `MerkleTree.LastIndexOf` | merkletree-tool/src/create-proof.js:44 | the leaf lookup of `getProof` finds the last position holding the leaf, or -1 when absent |
| `MerkleTree.GetProof` | merkletree-tool/src/create-proof.js:44 | `getProof` returns at most one node per level, and `[]` for a leaf that is not in the tree |
| `MerkleTree.ProcessProofAppend` | merkletree-tool/src/create-proof.js:38-52 | folding a proof into a leaf splits over concatenation: the first part is folded, then the second |
| `MerkleTree.StepToParent` | merkletree-tool/src/create-proof.js:38-44 | combining a node with its sibling, or carrying a node with no sibling, gives its parent at position i/2 in the next level |
| `MerkleTree.LevelProofVerifies` | merkletree-tool/src/create-proof.js:38-44 | folding the sibling proof of any position into its node gives the tree's root |
| `MerkleTree.LevelProofLength` | merkletree-tool/src/create-proof.js:44 | a proof has at most one element per level above the leaves |
| `MerkleTree.LevelsHeight` | merkletree-tool/src/create-proof.js:38-40 | for n leaves the number of levels above them is the least k with n ≤ 2^k |
| `CreateProof.LeafNodes` | merkletree-tool/src/create-proof.js:33-37 | one leaf per input address |
| `CreateProof.GenerateProofs` | merkletree-tool/src/create-proof.js:32-53 | one output entry per input address, in input order, with the address copied verbatim |
| `CreateProof.LeafNodesOfAddresses` | merkletree-tool/src/create-proof.js:33-37 | leaf i is the hash of the 20 bytes spelled by address i, whichever case its digits use |
| `CreateProof.EntryProofPosition` | merkletree-tool/src/create-proof.js:42-45 | entry i holds the tree's proof for the last position whose leaf equals leaf i |
| `CreateProof.GeneratedProofsVerify` | merkletree-tool/src/create-proof.js:38-52 | every emitted proof, folded into its address's leaf, gives the emitted `merkleRoot` |
| `CreateProof.ProofLengthBound` | merkletree-tool/src/create-proof.js:38-44 | an emitted proof has at most as many elements as there are levels above the leaves |
| `CreateProof.OwnPositionProof` | merkletree-tool/src/create-proof.js:42-45 | an address whose leaf is not repeated later gets the proof for its own position |
| `CreateProof.DuplicatesShareProof` | merkletree-tool/src/create-proof.js:42-45 | a repeated address is not deduplicated, and all its copies get the same proof |
| `CreateProof.SingleAddress` | merkletree-tool/src/create-proof.js:38-44 | a one-address list has that address's leaf as root and an empty proof |
| `CreateProof.TwoLeafTree` | merkletree-tool/src/create-proof.js:38-44 | a two-leaf tree has one pair level above the leaves, and each position's proof is the other leaf |
| `CreateProof.TwoLeafLookup` | merkletree-tool/src/create-proof.js:38-44 | in a two-leaf tree the root is the pair combination and `getProof` finds the other leaf as each leaf's proof, duplicates included |
| `CreateProof.TwoAddresses` | merkletree-tool/src/create-proof.js:38-44 | a two-address list has root H(min(h0,h1) ‖ max(h0,h1)) and each proof is exactly the other leaf |
| `CreateProof.ThreeLeafTree` | merkletree-tool/src/create-proof.js:38-44 | a three-leaf tree carries the third leaf up unpaired; proofs are [h1,h2], [h0,h2] and [H(h0,h1)] |
| `CreateProof.ThreeLeafLookup` | merkletree-tool/src/create-proof.js:38-44 | in a three-leaf tree with distinct leaves the root is H(H(h0,h1), h2) and `getProof` finds [h1,h2], [h0,h2] and [H(h0,h1)] |
| `CreateProof.ThreeAddresses` | merkletree-tool/src/create-proof.js:38-44 | with three distinct leaves the first two proofs have two elements and the third has one, and the root is H(H(h0,h1), h2) |
| `CreateProof.EmptyList` | merkletree-tool/src/create-proof.js:38-45 | an empty list gives an empty root and no entries |
| `Proofs.GetProofs` | app/src/helpers/proofs.ts:10-25 | each of the five known list names selects its own bundle, and any other name selects none |
| `Proofs.Find` | app/src/helpers/proofs.ts:30-32 | the result is the first entry whose address is string-equal to the query, and is absent exactly when no entry matches |
| `Proofs.CheckProof` | app/src/helpers/proofs.ts:27-40 | the result is `[]` or, for a known list name, a proof stored verbatim in that list |
| `Proofs.UnknownListGivesEmpty` | app/src/helpers/proofs.ts:27-28 | an unknown list name makes `checkProof` return `[]` |
| `Proofs.FirstMatchWins` | app/src/helpers/proofs.ts:30-35 | when entry k is the first exact match, the result is entry k's proof |
| `Proofs.UnlistedGivesEmpty` | app/src/helpers/proofs.ts:36 | when no entry's address equals the query, the result is `[]` |
| `Proofs.RootPlaysNoPart` | app/src/helpers/proofs.ts:27-40 | replacing the lists' `merkleRoot` values never changes the result |
| `Proofs.MatchIsCaseSensitive` | app/src/helpers/proofs.ts:30-36 | in any known list whose one entry is for address a, every other spelling b, even a differently-cased one, gets `[]`, and a gets its proof |
| `CalculeteTime.TruncDiv` | app/src/helpers/calculeteTime.ts:6-7 | the quotient behind JavaScript's `%` has the sign of the dividend |
| `CalculeteTime.TruncRem` | app/src/helpers/calculeteTime.ts:6-7 | JavaScript's `%`: the remainder is below the divisor in size, has the sign of the dividend, and completes the truncated division |
| `CalculeteTime.Diff` | app/src/helpers/calculeteTime.ts:2-3 | the clock second subtracted is the floor of the millisecond reading divided by 1000 |
| `CalculeteTime.Parts` | app/src/helpers/calculeteTime.ts:5-7 | hours lie in −24..23 and minutes in −60..59: the floored division of a negative remainder can reach −24 and −60 |
| `CalculeteTime.DaysIsFloor` | app/src/helpers/calculeteTime.ts:2-5 | the day count d satisfies d·86400 ≤ diff < (d+1)·86400 |
| `CalculeteTime.AheadBreakdown` | app/src/helpers/calculeteTime.ts:5-7 | for diff ≥ 0: 0 ≤ hours < 24, 0 ≤ minutes < 60, and days·86400 + hours·3600 + minutes·60 ≤ diff < that + 60 |
| `CalculeteTime.AheadIsNotCompleted` | app/src/helpers/calculeteTime.ts:9-12 | for diff ≥ 0 the text is the "d h m" rendering, never "Complated" |
| `CalculeteTime.MinutesNegativeExactly` | app/src/helpers/calculeteTime.ts:7-9 | minutes are negative exactly when diff < 0 and diff is not a multiple of 3600 |
| `CalculeteTime.CompletedExactly` | app/src/helpers/calculeteTime.ts:7-12 | the text is "Complated" exactly when diff < 0 and diff is not a multiple of 3600 |
| `CalculeteTime.OneHourAgo` | app/src/helpers/calculeteTime.ts:5-12 | for every timestamp and clock reading whose difference is −3600 s, the parts are days −1, hours −1, minutes 0 and the text "-1 d -1 h 0 m" |
| `CalculeteTime.FormatTimeDiff` | app/src/helpers/calculeteTime.ts:9-13 | the text is "Complated" exactly when the minute component is negative |
| `CalculeteTime.IntToString` | app/src/helpers/calculeteTime.ts:12 | `${n}` is non-empty, starts with "-" exactly for negative n, and is decimal digits after the sign |
| `CalculeteTime.Render` | app/src/helpers/calculeteTime.ts:12 | the rendered text ends in " m", so it can never be "Complated" |
| `CalculeteTime.NatToStringValue` | app/src/helpers/calculeteTime.ts:12 | reading back the decimal rendering of a natural number gives that number |
| `CalculeteTime.IntToStringValue` | app/src/helpers/calculeteTime.ts:12 | reading back the rendering of an integer, sign included, gives that integer |
| `CalculeteTime.IntToStringInjective` | app/src/helpers/calculeteTime.ts:12 | different integers render as different text |
| `CalculeteTime.RenderReadBack` | app/src/helpers/calculeteTime.ts:12 | the "d h m" text determines days, hours and minutes: different breakdowns never render alike |
| `CalculeteTime.CorrectedCompletedExactly` | app/src/helpers/calculeteTime.ts:9-12 | the corrected text is "Complated" exactly for past timestamps, and equals the source's text otherwise |
| `CreateMulticall.CallRecord` | app/src/helpers/createMulticall.ts:4-7 | a record has every property of `contractParams` unchanged except `functionName`, which is set to the name |
| `CreateMulticall.CreateMulticall` | app/src/helpers/createMulticall.ts:1-10 | one record per name in order: element i names params[i] and carries all other contract properties; an empty list gives an empty result |

## Left out

- The file and directory I/O of create-proof.js (`checkFilesExistence`, `readJsonFile`, `fs.writeFile`, `main`, `process.exit`) and the `Promise.all` fan-out over the five lists: plumbing and concurrency, not logic.
- keccak256 itself: the hash is a parameter. Claims that a tampered proof fails need collision resistance and are not stated.
- The hex and JSON rendering of the output (`getHexRoot`, `getHexProof`, `JSON.stringify`): roots and proofs stay byte sequences in `CreateProof`, and hex strings in `Proofs`.
- `merkletreejs` is an npm dependency of the tool, not part of the repository; its tree building, `getRoot` and `getProof` with `sortPairs: true` and default options are written out in `MerkleTree` as that library defines them.
- Order independence of the root under a permutation of the list: the code does not have it, so it is not claimed.
- The React pages and components, the viem clients (`app/src/helpers/clients.ts`) and the floating-point price display: UI, wallet and network code.
- `formatTimeDiff` takes `timestamp: number`. The model uses integers, because the pages pass whole seconds read from the contract.
- CreateMulticall.CreateMulticall: JavaScript object identity is not modelled. Records are values, so "each element is a fresh copy and `contractParams` is unchanged" holds by construction and is not a separate claim.

## Findings

| source | as written | input that shows it | evidently intended | confidence | as-written member | corrected member |
|---|---|---|---|---|---|---|
| app/src/helpers/calculeteTime.ts:7-10 | "Complated" is chosen by `minutes < 0`, and JavaScript's `%` gives remainder 0 for a negative whole number of hours | a timestamp exactly one hour in the past (diff = −3600) renders "-1 d -1 h 0 m" | every past timestamp renders "Complated" | medium, not executed | `CalculeteTime.OneHourAgo` | `CalculeteTime.CorrectedCompletedExactly` |
