# Battle oracle settlement, modelled in Dafny

This project models the settlement core of the zerion-api battle oracle.
It covers:

- how a battle is settled: the wallet snapshots, the ranking and the winner;
- how betting payouts are split;
- the Merkle commitment to the payout table, and its proofs;
- the server-side checks around settlement and proof requests;
- the de-duplication and ordering of the top-tokens list.

Modules:

- `Wrappers`: `Option` and `Result`.
- `Encoding`: what the code relies on from Node.js `Buffer` and JavaScript strings.
  - UTF-8 encoding.
  - Decimal text of an amount and its left zero-padding.
  - Lower-case hex and its decoding.
  - The byte order of `Buffer.compare`.
- `Sorting`: the stable descending sort the code uses through `Array.prototype.sort` with a `b.key - a.key` comparator.
  - `SortDesc` is a functional specification.
  - `SortInPlace` is an in-place insertion sort on an array, proved to compute it.
- `MerkleTree`: the tree the code builds with `merkletreejs` and `sortPairs: true`.
  - Leaves are used as given.
  - Adjacent nodes are paired level by level.
  - A parent is the hash of its two children, concatenated smaller-first.
  - A lone node at the end of an odd level is promoted unchanged.
  - `getProof` returns the sibling path of the last matching leaf, or nothing.
  - The Keccak-256 function is a parameter `h` of every operation: any function from bytes to 32-byte digests.
- `Merkle`: `zerion-api/src/merkle.ts`.
  - The leaf hash.
  - The leaf table and tree of a battle result.
  - Proofs as hex strings.
  - The winner of a list of snapshots.
  - The betting payouts.
- `Oracle`: `settleBattle` from `zerion-api/src/oracle.ts`, as a method.
  - It loops over the players collecting snapshots.
  - It copies them into an array and sorts that array in place.
  - A loop writes the ranks.
  - The winner, payouts, commitment and settlement record come from the functions above.
  - Fetching a wallet snapshot and uploading the record are function parameters. The upload can be rejected, and settlement then fails.
- `Server`: request-level logic of `zerion-api/src/server.ts`.
  - Settle-request validation.
  - The proof handler: leaf lookup, 400/404 cases, and response.
  - The `reduce` that keeps one token per upper-cased symbol, written as a method with a loop over a dictionary, followed by the in-place sort.

Where the code and the documented intent of the system disagree, the model follows the code:

- The root is not independent of the order of the payouts. Only sibling pairs are sorted; the leaves are not. So reordering `bettingPayouts` can change the root, and no lemma claims otherwise.
- A proof request for an absent leaf never asks the tree for a proof. The handler builds the tree, finds no matching row and answers 404. The tree itself, asked for an absent leaf, returns an empty proof rather than failing (`MerkleTree.GetProof`).
- A Merkle construction over an empty leaf set cannot arise. The leaf table always holds the winner's row (`Merkle.LeafTable`).

## Model

| member | source | states |
|---|---|---|
| `Encoding.Utf8CharRoundTrip` | zerion-api/src/merkle.ts:22 | The 1–4 byte UTF-8 sequence of a character decodes back to its code point. |
| `Encoding.Utf8` | zerion-api/src/merkle.ts:22-23 | `Buffer.from(string)` yields between one and four bytes per character. |
| `Encoding.Utf8Ascii` | zerion-api/src/merkle.ts:23 | An ASCII string encodes to one byte per character, equal to the character's code. |
| `Encoding.Utf8AsciiInjective` | zerion-api/src/merkle.ts:23 | Two ASCII strings with the same bytes are equal. |
| `Encoding.Decimal` | zerion-api/src/merkle.ts:23 | `amount.toString()` is a non-empty ASCII digit string with no leading zero, unless it is "0". |
| `Encoding.DecimalRoundTrip` | zerion-api/src/merkle.ts:23 | The decimal text of `n` reads back as `n`. |
| `Encoding.PadStart` | zerion-api/src/merkle.ts:23 | `padStart` gives length max(width, length). The original string is the suffix, the added prefix is all fill characters, and a longer string is not truncated. |
| `Encoding.PaddedDecimalRoundTrip` | zerion-api/src/merkle.ts:23 | The zero-padded decimal text still reads back as the amount. |
| `Encoding.Hex` | zerion-api/src/merkle.ts:52 | `toString('hex')` gives two lower-case hex digits per byte: no character is in `A`..`F`. |
| `Encoding.UnhexHex` | zerion-api/src/merkle.ts:52 | Decoding the hex text of bytes gives the bytes back. |
| `Encoding.LexTotal` | zerion-api/src/merkle.ts:49 | `Buffer.compare` orders any two byte strings. |
| `Encoding.LexAntisymmetric` | zerion-api/src/merkle.ts:49 | Byte strings ordered both ways are equal. |
| `Sorting.SortDescPermutation` | zerion-api/src/oracle.ts:118 | The descending sort returns a permutation of its input. |
| `Sorting.SortDescSorted` | zerion-api/src/oracle.ts:118 | The sort's result is non-increasing in the key. |
| `Sorting.SortDescStable` | zerion-api/src/oracle.ts:118 | For each key value, the elements with that key appear in their input order (stability). |
| `Sorting.FirstMaxIndex` | zerion-api/src/merkle.ts:65-66 | Returns the earliest position holding a largest key. |
| `Sorting.FirstMaxUnique` | zerion-api/src/merkle.ts:65-66 | That position is unique. |
| `Sorting.SortDescHead` | zerion-api/src/merkle.ts:65-66 | The first element of the stable sort is the earliest element with a largest key. |
| `Sorting.SortedHead` | zerion-api/src/merkle.ts:65-66 | Sorting an already sorted list keeps its first element first. |
| `Sorting.InsertAt` | zerion-api/src/oracle.ts:118 | One insertion step in the array: the prefix `a[..i+1]` becomes the sorted insertion of `a[i]`, and the rest is unchanged. |
| `Sorting.SortInPlace` | zerion-api/src/oracle.ts:118 | The in-place sort leaves the array holding `SortDesc` of its old contents. |
| `MerkleTree.SortedConcat` | zerion-api/src/merkle.ts:49 | A pair is concatenated smaller first in the `Buffer.compare` order: `a + b` when `a` is at most `b`, otherwise `b + a`. |
| `MerkleTree.SortedConcatSymmetric` | zerion-api/src/merkle.ts:49 | The sorted concatenation does not depend on sibling order. |
| `MerkleTree.HashPairSymmetric` | zerion-api/src/merkle.ts:46-50 | Swapping two siblings never changes their parent. |
| `MerkleTree.NextLevel` | zerion-api/src/merkle.ts:46-50 | The level above n nodes has ceil(n/2) nodes, so it is shorter whenever n > 1. |
| `MerkleTree.Layers` | zerion-api/src/merkle.ts:46-50 | The first layer is the leaves. |
| `MerkleTree.LayersShape` | zerion-api/src/merkle.ts:46-50 | Each layer above the first is the pairing of a layer of more than one node, and the top layer has at most one node. |
| `MerkleTree.Build` | zerion-api/src/merkle.ts:46-50 | The tree keeps its leaves as the first layer. Each further layer pairs the one below it, and the tree stops at a layer of at most one node. |
| `MerkleTree.GetRoot` | zerion-api/src/merkle.ts:52 | The root is the single node of the top layer, and a non-empty root is a node of the top layer. With `Build` (top layer of at most one node) and `RootOfNextLevel` this fixes the root of every tree. |
| `MerkleTree.GetProof` | zerion-api/src/merkle.ts:61 | An absent leaf gets an empty proof. A present leaf gets the sibling path of its last occurrence among the leaves. |
| `MerkleTree.ProofRoot` | zerion-api/src/merkle.ts:61 | The fold behind `verify`: an empty proof leaves the leaf, and any non-empty proof ends in a 32-byte digest. |
| `MerkleTree.ProofRootConcat` | zerion-api/src/merkle.ts:61 | Folding a proof in two parts: the second part continues from the node the first part reaches. |
| `MerkleTree.ProofRootSnoc` | zerion-api/src/merkle.ts:49 | Each proof element is hashed with the current node, and the result does not depend on which side the sibling is on. |
| `MerkleTree.LastIndexOf` | zerion-api/src/merkle.ts:61 | Finds the last position of a leaf, or reports that the leaf is absent. |
| `MerkleTree.RootOfNextLevel` | zerion-api/src/merkle.ts:52 | The root of a tree is the root of the tree over its next level. |
| `MerkleTree.NodeAbove` | zerion-api/src/merkle.ts:46-50 | The node above position i is the pair of i and its sibling, or i itself when promoted. |
| `MerkleTree.PathStep` | zerion-api/src/merkle.ts:61 | Folding the first proof element moves the leaf to its node one level up. |
| `MerkleTree.PathRoundTrip` | zerion-api/src/merkle.ts:46-62 | From every leaf position, folding the sibling path with the sorted-pair rule yields the root. Promoted nodes contribute no element. |
| `MerkleTree.GetProofVerifies` | zerion-api/src/merkle.ts:46-62 | For every leaf of a tree, `getProof` verifies against `getRoot`. |
| `MerkleTree.RootIsDigest` | zerion-api/src/merkle.ts:52 | A non-empty tree of 32-byte leaves has a 32-byte root. |
| `Merkle.AmountFieldDigits` | zerion-api/src/merkle.ts:23 | The amount field is ASCII digits that read back as the amount. |
| `Merkle.HashLeafInput` | zerion-api/src/merkle.ts:20-26 | `hashLeaf` hashes the player's bytes followed by a field of at least 32 decimal digits that reads back as the amount. |
| `Merkle.LeafEncodingLayout` | zerion-api/src/merkle.ts:20-26 | A leaf hashes the player's bytes, then the bytes of the amount field: max(32, digits) ASCII decimal digits that read back as the amount. |
| `Merkle.LeafEncodingDeterminesAmount` | zerion-api/src/merkle.ts:20-26 | For one player, the hashed bytes determine the amount. |
| `Merkle.LeafTable` | zerion-api/src/merkle.ts:35-44 | The table has one row more than there are betting payouts. Row 0 is (winner, winnerAmount) and row i+1 is payout i, in order. Each row's hash is `hashLeaf` of its own player and amount. |
| `Merkle.LeafHashes` | zerion-api/src/merkle.ts:47 | Gives the leaf hashes, row by row. |
| `Merkle.GenerateMerkleTree` | zerion-api/src/merkle.ts:28-55 | The leaves are the leaf table and the tree is built over its hashes. The root is 64 lower-case hex characters that decode to the tree's root. |
| `Merkle.GetMerkleProof` | zerion-api/src/merkle.ts:57-62 | One lower-case hex string per element of `getProof`, each decoding to that element. |
| `Merkle.MerkleProofRoundTrip` | zerion-api/src/merkle.ts:35-62 | For every row of the leaf table, the decoded hex proof folds from the row's hash to the decoded root. |
| `Merkle.CalculateWinner` | zerion-api/src/merkle.ts:64-67 | Fails exactly on an empty list. Otherwise returns the player of the earliest snapshot with the largest percentage change. |
| `Merkle.WinnerOfRanked` | zerion-api/src/merkle.ts:64-67 | On a list already sorted by change, the winner is the first player. |
| `Merkle.CorrectBets` | zerion-api/src/merkle.ts:73 | Returns exactly the bets, from the input, whose prediction is the winner. |
| `Merkle.CorrectBetsConcat` | zerion-api/src/merkle.ts:73 | Filtering a concatenation is concatenating the filtered parts, so the correct bets keep input order. |
| `Merkle.CorrectBetsOne` | zerion-api/src/merkle.ts:73 | A single bet is kept, once, exactly when it names the winner. Together with `CorrectBetsConcat` this fixes the filter's order and multiplicity. |
| `Merkle.TotalStake` | zerion-api/src/merkle.ts:79-80 | A non-empty set of bets has a positive total stake. |
| `Merkle.ScaledPayouts` | zerion-api/src/merkle.ts:82-85 | Payout i goes to bettor i and is floor(stake × pool / correct stakes). |
| `Merkle.CalculateBettingPayouts` | zerion-api/src/merkle.ts:69-86 | Empty exactly when no bet names the winner. The payouts never add up to more than the pool. |
| `Merkle.PayoutsOfCorrectBets` | zerion-api/src/merkle.ts:79-85 | There is one payout per correct bet, in order, with the same bettor and floor(stake × pool / correct stakes). |
| `Merkle.PayoutExample` | zerion-api/src/merkle.ts:69-86 | Bets X→B 100 and Y→A 50 with winner B pay [X: 150]. |
| `Merkle.CorrectStakesWithinPool` | zerion-api/src/merkle.ts:79-80 | The correct stakes are at most the whole pool. |
| `Merkle.StakeOfConcat` | zerion-api/src/merkle.ts:79-80 | The total stake of two lists of bets is the sum of their totals. |
| `Merkle.PaidWithinShare` | zerion-api/src/merkle.ts:82-85 | Rounding each share down pays at most the rounded-down total share. |
| `Merkle.PaidExactShare` | zerion-api/src/merkle.ts:82-85 | When every share divides exactly, the payouts equal the total share. |
| `Merkle.PayoutsExhaustPool` | zerion-api/src/merkle.ts:69-86 | With exact shares, the payouts add up to the whole pool. |
| `Merkle.PayoutAtLeastStake` | zerion-api/src/merkle.ts:84 | Every correct bettor is paid at least the stake. |
| `Oracle.Collected` | zerion-api/src/oracle.ts:110-116 | There are no more snapshots than players. Every obtained snapshot is included, and nothing else. |
| `Oracle.CollectedConcat` | zerion-api/src/oracle.ts:110-116 | Collecting over a concatenation of players is concatenating the collections, so snapshots come in player order. |
| `Oracle.CollectedOne` | zerion-api/src/oracle.ts:110-116 | One player contributes their snapshot once, or nothing when the fetch gave none. Together with `CollectedConcat` this fixes the collection's order and multiplicity. |
| `Oracle.CollectSnapshots` | zerion-api/src/oracle.ts:110-116 | The collection loop computes `Collected`: the obtained snapshots in player order, with missing ones dropped. |
| `Oracle.Ranked` | zerion-api/src/oracle.ts:119-121 | Ranking sets rank i+1 at position i, changes no other field, and keeps a sorted list sorted. |
| `Oracle.RankSnapshots` | zerion-api/src/oracle.ts:110-121 | Collecting, sorting the array in place and numbering the ranks gives the ranked snapshots. |
| `Oracle.AssignRanks` | zerion-api/src/oracle.ts:119-121 | The rank loop leaves the array holding the ranked snapshots. |
| `Oracle.RankedSnapshotsOrder` | zerion-api/src/oracle.ts:118-121 | The ranked snapshots have the collected length and are non-increasing in change. The ranks are exactly 1..n. Every collected snapshot appears, ranked by its position. |
| `Oracle.RankedCovers` | zerion-api/src/oracle.ts:118-121 | Every collected snapshot appears in the ranked list, with its rank set to its position plus one. |
| `Oracle.RankedSnapshotsStable` | zerion-api/src/oracle.ts:118-121 | Equal changes keep collection order. Each ranked snapshot is the sorted one with its rank set. |
| `Oracle.SettlementWinner` | zerion-api/src/oracle.ts:123 | The rank-1 player is the earliest collected player with the largest change. |
| `Oracle.RankingExample` | zerion-api/src/oracle.ts:118-123 | A 10%, B 25% and C -5% rank B, A, C (ranks 1, 2, 3), and B wins. |
| `Oracle.SettleBattle` | zerion-api/src/oracle.ts:104-153 | With no snapshot: failure, and nothing uploaded. Otherwise it hands the record to the content store. If the store accepts it, the result is the root and the content id; if the store rejects it, settlement fails with the store's reason. The record carries the ranked snapshots, the rank-1 winner, the prize pool, `calculateBettingPayouts(bets, winner)` and the root of `generateMerkleTree` of that result. |
| `Server.ValidateSettle` | zerion-api/src/server.ts:49-59 | Rejects in this order: "Invalid players array" iff players is not a non-empty array; "Invalid bets array" iff bets is not an array; "Invalid battle prize pool" iff the pool is not a non-zero number. Accepts exactly when all three hold. |
| `Server.Matches` | zerion-api/src/server.ts:97 | Strict equality on both fields: only a string player equal to the row's and a number amount equal to the row's match, with no coercion. |
| `Server.FindLeaf` | zerion-api/src/server.ts:97 | Finds the first row whose player and amount equal the request, or reports that none does. |
| `Server.HandleProof` | zerion-api/src/server.ts:88-110 | 400 exactly when battleResult or player is falsy or amount is undefined. 404 exactly when no leaf-table row matches. A success echoes the amount. |
| `Server.ProofResponseVerifies` | zerion-api/src/server.ts:95-110 | A success answers for the first row paying that player that amount. Its hex proof, folded from the decoded leaf hash, gives the decoded root. |
| `Server.UpperChar` | zerion-api/src/server.ts:169 | Upper-cases one ASCII lower-case letter and leaves other characters unchanged. |
| `Server.Upper` | zerion-api/src/server.ts:169 | Upper-cases a string character by character, keeping its length. |
| `Server.Keys` | zerion-api/src/server.ts:168-176 | The dictionary keys: exactly the upper-cased symbols present, each once. |
| `Server.KeysFirstAppearance` | zerion-api/src/server.ts:168-176 | The keys are in order of first appearance (the insertion order of the accumulator): any token with a later key is preceded by a token with each earlier key. |
| `Server.BestIndex` | zerion-api/src/server.ts:168-174 | For a symbol, the token kept is the earliest with the largest market cap, or none if the symbol is absent. |
| `Server.BestForUnique` | zerion-api/src/server.ts:168-174 | At most one token is kept per symbol. |
| `Server.Deduplicated` | zerion-api/src/server.ts:176 | Has one value per key. |
| `Server.DeduplicatedAt` | zerion-api/src/server.ts:176 | Position i holds the token kept for the i-th key. |
| `Server.DeduplicatedSpec` | zerion-api/src/server.ts:168-176 | The values have distinct symbols and cover every symbol of the input. Each is the token kept for its symbol. |
| `Server.Kept` | zerion-api/src/server.ts:168-174 | The token held for a key is a token of the input with that key. `KeptIsBest` says which one. |
| `Server.KeptIsBest` | zerion-api/src/server.ts:168-174 | Replacing only on a strictly larger market cap keeps, for each symbol, the earliest token with the largest market cap, and nothing for an absent symbol. |
| `Server.DedupBySymbol` | zerion-api/src/server.ts:168-174 | The `reduce` loop leaves the keys in first-appearance order. Each key holds the token the replace-if-larger rule keeps (`Kept`). |
| `Server.TopTokens` | zerion-api/src/server.ts:168-177 | The response list is the stable descending sort, by market cap, of the de-duplicated values. |
| `Server.TopTokensSpec` | zerion-api/src/server.ts:176-177 | The list is a permutation of the de-duplicated values, non-increasing in market cap. It has one token per symbol, covering all symbols, and each is the token kept for its symbol. |
| `Server.DistinctKeysPermutation` | zerion-api/src/server.ts:177 | Reordering keeps the symbols distinct. |

## Left out

- Network, chain and storage I/O are left out: fetching wallet data, the transfer to and from IPFS, the Solana transaction in `setMerkleRootOnChain`, and the HTTP routing and JSON plumbing. Fetching and uploading are parameters of `Oracle.SettleBattle`.
- Keccak-256 is a parameter `h`. Its collision resistance is not proved. So no lemma says that a tampered amount or a foreign hash fails verification.
- Timestamps (`Date.now()`, `startTime` and `endTime` of the record) are left out of the model, and so is the optional `tokens` list of a wallet snapshot, which the record carries along unchanged.
- The `/api/tokens/top` search loop over the external token API is left out, along with its filters. The model starts from the list of collected tokens.
- `zerion-api/api/index.ts` repeats the token reduction of `zerion-api/src/server.ts`. It is not modelled separately.
- `Merkle.CalculateBettingPayouts` computes `floor(stake × pool / correct stakes)` in exact integers. The code computes `Math.floor((amount / totalCorrect) * totalPool)` in IEEE doubles, which can differ by one near integer boundaries.
- Bet stakes are positive integers (`Merkle.Stake`). A zero total of correct stakes, which would make the code divide 0 by 0, is excluded, as are fractional and negative stakes.
- `Merkle.AmountField` uses the decimal text of a natural number. For numbers of 1e21 and above, JavaScript switches to exponent notation, and precision above 2^53 is lost. Neither is modelled. Nor are negative or fractional amounts: a client-supplied battle result in a proof request can carry them, and the code pads their text (`-5` becomes `000…0-5`), but `Merkle.BattleResult` holds natural numbers only.
- Percentage changes and market caps are modelled as reals. NaN and infinities are not.
- `Server.ValidateSettle` lets through any non-zero number as the prize pool, including negative and fractional ones. `Oracle.SettleBattle` takes the pool as a natural number.
- The elements of the `players` and `bets` arrays are not checked by the server, and the model does not cover a request with malformed elements.
- `Server.HandleProof` takes an absent or falsy `battleResult` as `None`. A truthy but malformed one, which makes the code fail with a 500, is not modelled.
- `Server.Upper` upper-cases ASCII letters only. Unicode case mapping in `toUpperCase` is not modelled.
- `Server.Keys` gives keys in insertion order. JavaScript objects list integer-like keys first, in numeric order, and this is not modelled.
- Lone UTF-16 surrogates in strings are not modelled. Dafny characters are Unicode scalar values.
- `Merkle.CalculateWinner` returns a failure on an empty list, where the code throws a TypeError. `Oracle.SettleBattle` propagates that failure before anything is uploaded.
