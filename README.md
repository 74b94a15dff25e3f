# merkle: a verified model of a simple in-memory merkle tree

This project models the Go package `merkle`. The package builds an immutable,
in-memory merkle tree over serialized data items ("datums") with any hash
function. A `Tree` keeps three things:

- its hash;
- its leaves (`tls`), sorted by datum. Each leaf holds the hash of its datum
  (`digest`), the datum itself, and its insertion rank (`orderedID`);
- the rows of merkle nodes above them (`mns`). Row 0 is the root. The last
  row pairs up the leaf digests.

A pair is hashed as `H(left ++ right)`. An odd node out at the end of a row
is hashed on its own, `H(node)`; it is never paired with a copy of itself.

The source is the single file `merkle.go`; the model splits it by concern,
and adds models of the library calls it relies on:

- `bytes.dfy`: byte strings and `bytes.Compare`.
- `sorting.dfy`: `sort.Slice`, as a sorted permutation, and facts about
  sorted permutations.
- `planner.dfy`: `calculateMerkleNumbers`.
- `tree_leaves.dfy`: `appendTreeLeaves`, `deleteTreeLeaves`, `sort.Search`, and
  the insertion order that `Leaves` lists.
- `builder.dfy`: `constructMerkleNodes`, and the rows it builds as a pure
  specification (`BuildNodes`).
- `paths.dfy`: the check `verify` performs, as a specification (`Verifies`).
- `merkle.dfy`: the `Tree` class with its accessors, lookups, `verify`,
  the two mutators, and `NewTree`.

Loops in the source are `method`s with loop invariants. Each is proved
against the pure function that specifies it. The tree is a `class` whose
mutators update `tls` and `mns`. Its invariant is `Tree.Valid()`:

- every digest is the hash of its datum;
- the leaves are sorted by datum;
- the orderedIDs are exactly 0 .. n-1;
- `mns` is what `constructMerkleNodes` builds on the leaves.

Behaviour of the code as written, which the model keeps:

- `VerifyDigest` compares its argument with each leaf's datum, not its
  digest. On a valid tree it is a membership test on the data.
- `verify` rehashes the leaf's datum and never reads the leaf's own stored
  digest. It reads only the neighbour's digest.
- `deleteTreeLeaves` sizes its result as `len(old) - len(delData)` even when
  some items to delete are absent. The leaves inserted last are then cut off.

## Model

| member | source | states |
|---|---|---|
| Bytes.Compare | merkle.go:318-320 | bytes.Compare is -1/0/+1; 0 exactly on equal strings; the first byte decides when it differs; the empty string sorts first |
| Bytes.FirstDifferenceDecides | merkle.go:318-320 | after any common prefix, the first differing byte decides the order (lexicographic order, bytes compared unsigned) |
| Bytes.ProperPrefixFirst | merkle.go:318-320 | a proper prefix sorts before the longer string |
| Bytes.LessTotal | merkle.go:318-320 | two different byte strings are ordered one way or the other, never both |
| Bytes.NotLessTransitive | merkle.go:318-320 | "not less" is transitive, so the comparator given to sort.Slice is a strict weak order |
| Sorting.SortBy | merkle.go:318-320 | the sort.Slice model returns a sorted permutation of its input (same multiset, same length) |
| Sorting.SortedUnique | merkle.go:343-345 | two sorted permutations of the same elements are equal when the order separates distinct elements (sorting by orderedID is deterministic) |
| Planner.NextRowSize | merkle.go:401-405 | one halving: an odd count rounds up, so n <= 2m <= n+1 and 1 <= m < n |
| Planner.CalculateMerkleNumbers | merkle.go:399-410 | the loop returns the planned row sizes (leaf-adjacent row first) and their total as numMerkleNodes |
| Planner.RowSizesShape | merkle.go:399-410 | no rows below two leaves; each row holds half the one below it, rounded up; only the top row has one node |
| Planner.RowCount | merkle.go:399-410 | the number of rows is the least h with 2^h >= number of leaves |
| Planner.TwentyFourLeaves | merkle_test.go:51-52 | 24 leaves give rows of 12, 6, 3, 2, 1 nodes, 24 merkle nodes in all |
| TreeLeaves.SortByDatum | merkle.go:318-320 | leaves sorted by datum, same multiset of leaves |
| TreeLeaves.SortById | merkle.go:290-292 | leaves sorted by orderedID, same multiset of leaves |
| TreeLeaves.AppendTreeLeaves | merkle.go:305-322 | the result is sorted by datum and is a permutation of the old leaves plus one leaf (H(d), d, \|old\|+i) per new datum |
| TreeLeaves.AppendKeepsLeavesWellFormed | merkle.go:305-322 | after appending, every digest is still the hash of its datum, the orderedIDs are 0..n-1, and the data are the old data plus the new |
| TreeLeaves.AppendInsertionOrder | merkle.go:312-316 | listed by orderedID, the appended leaves give the old data followed by the new data in the order given |
| TreeLeaves.IndexOfDatum | merkle.go:160-165 | the first index whose leaf holds the datum, or \|s\| when there is none |
| TreeLeaves.IndexOfId | merkle.go:178-183 | the first index whose leaf has the orderedID, or \|s\| when there is none |
| TreeLeaves.PresentIff | merkle.go:159-166 | a datum is among the leaves' data exactly when the scan finds it |
| TreeLeaves.IdPresentIff | merkle.go:177-184 | on leaves numbered 0..n-1, the scan finds an orderedID exactly when it is below n |
| TreeLeaves.SearchDatum | merkle.go:198-200 | the sort.Search bisection returns the boundary index: everything before it sorts below the key, the element at it does not |
| TreeLeaves.SearchFindsFirst | merkle.go:198-201 | on datum-sorted leaves, the index sort.Search returns holds the datum exactly when the datum is present, and is then the first index holding it |
| TreeLeaves.RemoveFirstDatum | merkle.go:335-340 | removing the first leaf holding a datum takes one copy of that leaf out, changes nothing when it is absent, and keeps the order |
| TreeLeaves.RemoveFound | merkle.go:335-340 | one pass of the removal loop (search, compare, splice) removes exactly the first leaf holding the item |
| TreeLeaves.Survivors | merkle.go:334-341 | the leaves left after the removal loop: between \|s\|-\|del\| and \|s\| of them, all old leaves, still sorted |
| TreeLeaves.RemoveEach | merkle.go:334-341 | the removal loop computes the survivors |
| TreeLeaves.Renumber | merkle.go:346-348 | renumbering gives leaf i the orderedID i |
| TreeLeaves.RenumberLeaves | merkle.go:346-348 | the renumbering loop computes Renumber |
| TreeLeaves.DeleteLeaves | merkle.go:324-357 | the deletion result has \|s\|-\|del\| leaves, is sorted by datum, and its orderedIDs are 0..n-1 |
| TreeLeaves.DeleteTreeLeaves | merkle.go:324-357 | deleteTreeLeaves as written (remove, sort by orderedID, renumber, cut to \|s\|-\|del\|, sort by datum) computes DeleteLeaves |
| TreeLeaves.DeleteKeepsSurvivors | merkle.go:343-351 | each kept leaf is a survivor with only its orderedID changed, to its rank in the old order; the kept data are the first \|s\|-\|del\| survivors' |
| TreeLeaves.DeleteKeepsDigests | merkle.go:324-357 | deletion keeps every digest the hash of its datum |
| TreeLeaves.DeletePresent | merkle.go:334-351 | when every deleted item is present as often as listed, exactly one copy of each is removed from the data |
| TreeLeaves.DeleteClean | merkle.go:324-357 | clean case (distinct data, distinct present items): exactly those data go, none of them remains, and the survivors are renumbered in their old order |
| TreeLeaves.DeleteAbsentTruncates | merkle.go:350-351 | when no item to delete is present, the result still has \|s\|-\|del\| leaves: the insertion order is cut to its first \|s\|-\|del\| data |
| TreeLeaves.DeleteInsertionOrder | merkle.go:343-351 | listed by orderedID, the result is the survivors in their old insertion order, cut to \|s\|-\|del\| |
| TreeLeaves.DeleteOutcome | merkle.go:324-357 | what deletion promises in every case: digests match, the insertion order is kept (and cut), and the clean case removes exactly the deleted data |
| TreeLeaves.InsertionOrderById | merkle.go:287-303 | on leaves numbered 0..n-1, the datum of the leaf numbered k is at position k of the listing |
| TreeLeaves.SortByIdRecovers | merkle.go:343-345 | sorting by orderedID recovers the unique sequence of those leaves numbered 0..n-1 in order |
| Builder.ParentRow | merkle.go:385-395 | the row above n nodes has ceil(n/2) nodes |
| Builder.BuildNodes | merkle.go:364-397 | the rows built on L leaves are as many as the plan for L has; from two leaves on there is a last row covering the leaves, and every row fits under the row above it |
| Builder.LayersShape | merkle.go:364-397 | the built rows, root first, have the planned sizes; the root row has one node; the last row pairs up the leaf digests; each other row pairs up the row below |
| Builder.BuildNodesShape | merkle.go:365-384 | row sizes of the built tree: as many rows as the plan, a single root, and a last row of ceil(L/2) nodes |
| Builder.BuildNodesPairs | merkle.go:369-395 | the last built row hashes the leaf digests pairwise, and every other row hashes the row below it pairwise |
| Builder.BuildNodesRoot | merkle.go:92-94 | row 0 of a tree of two or more leaves holds the root obtained by pairing up the leaf digests until one node is left |
| Builder.ThreeLeafRoot | merkle.go:371-395 | three leaves a, b, c give the root H(H(a+b) + H(c)): the odd node is hashed alone, not duplicated |
| Builder.NodesDetermined | merkle.go:364-397 | the built rows depend only on the multiset of data, not on the order the data were supplied in |
| Builder.LayersTotal | merkle.go:79-84 | the total size of the built rows equals the planner's numMerkleNodes |
| Builder.HashLeafRow | merkle.go:371-381 | the leaf-adjacent row hashes the digests of leaves 2j and 2j+1, or of leaf 2j alone when it is last |
| Builder.FillRow | merkle.go:386-394 | one pass of the upper loop fills a row with the pairwise hashes of the row below |
| Builder.FillRows | merkle.go:385-395 | the upper loop, run bottom-up, fills every higher row from the row below |
| Builder.ConstructMerkleNodes | merkle.go:364-397 | constructMerkleNodes returns exactly BuildNodes of the leaves |
| Paths.CombineParent | merkle.go:234-251 | recombining a node with its neighbour as verify does gives the parent the builder computes, including the empty sibling of a last even node |
| Paths.BuiltTreeVerifies | merkle.go:223-283 | soundness: on a built tree whose digests are the hashes of their data, verify succeeds at every leaf |
| Paths.VerifyIgnoresOwnDigest | merkle.go:224-226 | verify never reads the checked leaf's own stored digest: replacing it changes nothing |
| Paths.AncestorInRange | merkle.go:265-271 | in nested rows every parent index verify computes is in range |
| Paths.TamperedPathFails | merkle.go:252-253 | a changed node on leaf i's path makes verify(i) fail, on any rows that pair up |
| Paths.TamperedNodeFails | merkle.go:277-278 | changing any node on leaf i's path of a built tree, the root included, makes verify(i) return false |
| Merkle.Tree.constructor | merkle.go:115-119 | the composite literal stores the hash, rows and leaves given |
| Merkle.Tree.Height | merkle.go:67-69 | the height is at least 1, and on a valid tree it is the number of planned rows plus the leaf row |
| Merkle.Tree.HeightIsLogarithmic | merkle.go:67-69 | on a valid tree, Height-1 is the least h with 2^h >= NumLeaves |
| Merkle.Tree.NumLeaves | merkle.go:87-89 | the number of leaves is the number of stored data, duplicates included |
| Merkle.Tree.MerkleSize | merkle.go:79-84 | the loop sums the row lengths; on a valid tree this is the planner's node count |
| Merkle.Tree.Size | merkle.go:73-75 | merkle nodes plus leaves |
| Merkle.Tree.MerkleRoot | merkle.go:92-94 | on a valid tree with rows, there are two or more leaves and the value is the root of the leaf digests |
| Merkle.Tree.Verify | merkle.go:223-283 | verify never returns an error; it returns true exactly when Verifies holds, so a mismatch anywhere gives (false, nil) |
| Merkle.ClimbRows | merkle.go:256-282 | the climbing loop returns true exactly when the path from the given node checks out |
| Merkle.Tree.FoundVerifies | merkle.go:223-283 | on a valid tree of two or more leaves, verify succeeds at every index |
| Merkle.Tree.VerifyDigest | merkle.go:159-166 | verifies the first leaf whose datum equals the argument; (true, nil) when the argument is among the data, (false, ErrNoData) otherwise |
| Merkle.Tree.VerifyOrderedID | merkle.go:177-184 | verifies the first leaf with the orderedID; (true, nil) for IDs below NumLeaves, (false, ErrNoData) otherwise |
| Merkle.Tree.VerifySerializedDatum | merkle.go:197-205 | binary search then verify at the first leaf holding the datum; (true, nil) when present, (false, ErrNoData) when absent |
| Merkle.Tree.VerifyDatum | merkle.go:216-221 | a nil datum gives (false, ErrNoData); otherwise (true, nil) when present and (false, ErrNoData) when absent |
| Merkle.Tree.Leaves | merkle.go:287-303 | lists the data by orderedID: NumLeaves entries, the datum of the leaf numbered k at position k |
| Merkle.Tree.AppendAndReconstruct | merkle.go:126-135 | empty input is a no-op; otherwise the leaves become the old leaves plus the new ones, the data gain exactly the new data, the new data are listed after the old, and the tree stays valid |
| Merkle.Tree.DeleteAndReconstruct | merkle.go:141-149 | empty input is a no-op; otherwise the leaves become DeleteLeaves of the old, with \|old\|-\|data\| leaves kept in their insertion order; in the clean case exactly the data go; the tree stays valid |
| Merkle.NewTree | merkle.go:101-120 | an unavailable hash gives ErrHashUnavailable before the data are looked at; no data gives ErrNoData; otherwise a fresh valid tree, one leaf per datum, listing the data in the order given |
| Merkle.AppendThenDeleteRestoresNodes | merkle.go:126-149 | appending a batch and then deleting the same batch gives back the rows, hence the root, of the tree before the append |

## Left out

- The hash is a function value `H: Bytes -> Bytes`. `crypto.Hash`, its `New`/`Reset`/`Write`/`Sum` calls and `Available()` are not modelled. Writing `a` then `b` and taking the sum is `H(a ++ b)`. Whether the hash is linked in is a boolean input to `NewTree`.
- `Datum.Serialize` is not modelled: items are given already serialized, as byte strings. A nil `Datum` is `None`, but only for `VerifyDatum`: a nil item among the data given to `NewTree`, `AppendAndReconstruct` or `DeleteAndReconstruct` makes the source panic when it calls `Serialize()` (merkle.go:309, 328), and the byte-string parameters cannot express that case.
- The shared backing buffers `mnsSeq` (in constructMerkleNodes) and `retSeq` (in Leaves), and the `copy` into them, are modelled as plain values. Their aliasing and capacities are not modelled. `constructMerkleNodes` copies each node digest into a slot of `h.Size()` bytes (merkle.go:366, 372, 380, 393); the model takes `H`'s output as is, which agrees with the source only when every digest `H` produces has exactly that length, as every `hash.Hash` does.
- Sorting.SortBy: `sort.Slice` is not stable. The model is one particular sort, so the order of leaves with equal data (duplicates) may differ from Go's. The rows do not depend on it (Builder.NodesDetermined).
- The `Error()` strings of the two error types are not modelled.
- Integer widths (`int`, `uint` orderedIDs) are unbounded here; overflow cannot happen at realistic sizes.
- Concurrency is not modelled: the package has no locking.
- Merkle.Tree.Verify: a tree with fewer than two leaves has no rows, and Go's `verify` panics indexing them. The model requires rows that cover the leaves. So the lookups require that a one-leaf tree is not asked for its only leaf.
- Merkle.Tree.DeleteAndReconstruct: deleting more items than there are leaves panics in Go (a negative `make` length). The model requires `|data| <= |tls|`.
- Merkle.Tree.MerkleRoot: Go panics on a tree without rows. The model requires a non-empty row 0.
