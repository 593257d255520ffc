# Near-duplicate image grouping — a Dafny model

This project models the sequential decision logic of `dedupe.go`, the public
entry points of the image deduplicator:

- **Fingerprint shaping** (`imageHash`): the DCT kind yields one 64-bit word,
  the difference-hash kind yields the row hash then the column hash, and any
  other kind yields nothing.
- **Duplicate grouping** (`Duplicates`): one pass over the tree's `All()`
  sequence. The pass keeps a skip list of IDs. Each item not yet skipped runs a
  radius query. A query with at least one match emits a group: the seed's
  path, then the matches' paths in query order. The seed and every match join
  the skip list, and the group's size is added to `total`.
- **Target lookup** (`Compare`): the call fails fast when the target cannot be
  loaded. Otherwise it queries the candidate tree once and maps the result IDs
  to paths, keeping length and order.
- **Item collection**: the loop that ends `buildTree` drops nil results and
  keeps the rest in arrival order.

Modules, leaf first:

- `Wrappers`: `Option` and `Result`.
- `Metric`: 64-bit fingerprint words and the Hamming-sum distance.
- `Fingerprint`: hash kinds and `ImageHash`.
- `Index`: items, the tree seen through `All()` and `Within`, and the file mapper.
- `Grouping`: the grouping decision as a pure left fold (`Scan`) and its properties.
- `Dedupe`: the operations of `dedupe.go`, written as the source writes them.

The VP-tree package is not part of this model. A tree is represented by its
`All()` sequence. `Within(q, r)` is specified by the tree's contract: the items
of `All()` within distance `r` of `q`, other than `q` itself by ID. It is
defined as a filter over `All()` that keeps their order. The distance sums the
population counts of `a xor b` over corresponding 64-bit components. The file
mapper is a map from ID to path plus the next free ID. Registering a path
hands out that ID; looking up an unknown ID gives the empty string.

`Duplicates` and `Compare` take what `buildTree` returns (tree, mapper, joined
error) as a parameter of type `Built`. `Compare` takes the outcome of loading
the target as a `Result`. The hash functions are fields of a `Hasher` record.

Each image might be expected to belong to at most one group, but the code
does not promise it: query results are not filtered against the skip list. An item that
was already a member of one group can therefore be a member of a later group,
when that group's seed is within the threshold of it.
`Grouping.MembershipNotExclusive` exhibits such an input. The model proves
only what the code guarantees: no skipped item ever seeds a group.

## Model

| member | source | states |
|---|---|---|
| `Fingerprint.ImageHash` | dedupe.go:21-31 | The fingerprint has one component per the kind's component count: exactly `[Dct(img)]` for DCT, `[rHash, cHash]` in that order for DHASH, and empty for any other kind. |
| `Index.Within` | dedupe.go:108 | The radius query returns exactly the items of `All()` whose ID differs from the query's and whose distance to it is at most the threshold; it never returns more items than the tree holds. |
| `Index.Register` | dedupe.go:136 | Registering the target makes its fresh ID map back to its path and leaves every other ID's path unchanged; on a consistent mapper the ID is new and the mapper stays consistent. |
| `Dedupe.CollectItems` | dedupe.go:88-94 | The collected items are the non-nil results in arrival order: an item is kept exactly when it arrived as a non-nil result. |
| `Dedupe.FormGroup` | dedupe.go:112-118 | A group is the seed's path followed by the paths of the matches in query order, and the IDs added to the skip list are the seed's followed by the matches', in the same order. |
| `Dedupe.Visit` | dedupe.go:105-120 | Visiting an item whose ID is in the skip list, or whose query finds nothing, changes no state; otherwise exactly one group is appended, its IDs join the skip list and `total` grows by the number of matches plus one. |
| `Dedupe.GroupingPass` | dedupe.go:104-121 | The loop emits exactly the groups of the seeds of the reference fold over `All()`, in seed order, and `total` equals the length of the final skip list. |
| `Dedupe.Duplicates` | dedupe.go:101-123 | One group per seed in seed order; group k is seed k's path followed by the paths of its matches; every group has at least two entries; `total` is the sum of the group lengths; an empty tree gives no groups and total 0; the error is the tree build's. |
| `Grouping.SkipIsCovered` | dedupe.go:102-118 | After every visit the skip list holds exactly the IDs of the groups emitted so far, each seed followed by its matches, group after group. |
| `Grouping.SeedsAvoidEarlierGroups` | dedupe.go:104-107 | No seed's ID is among the IDs of any group emitted before its own: an item already in the skip list never seeds a group. |
| `Grouping.SeedsDistinct` | dedupe.go:104-113 | The seeds of a pass have pairwise distinct IDs. |
| `Grouping.SeedsAreMatched` | dedupe.go:108-111 | Every seed is an item of the visited sequence whose own query has at least one match, so no singleton group is emitted. |
| `Grouping.SeedsInOrder` | dedupe.go:104-120 | The seeds, and so the groups, appear in the order their items occur in `All()`. |
| `Grouping.MatchedItemsGrouped` | dedupe.go:104-118 | Every visited item whose query has a match ends up in the skip list, as a seed or as a member of some group. |
| `Grouping.GroupedIffMatched` | dedupe.go:108-118 | For a tree with unique IDs, an item's ID is in some emitted group exactly when its own query has a match; an item with no neighbour is in no group. |
| `Grouping.GroupsAt` | dedupe.go:112-120 | The emitted groups are one per seed, in order, and group k is seed k's path followed by the paths of its matches. |
| `Grouping.GroupsTotal` | dedupe.go:119-120 | The total length of the groups equals the number of IDs the pass appended to the skip list. |
| `Grouping.IdenticalPair` | dedupe.go:104-120 | Two images with identical fingerprints and a non-negative threshold form exactly one group, seeded by the first and holding both IDs. |
| `Grouping.MembershipNotExclusive` | dedupe.go:108-118 | With d(A,B) = d(B,C) = 1, d(A,C) = 2 and threshold 1, visiting A, B, C seeds groups at A and C, and B is a member of both. |
| `Dedupe.Compare` | dedupe.go:127-146 | A target that fails to load gives no filenames and that load error, whatever the candidates. A loaded target gives the tree build's error and at most as many filenames as candidates. On a consistent build, the filenames are the paths of the query results, in order and of equal length. |
| `Dedupe.CompareFindsNear` | dedupe.go:134-144 | With a loaded target and a consistent build, the filenames are the paths of a list of candidates, one path each and in order, and a candidate is in that list exactly when it lies within the threshold of the target's fingerprint. |

## Left out

- The goroutine pipeline of `buildTree` (dedupe.go:34-95) is not modelled: the worker pool, the channels, the wait group and the error-collecting goroutine exist only for concurrency. Two defects live there and need a concurrent model. First, the joined error is returned without waiting for the collector goroutine. Second, with `GOMAXPROCS` at most 2 no worker is started, so the dispatcher blocks on a non-empty file list. Only the final nil-filtering loop is modelled (`CollectItems`).
- Image loading is file I/O. Its outcome is a `Result` parameter of `Compare`, and the loads of candidate files are folded into the `Built` parameter.
- The DCT and difference hashes are floating-point image algorithms that are not part of this model. They are the fields of `Hasher`, functions that return 64-bit words.
- The VP-tree's construction and pruned search are not part of this model. `Within` is its stated contract, realised by a filter over `All()`. The order of `All()` is taken as given.
- How the file mapper assigns IDs is not part of this model. `Register` hands out the next unused ID. `ByID` of an unknown ID is assumed to return the empty string.
- Error wrapping and joining (`fmt.Errorf`, `errors.Join`) is not modelled: an error is an opaque value.
- Hash-type equality is taken as equality of the kind. Threshold values are fields of `HashType`; their constants live in the hashing package, which is not part of this model.
- Index.Within: if two fingerprints differ in length, the extra components of the longer one are ignored. Items of one tree share a hash kind, so their fingerprints have equal length.
- The `uint` IDs are unbounded naturals: wrap-around after 2^64 registrations is not modelled.
- Unique, registered IDs are assumed of building the tree, not proved: `buildTree` registers items from several goroutines on one shared file mapper (dedupe.go:35, 50-62), and whether that keeps IDs unique, below the next free ID and mapped to their paths rests on the file mapper, which is not part of this model. `Dedupe.Registered` states the assumption; the exact-result clause of `Dedupe.Compare`, `Dedupe.CompareFindsNear` and `Grouping.GroupedIffMatched` depend on it.
- Query results are taken in `All()` order. The VP-tree returns its matches in its own search order, which is not part of this model, so the order of the members after the seed in each group and the order of `Compare`'s filenames are a modelling choice; which items are returned is not.
