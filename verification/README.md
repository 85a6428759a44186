# TinyCR in Dafny

TinyCR answers "is this certificate revoked?" exactly for a known set of certificates. A
server keeps a vacuum filter (approximate membership of the revoked keys) and an Othello (one
bit for every key the filter accepts), changes both step by step, and ships to its clients
either the list of flipped Othello cells or its whole state. This project models that machinery
and proves that it stays exact, and that clients stay equal to the server, over whole runs.

The modules follow the program:

| module | what it is |
|---|---|
| `Wrappers`, `Bits`, `PackedArray` | optional values; machine words as natural numbers with their bit laws; the bit-packed cell array, flips, diffs |
| `DisjointSets` | union-find with path compression |
| `Forest`, `KeyGraphs`, `Adjacency`, `Walks`, `Connectivity` | forests and half trees; the graph of a set of keys; the intrusive edge lists; the explicit-stack search; union-find against graph connectivity |
| `Growth` | when an Othello takes another key, as a matter of sizes, seeds and the set of its keys |
| `ControlPlane` | `ControlPlaneOthello`: build, insertion, value flip and deletion, all in place |
| `SemiSort`, `Segments` | packed buckets of four fingerprints; the alternate bucket |
| `FilterModel`, `FilterEntries`, `KickTrails`, `VacuumFilters` | the filter as a value; what it stores as a multiset of (fingerprint, bucket pair); insertions, deletions and lookups bucket by bucket; the filter object |
| `TrackerModel`, `Sizing`, `Trackers` | when the tracker is exact; sizes, and when a build comes to an end; the tracker object |
| `Copies`, `Verifiers` | what a verifier holds, as a value, and what a change makes of it; the client's Othello and verifier |
| `Codec`, `Wire` | bytes of full and delta updates; full update from verifier to verifier |
| `Criot`, `System` | the server's wrapper, operations delivered to a client as they are or as bytes, whole runs; server and client from construction on |

The main results, from the bottom up:

* every Othello operation keeps `Valid`: the live keys are the edges of a forest, the lists list
  them exactly, union-find is graph connectivity, and xoring the two end cells of a key gives its
  value and its index, although each repair rewrites only one half tree (`InsertOnDemand`,
  `ValueFlipOnDemand`, `EraseOnDemand`, `Insert`, `Build`);
* an insertion goes to the emptier bucket, or through a chain of stages that are told without the
  functions that compute them, and fails if and only if `maxKickSteps` of them in a row are blocked
  (`InsertTraced`, `KickFails`);
* every kick chain keeps the multiset of entries plus the new one, minus exactly one entry if it
  fails (`InsertEntries`), `lookup` is membership in that multiset (`LookupExact`), and a
  change of the filter touches only keys with the same entry (`Locality`);
* the tracker's `insert`, `setValue`, `batch_insert` and `rebuild` keep `Exact`, the two scans of
  rows being enough (`PositiveAdded`, `TurnedNegative`, `BetweenScans`), and ask for a rebuild if
  and only if the filter cannot take its new key or the edges of the positive keys and the false
  positives do not form a forest under the current seed (`AddNeedsRebuild`, `SetNeedsRebuild`);
* a build from two lists of keys comes to an end if and only if the first fingerprint length for
  which the filter takes the positive keys gives an Othello in which each key in turn finds its
  place or, at most fifty seeds on, a seed; all that decides this are the sizes, the order of the
  keys and the position in the stream of random numbers (`Builds`, `Grown`, `BatchInsert`, `Init`);
* whatever operations callers may ask for, the tracker stays exact, and a client handed each flip
  list keeps the server's filter, generator state and Othello words, unless a rebuild gets stuck
  (`RunDirect`);
* the same with every update sent as bytes, full updates after every rebuild, up to a delta with
  flips that its one-byte counter hides from the client and that do not cancel out; the server
  still is exact then, and the client lacks exactly those flips (`Run`). This is the protocol for
  insertions and for unrevoking; a revocation that needed a rebuild is sent otherwise, see below;
* all of it from construction, two lists of keys and a full update on (`WholeSystem`), and for a
  client that connects only afterwards, takes the full update of the last rebuild and is fed all
  changes since (`CatchUp`, `LateClient`).

Results that are not what one would hope for, stated exactly:

* `insert` with an odd value other than 1 keeps the tracker exact if and only if the filter does
  not accept the key: otherwise the key counts as negative and is answered with 1
  (`DassTracker.Insert`); a positive key with the same entry is an input (`OddValueMisread`), and with a
  constant hash function every two keys have the same entry (`OneEntryForAll`).
* A revocation goes out as a delta even after a rebuild. The client then answers the key as revoked
  if and only if its filter accepts it, which it does when its own insertion succeeds, and its old
  Othello bit for the key happened to be 1: a key that was a false positive stays "not revoked"
  (`RevokeCertificate`, `RevokeBySentinel`).
* The delta format recovers a batch if and only if it has at most 255 changes and, unless it is
  empty, at most 255 flips (`DeltaRoundTrip`). Of a single change with more flips, the client gets
  to see the first `|flips| % 256` (`SingleDelta`). It then agrees with the server if and only if
  the dropped flips name every cell an even number of times (`Step`, `SentAndDropped`,
  `ReplayCancels`).
* A client that connects between rebuilds gets what the server held at the last rebuild
  (`SendFull`); the server does not send it the changes it has missed.
* The allocation of the cell array covers its last cell if and only if the 32-bit size
  computation does not wrap around (`AllocationCovers`).
* The membership test inside the second scan of `insert` never finds a key to insert: the first
  scan has already taken in all of them (`BetweenScans`).

All machine integers are natural numbers with wrap-around, masks and truncation written out;
bit operators are defined on binary digits. Hash functions are uninterpreted functions; the
constants that the source xors into their arguments are part of them. The random engine of the filter is a machine
word with a successor function; the program's global generator, which hash seeds are drawn from, is a stream with a
position that goes on over rebuilds, `DRAWN_AT_START` after construction. Sizes that the source computes with floats are functions handed in (`Setup`).

## Model

| member | source | states |
|---|---|---|
| PackedArray.GetAfterSet | src/platform/control_plane_othello.h:109-151 | for every cell width from 1 to 60, reading a cell after writing it gives the value cut to the width, straddling words included |
| PackedArray.SetKeepsOthers | src/platform/control_plane_othello.h:109-151 | writing a cell changes no other cell of an array sized by `memResize` |
| PackedArray.AllocationCovers | src/platform/control_plane_othello.h:101-104 | the allocated words cover every cell exactly when the 32-bit size computation does not wrap |
| PackedArray.CellWrite | src/platform/control_plane_othello.h:109-131 | for one-bit cells a write is a flip of at most that one bit of the word vector |
| PackedArray.FlipAtBits | src/platform/data_plane_othello.h:227-236 | a flip code toggles exactly the bit it names |
| PackedArray.ReplayConcat | src/platform/data_plane_othello.h:227-236 | replaying two flip lists in turn is replaying their concatenation, repeats allowed |
| PackedArray.ReplayCancels | src/platform/data_plane_othello.h:227-236 | replaying a list changes nothing exactly when it names every cell an even number of times |
| PackedArray.OthelloFlippedIndexes | src/platform/DASS_Tracker.h:644-666 | the diff of two vectors of fewer than 2^26 words lists each differing bit once, ascending, and replaying it turns one vector into the other |
| DisjointSets.DisjointSet.Representative | src/utils/disjointset.h:20-28 | path compression returns the representative and changes no representative |
| DisjointSets.DisjointSet.Merge | src/utils/disjointset.h:30-32 | joins exactly the two classes, and says which roots remain |
| DisjointSets.DisjointSet.SameSet | src/utils/disjointset.h:34-36 | true exactly for equal representatives |
| DisjointSets.RepresentativesUnique | src/utils/disjointset.h:20-28 | the parent vector alone determines the representatives |
| Forest.HalfTree | src/platform/control_plane_othello.h:568-634 | what is reachable from one end of an edge of a forest without crossing it does not contain the other end |
| Forest.ForestPlus | src/platform/control_plane_othello.h:1036-1048 | an edge keeps a forest a forest exactly when its ends were not connected |
| Forest.LinkedIsPath | src/platform/control_plane_othello.h:751-752 | connectivity by closed sets is connectivity by paths |
| Adjacency.PushFront | src/platform/control_plane_othello.h:374-381 | putting an edge at the head of its list keeps every list exact |
| Adjacency.Unlink | src/platform/control_plane_othello.h:1157-1177 | the list search terminates, and unlinking removes exactly that edge from one side's lists |
| Adjacency.Relink | src/platform/control_plane_othello.h:1180-1209 | renaming the last edge to the freed index keeps every list exact |
| Connectivity.MergePartition | src/platform/control_plane_othello.h:374-381 | after a merge union-find is connectivity of the graph with the new edge |
| Connectivity.SplitPartition | src/platform/control_plane_othello.h:1218-1224 | after re-rooting both halves union-find is connectivity of the graph without the edge |
| KeyGraphs.IndicesByHalves | src/platform/control_plane_othello.h:76-98 | the low half of the hash, as a fraction of 2^32, is the place in array A, the high half the place in array B |
| KeyGraphs.KeyEdgeByHalves | src/platform/control_plane_othello.h:76-98 | the graph of a set of keys has exactly these edges, by the hash under the seed |
| ControlPlane.ControlPlaneOthello.QueryByHalves | src/platform/control_plane_othello.h:214-222 | a query of any key xors the cells of these two nodes |
| KeyGraphs.ForestByKey | src/platform/control_plane_othello.h:434-461 | whether the edges form a forest is a matter of the set of keys, not of their positions in the key array |
| KeyGraphs.OneMoreFits | src/platform/control_plane_othello.h:1036-1048 | one more key fits exactly when its two ends are not connected |
| KeyGraphs.FewerFit | src/platform/control_plane_othello.h:434-461 | where a set of keys forms a forest, every part of it does |
| ControlPlane.ControlPlaneOthello.constructor | src/platform/control_plane_othello.h:233-241 | a new structure is valid and empty; its sizes, its seed, its room for keys, at least 256, and how many random numbers it has drawn are all stated |
| ControlPlane.ControlPlaneOthello.ResizeKey | src/platform/control_plane_othello.h:246-288 | keeps the keys; succeeds exactly when the capacity is enough for the keys and, if new sizes are due, one of the next fifty seeds fits them; then valid, with room, sizes, seed and position in the random stream stated |
| ControlPlane.ControlPlaneOthello.ResetBuildState | src/platform/control_plane_othello.h:350-359 | no edges, all value cells zero, union-find with every node alone, its roots as the build needs them |
| ControlPlane.ControlPlaneOthello.AddEdge | src/platform/control_plane_othello.h:374-381 | lists stay exact and union-find merges the two ends |
| ControlPlane.ControlPlaneOthello.TestHash | src/platform/control_plane_othello.h:434-461 | true if and only if the keys' edges form a forest |
| ControlPlane.ControlPlaneOthello.FillTreeDFS | src/platform/control_plane_othello.h:466-497 | terminates, and every key in the tree of the root can then be read off its end cells, value and index, and equations that held before still hold; nothing outside the tree changes, nor the root |
| ControlPlane.ControlPlaneOthello.FillValue | src/platform/control_plane_othello.h:873-883 | every key satisfies its value and its index equation; the roots met lie in array A; cells of roots stay 0 |
| ControlPlane.ControlPlaneOthello.Build | src/platform/control_plane_othello.h:892-950 | succeeds exactly when one of the next fifty seeds gives a forest, takes the first of them, and is then valid; cells of roots and of nodes without keys are 0 |
| ControlPlane.ControlPlaneOthello.FixHalfTreeOnDemand | src/platform/control_plane_othello.h:636-711 | rewriting one half tree restores the equations of all keys, changes no cell outside the half at the root, and the flips appended lead from the old to the new words |
| ControlPlane.ControlPlaneOthello.ConnectBFSOnDemand | src/platform/control_plane_othello.h:826-866 | re-roots exactly the component of the node, clears the value cell of an isolated node and no other, and reports the flips |
| ControlPlane.ControlPlaneOthello.InsertOnDemand | src/platform/control_plane_othello.h:1021-1048 | refuses exactly when the new edge would close a cycle, that is, when the keys with the new one do not fit; otherwise valid with the key added, the flips lead to the new words, and only cells on the side of array A of the new edge change; the key counter has grown either way |
| ControlPlane.ControlPlaneOthello.ValueFlipOnDemand | src/platform/control_plane_othello.h:1057-1060 | only the value of that key changes, and only cells on its side of array A |
| ControlPlane.ControlPlaneOthello.UpdateValueAtOnDemand | src/platform/control_plane_othello.h:1099-1112 | throws exactly for an index out of range, otherwise sets that value and nothing else |
| ControlPlane.ControlPlaneOthello.EraseOnDemand | src/platform/control_plane_othello.h:1144-1230 | for any key: it is gone, all others are kept, renumbering and list repair included, the flips lead to the new words, and exactly the cells of ends that no key has any more are cleared |
| ControlPlane.ControlPlaneOthello.Insert | src/platform/control_plane_othello.h:980-1014 | succeeds exactly when the key fits, or a rebuild finds a seed for all keys, after a first build for the keys so far if new sizes are due; then valid with the key added, room, sizes, seed and position in the random stream stated |
| ControlPlane.ControlPlaneOthello.LookupsExact | src/platform/control_plane_othello.h:1311-1322 | the program's integrity check: each stored key finds its own value and index |
| ControlPlane.ControlPlaneOthello.MembershipExact | src/platform/control_plane_othello.h:1138-1142 | `isMember` holds exactly for stored keys, for every possible key |
| ControlPlane.ControlPlaneOthello.KeysDistinct | src/platform/control_plane_othello.h:954-961 | stored keys are pairwise distinct |
| Segments.FindHighestBitIsLog2 | src/utils/helpers.cpp:132-150 | the de Bruijn lookup is the floor of the binary logarithm for every positive int |
| Segments.AlternateInvolutive | src/platform/cuckoo.h:535-577 | for every even size and every hash the alternate bucket lies in the table, differs from the bucket and leads back to it |
| Segments.AlternateDigits | src/platform/cuckoo.h:535-577 | the two positions, rotated by the hash modulo the power of two, differ exactly in the digits of the hash below the power of two and below the highest digit in which the first differs from the table size, or in digit 0 if there are none |
| VacuumFilters.LargestPowerBelow | src/platform/cuckoo.h:183-185 | the largest power of two below the number of buckets |
| SemiSort.InitTables | src/platform/cuckoo.h:189-200 | the two tables are inverse on all 3876 descending nibble tuples and zero elsewhere |
| SemiSort.TablesAscend | src/platform/cuckoo.h:189-200 | the codes name the numbers with descending nibbles in ascending order |
| SemiSort.TablesUnique | src/platform/cuckoo.h:107-118 | there is only one such pair of tables, so every filter has the same |
| SemiSort.NetworkSorts | src/platform/cuckoo.h:282-296 | the five comparators sort any four fingerprints, keeping them as a multiset |
| SemiSort.DecodeEncode | src/platform/cuckoo.h:265-270 | decoding the code of a sorted bucket gives its four fingerprints back |
| SemiSort.BucketLaws | src/platform/cuckoo.h:232-346 | reading after writing gives the sorted fingerprints, within or across a word, and every other bucket is unchanged |
| SemiSort.CodeLayout | src/platform/cuckoo.h:300-312 | digit by digit, the number that stands for a bucket: low digits of the fingerprints, the last lowest, then the code of their high digits |
| SemiSort.BucketLayout | src/platform/cuckoo.h:313-345 | digit by digit, where a bucket lies in memory |
| FilterModel.Filter.Put | src/platform/cuckoo.h:287-346 | the filter after writing one bucket, as the buckets read back from it |
| FilterModel.Filter.FingerprintByTag | src/platform/cuckoo.h:217-227 | two elements have the same fingerprint exactly when their hashes are congruent modulo the number of fingerprints; a small hash is told by its fingerprint, one less |
| FilterModel.Filter.PositionCongruent | src/platform/cuckoo.h:34-37 | the bucket is congruent to the element, taken as a signed number |
| FilterModel.Filter.AltBack | src/platform/cuckoo.h:420 | the assertion of `lookup` that the two positions lead to each other |
| FilterModel.Filter.AltDigits | src/platform/cuckoo.h:535-577 | the law of the alternate bucket, for the hash of the fingerprint |
| VacuumFilters.EmptyFilter | src/platform/cuckoo.h:187 | zeroed memory is a filter in order that stores nothing |
| VacuumFilters.ConsumptionCovers | src/platform/cuckoo.h:178-187 | all buckets lie within the whole words of the allocation and within the units a full update carries |
| VacuumFilters.ConsumptionExact | src/platform/cuckoo.h:178-181 | how many bytes are allocated, by inequalities |
| VacuumFilters.UnitsLowFirst | src/platform/CRIoT.h:191-200 | which half of which word each unit of a full update is |
| VacuumFilters.VacuumFilter.Init | src/platform/cuckoo.h:144-202 | an empty filter of the size asked for, rounded up to even, generator seeded; there is only one such value |
| VacuumFilters.PristineUnique | src/platform/cuckoo.h:144-202 | a filter just initialised is determined by its sizes |
| VacuumFilters.VacuumFilter.InitWithParams | src/platform/cuckoo.h:87-119 | the fields handed in, and rebuilt tables |
| VacuumFilters.VacuumFilter.GetBucket | src/platform/cuckoo.h:232-273 | reads a bucket of the filter's value |
| VacuumFilters.VacuumFilter.SetBucket | src/platform/cuckoo.h:287-346 | writes a bucket, sorted |
| VacuumFilters.VacuumFilter.LookupInBucket | src/platform/cuckoo.h:381-399 | 1, 2 or 3 for found, not found in a full bucket, not found |
| VacuumFilters.VacuumFilter.Lookup | src/platform/cuckoo.h:401-424 | computes the lookup of the filter's value, its assertion proved |
| VacuumFilters.VacuumFilter.Insert | src/platform/cuckoo.h:586-666 | computes the insertion on the filter's value, all kick rounds and generator steps included; the emptier bucket takes the fingerprint, or a kick chain goes through its stages (`TookIn`) |
| VacuumFilters.VacuumFilter.KickChain | src/platform/cuckoo.h:631-664 | the kick loop: place, make room by moving one fingerprint over, or swap with a random victim |
| VacuumFilters.VacuumFilter.Del | src/platform/cuckoo.h:445-464 | computes the deletion on the filter's value |
| FilterEntries.KickLoopEntries | src/platform/cuckoo.h:631-664 | a kick chain of any length adds the homeless entry, or loses exactly one |
| FilterEntries.InsertEntries | src/platform/cuckoo.h:586-666 | result 0: the new entry is added; result 1: it is added and exactly one entry is lost |
| FilterEntries.DeleteEntries | src/platform/cuckoo.h:445-464 | one copy of the element's entry goes if there is one, and nothing else |
| FilterEntries.LookupExact | src/platform/cuckoo.h:401-424 | `lookup` is true exactly when the element's entry is stored, so never false for a stored element |
| FilterEntries.EntriesAreCells | src/platform/cuckoo.h:605-608 | as many entries as occupied cells |
| FilterEntries.CellsStayCounted | src/platform/cuckoo.h:436-438 | the counter of occupied cells stays right over insertions, failed ones included, and deletions |
| FilterEntries.LookupAfterInsert | src/platform/cuckoo.h:586-666 | a key just inserted is accepted; after a failed insertion, unless the entry lost was its own and there was no other |
| FilterEntries.Locality | src/platform/DASS_Tracker.h:250-304 | a successful insertion or a deletion changes lookups only of elements with the same fingerprint and bucket pair |
| FilterEntries.SameRows | src/platform/cuckoo.h:65-77 | two elements have the same entry exactly when they share fingerprint and unordered bucket pair |
| KickTrails.InsertTraced | src/platform/cuckoo.h:586-666 | the emptier bucket, the first if equal, takes the new fingerprint; with both full, the victim's slot and bucket come from the two numbers drawn, each blocked round swaps the next victim, and the chain ends where a bucket has room, or one of its fingerprints, the first, can move over |
| KickTrails.KickFails | src/platform/cuckoo.h:631-664 | a chain fails if and only if `maxKickSteps` rounds in a row find the bucket full and the other bucket of each of its fingerprints full |
| KickTrails.KickSucceeds | src/platform/cuckoo.h:631-664 | an insertion whose first victim has room in its other bucket succeeds |
| KickTrails.DeleteWhere | src/platform/cuckoo.h:445-464 | the copy in the first bucket goes if there is one, else the one in the other |
| KickTrails.LookupWhere | src/platform/cuckoo.h:401-424 | an element is accepted exactly when one of its two buckets holds the fingerprint congruent to its hash |
| KickTrails.OneKeyAccepts | src/platform/cuckoo.h:401-424 | after the first key, another one is accepted exactly when its hash is congruent and its bucket one of the two |
| TrackerModel.Accepts | src/platform/DASS_Tracker.h:673-685 | the filter accepts exactly the keys whose entry some positive key shares |
| TrackerModel.ExactAnswers | src/platform/DASS_Tracker.h:673-685 | exactness gives the right answer for every known key |
| TrackerModel.MovedTables | src/platform/DASS_Tracker.h:254-304 | moving keys between the tables on two rows moves them altogether, because they are on no other row |
| TrackerModel.BetweenScans | src/platform/DASS_Tracker.h:278-304 | after the first row there is no key left to take into the Othello on the second |
| TrackerModel.PositiveAdded | src/platform/DASS_Tracker.h:239-323 | filter, Othello and tables are exact again after a positive key and the two scans |
| TrackerModel.NegativeAdded | src/platform/DASS_Tracker.h:325-359 | exact again after a negative key, unless its value is odd and the filter accepts it |
| TrackerModel.NegativeTaken | src/platform/DASS_Tracker.h:458-474 | taking a negative key out of its two rows leaves the rest exact |
| TrackerModel.TurnedNegative | src/platform/DASS_Tracker.h:377-451 | exact again after a positive key has become negative |
| TrackerModel.OddValueMisread | src/platform/DASS_Tracker.h:325-340 | a negative key that comes with value 3 and shares its entry with a positive key is stored as 1 |
| TrackerModel.JoinedKeys | src/platform/DASS_Tracker.h:250-304 | after the two scans the Othello holds exactly the positive keys and the negative keys the new filter accepts |
| TrackerModel.OneEntryForAll | src/platform/cuckoo.h:217-227 | with a constant hash function any two keys have the same entry, so the failure of odd values has inputs |
| Growth.ReseededIs | src/platform/control_plane_othello.h:892-950 | a build ends with the first of the next fifty seeds that fits, and with no other |
| Growth.ReseededFirst | src/platform/control_plane_othello.h:892-950 | a build succeeds exactly when one of fifty seeds, two numbers apart, gives a forest, and takes the first |
| Growth.DoubledLeast | src/platform/control_plane_othello.h:255-262 | the doubling loop gives the least power-of-two multiple that reaches the target |
| Growth.EnlargedWhen | src/platform/control_plane_othello.h:246-288 | when room and sizes change, and to what |
| Growth.GrownWhen | src/platform/control_plane_othello.h:980-1014 | when an insertion grows the arrays, and when it changes the seed |
| Sizing.FullOrNot | src/platform/DASS_Tracker.h:164-184 | whether the filter takes all positive keys is decided by sizes and order of the keys |
| Sizing.TakenOrNot | src/platform/DASS_Tracker.h:187-225 | whether the Othello takes the positive keys and the false positives is decided by sizes, order of the keys and position in the random stream |
| Sizing.OthelloStuck | src/platform/control_plane_othello.h:980-1014 | an Othello that does not take its keys has met some of them that fifty seeds in a row do not fit, at a size made for all of them, further on in the random stream |
| Trackers.DassTracker.AcceptRow | src/platform/DASS_Tracker.h:254-276 | the loop that erases as it goes moves exactly the accepted keys of the row and takes them into the Othello, and fails exactly when they do not fit there; on the first row they are never members |
| Trackers.DassTracker.RejectRow | src/platform/DASS_Tracker.h:386-404 | the loop that erases as it goes moves exactly the rejected keys of the row and takes them out of the Othello |
| Trackers.DassTracker.AcceptRows | src/platform/DASS_Tracker.h:250-304 | both rows: fails exactly when the joining keys do not fit the Othello; otherwise exact once the key has the value 1 |
| Trackers.DassTracker.Insert | src/platform/DASS_Tracker.h:235-360 | asks for a rebuild if and only if the filter is too full or the keys do not fit the Othello; otherwise exact if and only if the value is storable, and flips lead to the new words; the key sets are right in any case |
| Trackers.DassTracker.SetValue | src/platform/DASS_Tracker.h:366-573 | asks for a rebuild if and only if a negative key turns positive and the filter is too full or the keys do not fit the Othello; otherwise exact with the key moved, and flips lead to the new words; values other than 0 and 1 change nothing |
| Trackers.DassTracker.TurnNegative | src/platform/DASS_Tracker.h:377-451 | always exact, never asks for a rebuild |
| Trackers.DassTracker.TurnPositive | src/platform/DASS_Tracker.h:453-571 | the same condition for a rebuild, whether or not the Othello held the key; otherwise exact |
| Trackers.DassTracker.FillOthello | src/platform/DASS_Tracker.h:218-225 | succeeds exactly when the keys, in this order and from this position in the random stream on, all get in; then valid with exactly these keys and values |
| Trackers.DassTracker.BatchInsert | src/platform/DASS_Tracker.h:156-226 | on lists of the announced sizes it succeeds exactly when, with the first fingerprint length for which the filter is not too full, the Othello takes its keys; then exact with exactly those keys; the result says whether the first length would do; on other lists nothing is inserted |
| Trackers.DassTracker.Rebuild | src/platform/DASS_Tracker.h:91-101 | from the key sets alone, listed in some order: succeeds exactly when a build from these lists does; then exact again with the same key sets |
| Trackers.DassTracker.Query | src/platform/DASS_Tracker.h:673-685 | on an exact tracker 1 for every positive and 0 for every negative key |
| Trackers.DassTracker.AnswersExact | src/platform/DASS_Tracker.h:673-685 | 1 on every positive and 0 on every negative key |
| Trackers.NeverSentinel | src/platform/DASS_Tracker.h:244-247 | a list of flips is never mistaken for the sentinel |
| Verifiers.DataPlaneOthello.MemValueFlipping | src/platform/data_plane_othello.h:227-236 | the loop replays the list |
| Verifiers.DataPlaneOthello.MirrorAnswers | src/platform/data_plane_othello.h:194-212 | a copy answers like the original for every possible key |
| Verifiers.DassVerifier.Install | src/platform/DASS_Verifier.h:35-39 | the verifier agrees with the tracker, generator state included |
| Verifiers.DassVerifier.Insert | src/platform/DASS_Verifier.h:137-177 | which filter insertion and which flips happen in each case, and when the process exits |
| Verifiers.DassVerifier.SetValue | src/platform/DASS_Verifier.h:184-223 | which deletion, insertion and flips happen in each case, decided by the old answer |
| Verifiers.DassVerifier.Dispatch | src/platform/CRIoT.h:608-631 | the action byte decides between insertion, change of value and nothing at all; state and exit are those of the specification function `After` |
| Verifiers.DassVerifier.RevokeBySentinel | src/platform/DASS_Verifier.h:207-222 | a revocation whose flips are the sentinel reaches the filter only: answered as revoked if and only if the filter accepts the key and its old Othello bit was 1 |
| Verifiers.DassVerifier.AgreementAnswers | src/platform/DASS_Verifier.h:56-74 | agreement means the same answer for every possible key |
| Codec.SplitUint | src/utils/helpers.cpp:68-84 | appends the bytes of a number, most significant first |
| Codec.NumberOfBytes | src/utils/helpers.cpp:35-84 | splitting a number that fits loses nothing |
| Codec.Combine32IsNumber | src/utils/helpers.cpp:35-46 | combining four bytes is the number they stand for |
| Codec.Combine64IsNumber | src/utils/helpers.cpp:49-66 | combining eight bytes is the number they stand for |
| Codec.EncodeFull | src/platform/CRIoT.h:81-205 | offset, width and value of every field in the bytes, and how many bytes there are |
| Codec.DecodeFull | src/platform/CRIoT.h:416-531 | for any data with these fields at these offsets, every field is recovered, whatever follows |
| Codec.EncodeBatchSummary | src/platform/CRIoT.h:213-231 | the bytes of the batch; an exception exactly for lists of different length |
| Codec.EncodeSummary | src/platform/CRIoT.h:242-290 | action, key, value, one byte for the number of flips, flips |
| Codec.DecodeSubSummary | src/platform/CRIoT.h:553-592 | reads one change and moves past it |
| Codec.DecodeBatchSummary | src/platform/CRIoT.h:537-546 | reads as many changes as the first byte says |
| Codec.SingleDelta | src/platform/CRIoT.h:242-290 | a single change arrives with any number of flips, but with only the first of them, as many as the last byte of their number says |
| Codec.BatchLayout | src/platform/CRIoT.h:213-290 | offset, width and value of every field of a batch |
| Codec.DeltaRoundTrip | src/platform/CRIoT.h:537-592 | the batch is recovered, and exactly its bytes consumed, if and only if it has at most 255 changes and, unless empty, at most 255 flips; what follows is ignored |
| Wire.Load | src/platform/CRIoT.h:445-529 | the client's fields become the decoded ones |
| Wire.UpdateBytes | src/platform/CRIoT.h:81-205 | 'F' and the fields of the stored verifier in their places |
| Wire.FullUpdate | src/platform/CRIoT.h:416-531 | after a full update as bytes the client's filter, tables and Othello equal the server's |
| Copies.SentAndDropped | src/platform/CRIoT.h:272-287 | replaying the flips that arrive and then the dropped ones is replaying the whole list; the dropped ones are of no account exactly when they cancel out |
| Copies.SentSuffices | src/platform/CRIoT.h:553-631 | where the dropped flips cancel out, any verifier gets to the same state without them |
| Criot.CriotControl.Init | src/platform/CRIoT.h:68-75 | succeeds exactly when the build from the two lists does; then exact with the given keys, and the stored verifier agrees |
| Criot.CriotControl.Insert | src/platform/CRIoT.h:297-311 | rebuilds exactly when the tracker asks for it; exact unless the rebuild gets stuck, which depends on the key sets, their order and the position in the random stream; a rebuild renews the stored verifier, an ordinary insertion leaves it as it was |
| Criot.CriotControl.SetValue | src/platform/CRIoT.h:343-355 | the same for changes of value |
| Criot.CriotControl.Leads | src/platform/CRIoT.h:608-631 | a verifier that held what the server held takes the same branch and comes to hold what the server now holds, but for the flips that are missing |
| Criot.CriotControl.StepDirect | src/platform/CRIoT.h:297-355 | one operation with its update handed over as it is: key sets as asked, exact and agreeing, or stuck in a rebuild it needed |
| Criot.CriotControl.SendFull | src/TinyCR/TinyCRServer.h:453-478 | a full update at any time gives the client what the stored verifier holds |
| Criot.CriotControl.SendDelta | src/platform/CRIoT.h:213-290 | after a delta with any number of flips the client has the server's filter and lacks exactly the dropped flips; it agrees if and only if they cancel out |
| Criot.CriotControl.Step | src/platform/CRIoT.h:213-290 | one operation with its update as bytes, delta or full: key sets as asked and exact, and the client as `SendDelta` says or agreeing |
| Criot.CriotControl.RunDirect | src/platform/CRIoT.h:297-355 | over any sequence of admissible operations: key sets as a plain ledger says, server and client exact on all known keys and equal on every possible key, unless a rebuild gets stuck |
| Criot.CriotControl.Run | src/platform/CRIoT.h:213-290 | the same with bytes, up to the first delta whose dropped flips do not cancel out, after which the server still is exact and the client lacks exactly those flips |
| Criot.CriotControl.ServeAll | src/TinyCR/TinyCRServer.h:78-174 | the server alone over any sequence of admissible operations: exact, and the changes since the last rebuild lead from the stored verifier to its state |
| Criot.CriotControl.CatchUp | src/TinyCR/TinyCRServer.h:453-478 | a client that takes a full update and then all changes since the last rebuild, as bytes, agrees; it is fed up to the first change whose dropped flips do not cancel out |
| Criot.CriotControl.RevokeCertificate | src/TinyCR/TinyCRServer.h:163-174 | the server's revocation, delta sent in any case: without a rebuild the client is as `SendDelta` says; otherwise the exact condition for its answer |
| System.WholeSystem | src/platform/CRIoT.h:68-75 | from construction, two disjoint lists, init and a full update through any operations to the answers of both sides; the first build fails exactly when `Builds` says so, and the operation that ends a run is named |
| System.LateClient | src/TinyCR/TinyCRServer.h:453-478 | the same with a client that comes after the operations and is fed the changes since the last rebuild |

## Left out

- Sockets, threads, the command parser, statistics, Docker and printing.
- Hash functions: uninterpreted; nothing is claimed about how often `build` succeeds within its 50 seeds.
- Floating-point sizes (fingerprint length, number of buckets, ratio of the two arrays): functions handed in, with the ranges they must deliver as conditions.
- VacuumFilters.VacuumFilter.Init: asks for at least 2 and fewer than 1315800 buckets and fingerprints of 4 to 16 bits. The large-filter branch of `alternate` (src/platform/cuckoo.h:578-582) takes its ranges from floating-point code and is not part of this model. With fewer than four positive keys the source itself asks for no buckets at all (src/platform/DASS_Tracker.h:123-127).
- `DASS_Tracker::erase` and the remove action, which the source marks as not implemented, and `CRIoT_Control_VO::batch_insert`, which takes a key for a pair.
- The variants of Othello operations without flip lists (`erase`, `valueFlip`, `connectBFS`, `fixHalfTreeDFS`): same steps, nothing recorded. `Insert` uses the on-demand repair and drops the list.
- Cell widths other than one bit in the Othello itself, digest bits, `compose`, `prepareDP`, the randomized variants.
- Trackers.DassTracker.BatchInsert: the recursive retry with longer fingerprints is bounded by `retries`, because it depends on random kicks whether it ends; an Othello gets at most 2^24 keys (`KEY_LIMIT`), positive and false positive together, which keeps the 32-bit sizes from wrapping; a retry asks for as many buckets as the first attempt, which the source does when its load factor is 0.95.
- Trackers.DassTracker.Insert: asks its caller for a new key and for room in the Othello arrays for the keys that join on demand (`RoomFor`); the source never grows the arrays there and does not check.
- Trackers.DassTracker.Init: a filter is handed on as an object, the freeing and allocation of its memory is not modelled.
- SemiSort.InitTables: table entries that no bucket code uses are zero in the model and left uninitialised by the source, which never reads them.
- Codec.DecodeFull: of data that do not begin with a full update nothing is said but that reading past the end gives no result, where the source reads on. The text of the generator state is taken by its length, while the source hands an unterminated buffer to a string stream (src/platform/CRIoT.h:458-474).
- Codec.Combine32IsNumber: the shift of a byte by 24 places goes through a signed int in the source; the model adds natural numbers.
- Criot.CriotControl.Run: ends with a delta whose dropped flips do not cancel out; what a client that lacks flips makes of later deltas is said by `After`, one delta at a time, up to the next full update.
- Criot.CriotControl.Insert: a rebuild lists the keys of the two sets in some order, as the program's hash sets do; success and failure are stated for the order that was taken.
- A batch of 70 changes, whose first byte a client takes for the mark of a full update (src/TinyCR/TinyCRClient.h:193).
- Little-endian memory is assumed where 64-bit words are sent as 32-bit units.
