# A verified model of CRDV's clocks, lists, replication and nested views

CRDV keeps conflict-free replicated data in PostgreSQL tables: every write becomes a row with a
vector clock, the rows travel between sites by logical replication, and reads show the rows that no
other row supersedes. This project models the parts of that design whose correctness is least
obvious and proves what they are for.

**Clocks.** `Clocks` has the vector-clock order and merge of the `clocks` extension and the in-place
merge of the benchmark; `HybridClock` iterates `next_hlc` over arbitrary wall-clock readings.

**The causal present.** `CausalPresent` models the read query of the array-encoded benchmark table
stage by stage: it keeps only rows that reach the per-site maximum of some column, joins them with
themselves on differing clocks, and drops the dominated ones. That is wrong on arbitrary clocks, and
the exact condition under which it is right is proved for every table. `History` is the tick and
merge state machine that makes clocks, its knowledge invariant, and the proof that on every history
the query is exact if and only if two distinct clocks exist (its inner self-join returns nothing
otherwise). `Generator` is the simulator itself, whose loops take exactly the steps that its random
choices ask for. `ArraySchema` continues with writes: which choice among ties in CurrentTime keeps the
query exact, with a run of the simulator on which the other choice loses a row. `CubeSchema` and
`RowSchema` are the two other encodings of the same clocks, refined to the first one: boxes with an
incrementally maintained bound, and one row per clock entry. `Rolls` counts the rows that the
simulator makes.

**Replication.** `Ring` is the wiring that `createCluster.py` computes; `RingDelivery` is the machine
it produces (append-only logs, one subscriber cursor per site, FIFO links), with causal delivery,
exactly-once delivery, convergence, and the exact number of forwarding steps after which every log
holds everything written. `Crdv`
puts the merge procedure, the timestamp query and the view over unmerged rows on top: merging is the
causal present in any order, both read modes show the same rows in every run of a system whose rows
arrive and are merged in any order, and a quiet ring shows the same data everywhere, however much
each site has merged. Writes may be stamped from any rows that leave none of the site's own unseen,
which the default modes guarantee; the one combination of modes that does not is shown to fail.
`RingWrites` follows a single write: it is stored with its columns, and once the ring is quiet every
site shows it or a row that supersedes it. `PhysicalView` adds the column by which the view groups the rows of both tables, and when that
grouping loses a copy.

**Lists.** `ListIds` models the generator of position identifiers, with the exact condition for its
result to lie between its bounds, the string form that it preserves, and closed forms for the n-th
identifier. `NativeList` is the list table keyed by those identifiers, refined to a plain sequence.
`SitePositions` adds the site id that replicated lists append to an identifier, and says which sites
can produce one position twice. `ListLookups` is the lookup of an index in such a list, and says where
an insert falls. `FallbackIds` is the query that generates identifiers where the
extension is not installed, and when it agrees with the extension.

**Nested views.** `NestedViews` holds the views, the recursively defined nested values and the plans
the compiler emits, with the key of every join; `NestedJoins` what those keys join; `NestedQuery` the
loops that build a plan; `NestedPlans` what a plan may yield
when every stage passes on its rows in any order it likes; `NestedPairs` why the ordered aggregates
do not notice; `NestedCorrect` the layers of GROUP BY over the joined rows; and `NestedTheorem` the
proof that a plan yields exactly the nested values. `NestedExample` is the documented map of sets. `Options` and `Sequences` are shared.

Where the code and its own comments differ the model follows the code:

- `merge` announces a check for an operation that was already applied, but only looks for newer
  operations, so a second copy of a current row stays, and only of a current row
  (`Crdv.MergeAgainIff`).
- The site id behind a list position does not always ensure uniqueness: two sites never produce the
  same position exactly when the digits of neither id end with those of the other
  (`SitePositions.SitesCollideIff`, `SitePositions.SitesCanCollide`).
- Adding to a replicated list is documented for every index. Past the end both neighbours are missing,
  and the position is that of a first insert (`ListLookups.PastTheEnd`), so that a site's second
  insert can overwrite its first (`ListLookups.SecondInsertReplaces`). Within the list an insert falls
  at its index exactly when its neighbours differ (`ListLookups.InsertFallsIff`).
- The generator in plain SQL announces that it keeps all characters up to the first difference other
  than zero and one; its running sum can return to zero, and it also stops at a negative difference,
  where the extension goes on. It keeps the rows that the extension fills exactly when the first
  such difference is positive and the sum never returns (`FallbackIds.KeptRowsIff`).
- `DataAll` says that Local and Shared always hold different data; a row that arrives again after it
  was merged is in both, and the view shows one of the two exactly when they have the same ctid
  (`PhysicalView.ViewIff`). Over the ring no row arrives twice.
- The buffer of `generateVirtualIndexBetween` is a byte short for the terminator in exactly the cases
  of `ListIds.BufferOverrunIff`, the first insert into a list among them.
- `generateHistory` makes one row per item more than asked for exactly when the bound falls inside a
  site's turn (`Generator.GenerateClocks`, `Rolls.InsideIsNotReached`), and does not end with no sites
  and something to do (`Rolls.EndsIff`).
- The CurrTime query of the box encoding returns the key before the clock
  (`CubeSchema.CurrTimeBoxesAddsKey`); `insertRow` ignores its third argument.

Clock entries, wall-clock readings and identifiers of rows are unbounded integers. Rows of a table
are a sequence in insertion order, query results are sets, bags or sequences as their consumers see
them. Wall-clock readings and the random choices of the simulator are arbitrary.

## Model

| member | source | states |
|---|---|---|
| Clocks.VClockLte | schema/clocks/clocks.c:28-53 | the loop decides the pointwise order, false when the first clock is longer |
| Clocks.VClockMax | schema/clocks/clocks.c:59-88 | a fresh array with the join, on any two lengths |
| Clocks.LteTransitive | schema/clocks/clocks.c:41-52 | the order is transitive on clocks of any lengths |
| Clocks.LteIsPartialOrder | schema/clocks/clocks.c:41-52 | reflexive, and antisymmetric down to equality of the arrays |
| Clocks.JoinIsLeastUpperBound | schema/clocks/clocks.c:72-84 | the merge is an upper bound and below exactly the upper bounds of both clocks |
| Clocks.JoinIsSemilattice | schema/clocks/clocks.c:72-84 | idempotent, commutative, associative, and the order is recovered from it |
| Clocks.MergeClocks | benchmarks/benchmark/timestampEncoding/row/row.go:11-15 | in place, v1 becomes the join with the part of v2 it covers; on equal lengths the same merge as vclock_max, also when both are one slice |
| HybridClock.NextHlc | schema/clocks/clocks.c:103-110 | the new timestamp is later than the old one and its physical part the larger of the old one and the reading |
| HybridClock.BeforeIsTotal | schema/clocks/clocks.c:103-110 | the order of timestamps by physical and then logical part is strict and total |
| HybridClock.RunStrictlyIncreases | schema/clocks/clocks.c:103-110 | for all readings, even going back, every later timestamp is larger than every earlier one |
| HybridClock.PhysicalIsRunningMax | schema/clocks/clocks.c:103-110 | the physical part is the maximum of the start and all readings, and is one of them |
| HybridClock.LogicalCountsCallsSinceRise | schema/clocks/clocks.c:103-110 | the logical part is the number of calls since that maximum last rose |
| CausalPresent.ColMaxIsMaximum | benchmarks/benchmark/timestampEncoding/schema/arraySchema.go:72-75 | each recomputed maximum bounds its column over the key's rows and is reached; NULL exactly without rows |
| CausalPresent.ReachesMaxIff | benchmarks/benchmark/timestampEncoding/schema/arraySchema.go:60-64 | a row is selected for a site iff no row of its key has a larger entry there |
| CausalPresent.JoinMembers | benchmarks/benchmark/timestampEncoding/schema/arraySchema.go:81-87 | over any rows, of one key or many: the self-join and its grouping keep a row iff its key has another clock and none above it |
| CausalPresent.ReadKeyMembers | benchmarks/benchmark/timestampEncoding/schema/arraySchema.go:81-87 | join, grouping and having together: kept, some other clock kept, and no kept clock above |
| CausalPresent.Climb | benchmarks/benchmark/timestampEncoding/schema/arraySchema.go:82-87 | every row is current or below a current row of its key |
| CausalPresent.ReadKeyExactIff | benchmarks/benchmark/timestampEncoding/schema/arraySchema.go:67-88 | for every table: the query returns exactly the undominated rows iff each reaches a maximum and two clocks are kept (or the key has no rows) |
| CausalPresent.ReadAllExactIff | benchmarks/benchmark/timestampEncoding/schema/arraySchema.go:98 | reading all keys is exact iff reading each of them is |
| CausalPresent.ReadKeyEmptyWithoutTwoClocks | benchmarks/benchmark/timestampEncoding/schema/arraySchema.go:84 | with one clock kept the inner self-join is empty and nothing is read |
| CausalPresent.ReadKeyWrongOnArbitraryClocks | benchmarks/benchmark/timestampEncoding/schema/arraySchema.go:58-88 | (2,2) among (3,1) and (1,3) is undominated and not read |
| CausalPresent.BeatenIsNotRead | benchmarks/benchmark/timestampEncoding/schema/arraySchema.go:58-88 | on every table the selection drops exactly the rows that some row of their key exceeds in each column, and those are not read |
| CausalPresent.CurrTimeIsJoin | benchmarks/benchmark/timestampEncoding/schema/arraySchema.go:90-94 | the CurrTime query is the fold of vclock_max over all rows of the key |
| CausalPresent.CurrTimeFromPresent | benchmarks/benchmark/timestampEncoding/schema/arraySchema.go:90-94 | and over the undominated rows alone it is the same |
| Generator.InitClocks | benchmarks/benchmark/timestampEncoding/timestampEncoding.go:31-33 | separate zero slices, one per site |
| Generator.Apply | benchmarks/benchmark/timestampEncoding/timestampEncoding.go:37-49 | a tick or merge on the shared slices is a step of the state machine and its copy the new row's clock |
| History.InvariantHolds | benchmarks/benchmark/timestampEncoding/timestampEncoding.go:35-55 | in every run: no clock exceeds a site's own entry, clocks know what they count, every ticked site has a row that leads its column |
| History.KnowledgeOfRows | benchmarks/benchmark/timestampEncoding/timestampEncoding.go:35-55 | a clock that counts more of a row's producer than the row does is above the whole row |
| History.KnowledgeCovers | benchmarks/benchmark/timestampEncoding/schema/arraySchema.go:58-65 | with that knowledge every undominated row reaches a maximum |
| History.TwoClocksAreKept | benchmarks/benchmark/timestampEncoding/schema/arraySchema.go:84 | on at least two sites, two clocks in a history leave two clocks after the selection |
| History.ReadExactOnHistories | benchmarks/benchmark/timestampEncoding/schema/arraySchema.go:58-88 | for every run of ticks and merges: exact iff the run is empty or has two sites and two distinct clocks |
| History.ReadExactOnceTwoSitesTicked | benchmarks/benchmark/timestampEncoding/schema/arraySchema.go:58-88 | once two sites have ticked the query returns exactly the rows no other row of the key dominates |
| Generator.MergeStepsAre | benchmarks/benchmark/timestampEncoding/timestampEncoding.go:43-53 | the planned merges of a turn are those of its site with exactly the sites that the choices name, in increasing order |
| Generator.TurnsArePlanned | benchmarks/benchmark/timestampEncoding/timestampEncoding.go:35-55 | of every turn the rows up to where the generator stops come from its tick and its planned merges, in that order, and carry its site |
| Generator.MergeOthers | benchmarks/benchmark/timestampEncoding/timestampEncoding.go:43-53 | the loop over the other sites makes the planned merges of the turn's site, from the first on, until the bound |
| Generator.SiteTurn | benchmarks/benchmark/timestampEncoding/timestampEncoding.go:36-54 | one site's tick and its planned merges, and where the counter ends: at the end of the turn, or one past the bound when the bound falls inside it |
| Generator.GenerateClocks | benchmarks/benchmark/timestampEncoding/timestampEncoding.go:35-55 | the loops yield exactly the clocks of the planned steps, turn by turn: ops of them if some turn ends with ops rows, else ops + 1 |
| Generator.PlannedTicks | benchmarks/benchmark/timestampEncoding/timestampEncoding.go:35-55 | with more operations than sites the first two sites have ticked |
| Generator.GenerateHistory | benchmarks/benchmark/timestampEncoding/timestampEncoding.go:26-64 | item by item, the rows carry all clocks of the planned steps in order, and their number is exact; with two sites and more ops than sites every key is read exactly |
| Rolls.InsideIsNotReached | benchmarks/benchmark/timestampEncoding/timestampEncoding.go:35-55 | a bound that falls strictly inside one turn is met exactly by no turn |
| Rolls.MergingAtOnceMisses | benchmarks/benchmark/timestampEncoding/timestampEncoding.go:43-50 | two sites of which the first merges in its first turn: a bound of one operation gives two rows |
| Rolls.EndsIff | benchmarks/benchmark/timestampEncoding/timestampEncoding.go:35-36 | whole rounds reach the bound iff there are sites or nothing is to be done |
| ArraySchema.ArrayTables.Populate | benchmarks/benchmark/timestampEncoding/schema/arraySchema.go:16-48 | the rows as given, and for each key some row reaching the maximum of site 1 as its current time |
| ArraySchema.ArrayTables.NextTime | benchmarks/benchmark/timestampEncoding/schema/arraySchema.go:100 | increases entry 1 of the key's current time and returns it; nothing for other keys |
| ArraySchema.ArrayTables.WriteTxn | benchmarks/benchmark/timestampEncoding/timestampEncoding.go:146-158 | the new row enters the causal present and displaces exactly the rows below it; other keys read the same |
| ArraySchema.ArrayTables.ReadKeyStatement | benchmarks/benchmark/timestampEncoding/schema/arraySchema.go:96 | at any time the result is the causal present of the key iff, written to, there are two sites and the tie was chosen safely, and, not yet written to, the populated table is read exactly for it |
| ArraySchema.ArrayTables.ReadAllStatement | benchmarks/benchmark/timestampEncoding/schema/arraySchema.go:98 | reading all keys is exact iff that holds for each of them, written to or not |
| ArraySchema.ConsistentReadIff | benchmarks/benchmark/timestampEncoding/schema/arraySchema.go:96-102 | for every populated table, starting clocks and sequences of writes to any keys: a key not written to is read exactly iff it was in the populated table, a written one iff there are two sites and its tie was chosen safely |
| ArraySchema.ConsistentReadAllIff | benchmarks/benchmark/timestampEncoding/schema/arraySchema.go:98-102 | and all keys together are read exactly iff each of them is, by that condition |
| ArraySchema.PresentAfterInsert | benchmarks/benchmark/timestampEncoding/schema/arraySchema.go:102 | the causal present after any insert |
| ArraySchema.LatestLeads | benchmarks/benchmark/timestampEncoding/schema/arraySchema.go:100-102 | after any number of writes the last one is current and alone leads site 1 |
| ArraySchema.CurrentAfterWrites | benchmarks/benchmark/timestampEncoding/schema/arraySchema.go:100-102 | after any number of writes: the last write, and the old current rows not below the starting clock |
| ArraySchema.ReadExactAfterWritesIff | benchmarks/benchmark/timestampEncoding/schema/arraySchema.go:58-102 | for every table, starting clock and sequence of writes: exact iff two sites and a safe tie choice |
| ArraySchema.CoversOwnIsTieSafe | benchmarks/benchmark/timestampEncoding/schema/arraySchema.go:37-46 | on histories a choice above all rows of site 1 is safe |
| ArraySchema.WriteKeepsKnowledgeIff | benchmarks/benchmark/timestampEncoding/schema/arraySchema.go:37-46 | a write keeps the knowledge invariant iff the starting clock is above all rows of site 1, and then so is the next |
| ArraySchema.WritesKeepKnowledgeIff | benchmarks/benchmark/timestampEncoding/schema/arraySchema.go:37-46 | any number m of successive writes keeps it iff m is zero or the starting clock is above all rows of site 1 |
| ArraySchema.BadTieLosesARow | benchmarks/benchmark/timestampEncoding/schema/arraySchema.go:37-46 | a run, a tie choice the statement allows, and one write after which a current row is no longer read |
| ArraySchema.OtherKeyUntouched | benchmarks/benchmark/timestampEncoding/schema/arraySchema.go:67-88 | inserts leave reads of other keys alone |
| CubeSchema.BuildBox | benchmarks/benchmark/timestampEncoding/schema/cubeSchema.go:31-46 | the loops build the box from (k, 0, ...) to (k, clock) |
| CubeSchema.DecodeEncode | benchmarks/benchmark/timestampEncoding/schema/cubeSchema.go:135-139 | the projection of the read query recovers the clock |
| CubeSchema.ContainsIsLte | benchmarks/benchmark/timestampEncoding/schema/cubeSchema.go:152 | containment of boxes of one key is the pointwise order, and equal boxes are equal clocks |
| CubeSchema.MatchesIsReachesMax | benchmarks/benchmark/timestampEncoding/schema/cubeSchema.go:114-133 | a box contains the bound's point for a site iff its row has the key and reaches the maximum |
| CubeSchema.UnionIsLeastBox | benchmarks/benchmark/timestampEncoding/schema/cubeSchema.go:93-108 | the union that the trigger keeps is the smallest box with both boxes in it |
| CubeSchema.CoordMaxIs | benchmarks/benchmark/timestampEncoding/schema/cubeSchema.go:160-169 | each aggregated coordinate bounds that coordinate over the key's boxes and is reached |
| CubeSchema.CubeReadIsArrayRead | benchmarks/benchmark/timestampEncoding/schema/cubeSchema.go:141-158 | row by row, the box query returns what the array query returns |
| CubeSchema.CubeReadEqualsArrayRead | benchmarks/benchmark/timestampEncoding/schema/cubeSchema.go:141-173 | the whole result of ReadAll over boxes is that of ReadAll over arrays |
| CubeSchema.CurrTimeBoxesAddsKey | benchmarks/benchmark/timestampEncoding/schema/cubeSchema.go:160-169 | CurrTime over boxes is the key followed by CurrTime over arrays |
| CubeSchema.TriggerKeepsBounds | benchmarks/benchmark/timestampEncoding/schema/cubeSchema.go:93-108 | after the trigger each kept bound equals the bound recomputed from the whole table |
| CubeSchema.NextBoxIsAhead | benchmarks/benchmark/timestampEncoding/schema/cubeSchema.go:175-190 | NextTime on a box is NextTime on the clock it holds |
| CubeSchema.CubeTables.Populate | benchmarks/benchmark/timestampEncoding/schema/cubeSchema.go:16-109 | boxes of the rows, tight bounds per key, and a starting box reaching the maximum of site 1 |
| CubeSchema.CubeTables.Insert | benchmarks/benchmark/timestampEncoding/schema/cubeSchema.go:93-108 | an insert with its trigger keeps boxes and bounds in step with the array table |
| CubeSchema.CubeTables.WriteTxn | benchmarks/benchmark/timestampEncoding/timestampEncoding.go:146-158 | a write refines the write on the array table |
| CubeSchema.CubeTables.ReadBoxesOf | benchmarks/benchmark/timestampEncoding/schema/cubeSchema.go:141-173 | after any writes the query over boxes, for one key or all, returns what the array query returns |
| CubeSchema.CubeTables.ReadKeyStatement | benchmarks/benchmark/timestampEncoding/schema/cubeSchema.go:171 | and it is the causal present of a key on the same condition as over arrays, written to or not |
| CubeSchema.CubeTables.ReadAllStatement | benchmarks/benchmark/timestampEncoding/schema/cubeSchema.go:173 | the same over all keys |
| RowSchema.AggOfSpread | benchmarks/benchmark/timestampEncoding/schema/rowSchema.go:80 | aggregating a clock's entry rows ordered by site gives the clock back, in whatever order they are stored |
| RowSchema.SplitRows | benchmarks/benchmark/timestampEncoding/schema/rowSchema.go:22-42 | the loops produce data and entry rows that stand for exactly the given table |
| RowSchema.SiteMaxIsColMax | benchmarks/benchmark/timestampEncoding/schema/rowSchema.go:86-93 | the per-site maxima are those of the array encoding |
| RowSchema.CurrTimeRowsIsCurrTime | benchmarks/benchmark/timestampEncoding/schema/rowSchema.go:107-115 | so is the CurrTime query |
| RowSchema.RowReadIsArrayRead | benchmarks/benchmark/timestampEncoding/schema/rowSchema.go:76-105 | the query over entry rows returns what the query over arrays returns |
| RowSchema.RowReadAllIsArrayRead | benchmarks/benchmark/timestampEncoding/schema/rowSchema.go:76-119 | the query over all keys, with the key carried through its joins, returns what the array query over all keys returns |
| RowSchema.EncodesInsert | benchmarks/benchmark/timestampEncoding/schema/rowSchema.go:123-136 | a new tid with the entries of a clock, in any order, adds exactly that row |
| RowSchema.BumpIsAhead | benchmarks/benchmark/timestampEncoding/schema/rowSchema.go:121 | updating the row of site 1 in CurrentTime advances the clock it holds |
| RowSchema.ChooseNow | benchmarks/benchmark/timestampEncoding/schema/rowSchema.go:54-69 | distinct on (k, site) may mix tied rows, and any mix is a starting clock for the writes |
| RowSchema.RowTables.Populate | benchmarks/benchmark/timestampEncoding/schema/rowSchema.go:15-71 | the three tables stand for the given rows, numbered from zero, with a starting clock per key, and the sequence goes on two past the last number |
| RowSchema.RowTables.WriteTxn | benchmarks/benchmark/timestampEncoding/schema/rowSchema.go:121-140 | NextTime and insertRow refine the write on the array table, under the next number |
| RowSchema.RowTables.ReadKeyStatement | benchmarks/benchmark/timestampEncoding/schema/rowSchema.go:117 | the read of a key of CurrentTime is the array read, of another key empty, and exact on the same condition, written to or not |
| RowSchema.RowTables.ReadAllStatement | benchmarks/benchmark/timestampEncoding/schema/rowSchema.go:119 | reading all keys of CurrentTime is the array read, and exact on the same condition |
| Ring.ReplicateIsWired | schema/createCluster.py:72-75 | the condition subscribes a site exactly to its predecessor on the circle |
| Ring.NextIdIsSucc | schema/createCluster.py:84-86 | nextId is the successor on the circle |
| Ring.Cluster.ConnectSite | schema/createCluster.py:67-87 | one pass of the inner loop sets exactly the site's subscriptions and its publication |
| Ring.Cluster.ConnectSites | schema/createCluster.py:63-87 | afterwards subscriptions and publications are those of the ring, or of the full mesh |
| RingDelivery.FullMeshPassesOwn | schema/createCluster.py:67-87 | without the ring every site reads from every other, and is sent exactly the rows that one wrote |
| RingDelivery.MachineFollowsWiring | schema/createCluster.py:71-87 | the machine's links and stops are the ones the script wires |
| RingDelivery.InvHolds | schema/createCluster.py:63-87 | in every reachable state logs hold numbered rows of their writers, in order, exactly as far as they were read |
| RingDelivery.CausalDelivery | schema/createCluster.py:63-87 | whatever a site held before a write precedes that write in every log holding it |
| RingDelivery.DeliveredAtMostOnce | schema/createCluster.py:82-87 | no log holds a row twice, and each writer's rows are in its order |
| RingDelivery.ForwardKeepsOwnRows | schema/createCluster.py:82-87 | no row ever returns to its origin |
| RingDelivery.QuiescentConverges | schema/createCluster.py:63-87 | with nothing left to forward all logs hold the same rows |
| RingDelivery.DeliveredExactlyOnce | schema/createCluster.py:63-87 | and every row written anywhere is in each of them once |
| RingDelivery.WriteStep | schema/createCluster.py:71-87 | a write puts its row, numbered, behind the log of its site and nothing else, and adds n forwarding steps: n - 1 hops and the stop before its origin |
| RingDelivery.ForwardStep | schema/createCluster.py:71-87 | forwarding where a row waits moves the cursor past it, adds it to the log unless the site wrote it, and takes one off the measure |
| RingDelivery.NothingOwedIsQuiescent | schema/createCluster.py:71-87 | the measure is zero iff nothing is left to forward |
| RingDelivery.DrainsExactly | schema/createCluster.py:71-87 | after any run, any forwarding schedule ends within the measure, quiet exactly when it has used it up |
| RingDelivery.SomeDrain | schema/createCluster.py:71-87 | and a schedule that uses it up exists in every reachable state |
| RingDelivery.OwnRowsAreWritten | schema/createCluster.py:71-87 | after any run a site's own rows in its log are what it wrote, in order |
| RingDelivery.DrainedHoldsAll | schema/createCluster.py:71-87 | after any run and the steps owed, in any order, every log holds of every site exactly what it wrote in the whole run, in order |
| Crdv.MergeIsPresent | schema/sql/05-functions.sql:284-334 | merging rows one by one leaves exactly the rows of the causal present |
| Crdv.MergeOrderIrrelevant | schema/sql/05-functions.sql:312-334 | merging the same rows in any order leaves the same rows |
| Crdv.MergeKeepsDuplicates | schema/sql/05-functions.sql:319-329 | a second copy of a current row is stored beside it |
| Crdv.MergeAgainIff | schema/sql/05-functions.sql:319-329 | merging a row again changes nothing iff the row is no longer current |
| Crdv.Site.Merge | schema/sql/05-functions.sql:312-334 | Local stays the causal present of everything merged |
| Crdv.Site.MergeBatch | schema/sql/05-functions.sql:346-361 | a batch in any order moves its rows from Shared to the merged ones and loses none |
| Crdv.DataAllExactIff | schema/sql/05-functions.sql:155-182 | the rows that the view over unmerged rows admits are the causal present iff each current row reaches a maximum; copies that its grouping makes one are PhysicalView's |
| Crdv.PresentAfterPartialMerge | schema/sql/05-functions.sql:312-334 | merging some rows first does not change what is current |
| Crdv.TimestampFromPruned | schema/sql/05-functions.sql:127-147 | merging rows never changes the next timestamp |
| Crdv.SystemInv | schema/sql/05-functions.sql:127-147 | for sites writing and receiving rows in any order, each write stamped from any received rows that leave none of the site's own unseen: clocks are backed by rows and know what they count |
| Crdv.PutEffect | schema/sql/05-functions.sql:337-341 | a write puts one row with its id, key, data and site, and the least clock above all readable rows of the structure, behind the rows of its site, and nothing else |
| Crdv.DeliverEffect | schema/sql/05-functions.sql:337-341 | an arrival puts a copy of the row it names behind the rows of the site, and nothing else |
| Crdv.LocalIsReadable | schema/sql/04-views.sql:63-65 | Local with any of the waiting rows is such a set as long as the site's own rows are merged or read: the default mode with synchronous writes, and read mode all |
| Crdv.OwnRowsFollowIff | schema/sql/05-functions.sql:127-147 | a write follows all earlier writes of its site to the structure iff it is stamped from such a set |
| Crdv.UnreadWriteIsRepeated | schema/sql/05-functions.sql:496-546 | asynchronous writes with read mode local: two writes to one element carry one clock, and both stay |
| Crdv.DataAllExact | schema/sql/05-functions.sql:155-182 | so on any rows of a running system the view is exact |
| Crdv.ReadModesAgree | schema/sql/05-functions.sql:496-530 | in every run, with any of a site's rows merged in any order, reading merged and waiting rows together shows what the merged table will hold |
| Crdv.WriteSupersedesVisible | schema/sql/05-functions.sql:127-147 | after a write its element shows the new row and exactly the current rows the site had not read of |
| Crdv.WriteSupersedesIff | schema/sql/05-functions.sql:127-147 | the new row is above a row of its element iff a row it was stamped from counts that row, and below none |
| Crdv.RingReplicasConverge | schema/createCluster.py:63-87 | over a quiet ring any two sites show the same rows in both read modes, whatever part of them each has merged, in whatever order |
| RingWrites.WriteIsStored | schema/sql/05-functions.sql:337-341 | over the ring a write from readable rows puts one row with its columns, under the least clock above all of them, behind the log of its site and nothing else |
| RingWrites.QuietHasAll | schema/createCluster.py:63-87 | once the ring is quiet a row is at one site iff it is at any other |
| RingWrites.WriteIsShown | schema/createCluster.py:63-87 | after a write and anything that follows, once the ring is quiet, every site shows it or a row of its element above it, in both read modes, whatever it has merged |
| RingWrites.RingGoesQuiet | schema/createCluster.py:63-87 | after any commands the ring goes quiet by as many passes as are owed |
| PhysicalView.ViewIff | schema/sql/05-functions.sql:155-182 | over any contents of the two tables, grouped with the ctid the view shows the same rows, and every copy of them iff no current row is in both tables under one ctid |
| PhysicalView.ViewAgrees | schema/sql/04-views.sql:8-13 | in every run, whatever is merged: the view shows the rows that the merged table will hold, and each as often iff no current row is in both tables under one ctid |
| PhysicalView.RingRowsAreDistinct | schema/createCluster.py:63-87 | over the ring no site ever receives two equal rows |
| PhysicalView.RingViewsConverge | schema/createCluster.py:63-87 | so over a quiet ring the grouped views of any two sites show the same rows equally often, whatever each has merged, under any ctids |
| ListIds.LessIsTotal | benchmarks/benchmark/engines/native/native.go:45 | byte order is a strict total order |
| ListIds.GenerateVirtualIndexBetween | schema/list_ids/list_ids.c:53-81 | the C string in the buffer is the one text that consists of the padded lower bound's characters while nothing fits, and then of the mode's character between the padded bounds; NULL counts as empty |
| ListIds.FillBuffer | schema/list_ids/list_ids.c:57-76 | the loop fills the buffer with the generated string, at most one character longer than its bounds, and the terminator |
| ListIds.MadeIff | schema/list_ids/list_ids.c:34-74 | for all bounds and in every mode exactly one text has this form, the generated one: the last character is c1 + 1, c2 - 1 or the half of c1 + c2 rounded down |
| ListIds.BufferOverrunIff | schema/list_ids/list_ids.c:60-76 | the terminator lands past the allocated buffer iff no character fits between the padded bounds before both end |
| ListIds.FirstInsertOverruns | schema/list_ids/list_ids.c:60-76 | the first insert into an empty list is such a case in every mode |
| ListIds.AppendOverrunsIff | schema/list_ids/list_ids.c:60-76 | of successive appends exactly those that lengthen the position are: one in 93 in appends mode, one in 7 in regular mode |
| ListIds.AboveLower | schema/list_ids/list_ids.c:63-74 | for all bounds, ordered or not, the result is above the lower one |
| ListIds.BelowUpperIff | schema/list_ids/list_ids.c:63-74 | it is below the upper one iff the lower bound padded with ! is |
| ListIds.GenerateIsBetween | schema/list_ids/list_ids.c:34-76 | for canonical bounds, in all three modes, strictly between, canonical, and short |
| ListIds.NothingFitsBeforePadding | schema/list_ids/list_ids.c:63-74 | between p and p! nothing is generated, for every p |
| ListIds.NthAppendInAppendsMode | schema/list_ids/list_ids.c:40-42 | the n-th append is (n-1)/93 tildes and the character 34 + (n-1) mod 93 |
| ListIds.NthPrependInPrependsMode | schema/list_ids/list_ids.c:46-48 | the mirror image for prepends |
| ListIds.NthAppendInRegularMode | schema/list_ids/list_ids.c:34-36 | one character more every 7 appends |
| ListIds.NthPrependInRegularMode | schema/list_ids/list_ids.c:34-36 | and every 6 prepends |
| NativeList.MinAndMax | benchmarks/benchmark/engines/native/list.go:49-69 | over any rows the two aggregates bound every position and are one of them |
| NativeList.StepRefinesPlain | benchmarks/benchmark/engines/native/list.go:47-74 | every statement keeps positions canonical and strictly sorted and acts on the values as on a plain sequence; it fails exactly on negative indexes |
| NativeList.RunRefinesPlain | benchmarks/benchmark/engines/native/list.go:47-74 | so does every sequence of operations in any mix of modes |
| NativeList.ListTable.InsertRow | benchmarks/benchmark/engines/native/list.go:49-61 | an insert fails iff the position is taken, and otherwise puts the row between the smaller and the larger positions |
| NativeList.ListTable.Add | benchmarks/benchmark/engines/native/list.go:100-103 | inserts at min(index, length), under the position generated between the neighbours in the mode in force; other lists keep their rows |
| NativeList.ListTable.Append | benchmarks/benchmark/engines/native/list.go:105-108 | adds at the end, under the position generated above the largest in the mode in force |
| NativeList.ListTable.Prepend | benchmarks/benchmark/engines/native/list.go:110-113 | adds at the front, under the position generated below the smallest in the mode in force |
| NativeList.ListTable.Rmv | benchmarks/benchmark/engines/native/list.go:115-118 | removes at the index if in range |
| NativeList.ListTable.Clear | benchmarks/benchmark/engines/native/list.go:120-123 | empties one list |
| NativeList.ListTable.Get | benchmarks/benchmark/engines/native/list.go:78-87 | the values in position order |
| NativeList.ListTable.GetAt | benchmarks/benchmark/engines/native/list.go:89-98 | the value at the index, the empty string past the end, an error below zero |
| NativeList.ListTable.Populate | benchmarks/benchmark/engines/native/list.go:21-43 | a populated list holds exactly the closed-form positions of successive appends |
| SitePositions.DecimalReadsBack | schema/sql/05-crdts/02-functions/list.sql:180 | the digits of a site id read back as the id, without leading zeros |
| SitePositions.SuffixKeepsBetween | schema/sql/05-crdts/02-functions/list.sql:165-207 | the site id behind a generated position never moves it past a bound: above the lower one for all bounds, and below the upper one iff the generated text is |
| SitePositions.PositionIsBetween | schema/sql/05-crdts/02-functions/list.sql:165-207 | between canonical positions the new one is strictly between and canonical |
| SitePositions.SitesCollideIff | schema/sql/05-crdts/02-functions/list.sql:180-205 | for any two sites and in every mode: some canonical ordered bounds make the two produce one position iff the digits of one id end with those of the other |
| SitePositions.CollideIff | schema/sql/05-crdts/02-functions/list.sql:180-205 | two given texts make them do so iff, besides, one text continues the other with the remaining digits |
| SitePositions.EqualDigitsAreUnique | schema/sql/05-crdts/02-functions/list.sql:180-205 | with equally many digits only the same site with the same text gives the same position |
| SitePositions.SitesCanCollide | schema/sql/05-crdts/02-functions/list.sql:180-205 | sites 1, 9 and 51: concurrent inserts after which sites 1 and 51 have produced the same position |
| ListLookups.InsertFallsIff | schema/sql/05-crdts/02-functions/list.sql:165-183 | for every index up to the length, an insert falls at it iff its two neighbours have different positions |
| ListLookups.PastTheEnd | schema/sql/05-crdts/02-functions/list.sql:165-183 | past the end the position is that of a first insert, whatever the list, and it is an append iff that is above the last row |
| ListLookups.SecondInsertReplaces | schema/sql/05-crdts/02-functions/list.sql:211-216 | a site's insert past the end of the list with its first insert takes the same position |
| FallbackIds.KeptRowsIff | schema/sql/05-crdts/02-functions/list.sql:133-158 | for all bounds the query keeps exactly the rows that the C loop fills iff the first difference other than zero and one is positive and the sum never returns to zero |
| FallbackIds.FallbackAgreesIff | schema/sql/05-crdts/02-functions/list.sql:133-158 | where that difference is positive, both make the same text iff the sum never returns to zero |
| FallbackIds.FallbackIsBetween | schema/sql/05-crdts/02-functions/list.sql:133-158 | and the text of the query, the same or a longer one, is above the lower bound, and below the upper one whenever the C loop's is |
| FallbackIds.NegativeAgreesIff | schema/sql/05-crdts/02-functions/list.sql:133-158 | where it is negative, both make the same text iff what follows the row is the same, which is never so if the sum does not return to zero |
| FallbackIds.NegativeIsNotAbove | schema/sql/05-crdts/02-functions/list.sql:133-158 | and if it does not, the text is a beginning of the lower bound and not above it |
| FallbackIds.OtherRowsSameText | schema/sql/05-crdts/02-functions/list.sql:133-158 | with a negative difference other rows than the C loop's can give its text, in every mode |
| FallbackIds.FallbackAgreesAtEnds | schema/sql/05-crdts/02-functions/list.sql:133-158 | without an upper or without a lower bound both always make the same text |
| FallbackIds.FallbackStopsShort | schema/sql/05-crdts/02-functions/list.sql:133-158 | between ab and ba the query returns ab, the C loop abP |
| FallbackIds.FallbackGoesOn | schema/sql/05-crdts/02-functions/list.sql:133-158 | between AC and CA the query returns BP, the C loop B |
| NestedJoins.KeySelects | schema/nested_views.py:20-28 | the join key chosen for any view selects exactly the ids that a row of it refers to |
| NestedJoins.OtherKeysSelectNothing | schema/nested_views.py:20-28 | with any other operator or column of that row nothing would be joined |
| NestedJoins.LateralRowsAreJoin | schema/nested_views.py:79-85 | for every accepted list of views and every valid database the emitted lateral joins, evaluated by their keys, give every entry with everything it leads to |
| NestedQuery.Joins | schema/nested_views.py:79-85 | the loop gives every view with the key it is joined on, and fails exactly on an empty list or a counter before the last view |
| NestedQuery.BaseProject | schema/nested_views.py:89-99 | the columns of all levels, without the joined column of all but the last |
| NestedQuery.RootAggregate | schema/nested_views.py:103-122 | the aggregation of the last view, or the query itself |
| NestedQuery.Aggregate | schema/nested_views.py:126-140 | the one or two aggregations of a level, over the columns of the levels above |
| NestedQuery.BuildQuery | schema/nested_views.py:144-158 | the plan of every accepted list of views, which PlanComputesNested is about, and failure for every other list |
| NestedViews.RowsAreValid | schema/sql/05-crdts/01-views/map.sql:4-76 | rows of one text each are valid for the views that resolve concurrent values, and rows of several for the multi-value ones, whatever they hold |
| NestedViews.LeafReadsBack | schema/nested_views.py:11-18 | every stored value can be read back from its leaf |
| NestedExample.MapOfSetsPlan | schema/nested_views.py:144-158 | the plan of MapAwLww SetAw in full, as documented |
| NestedExample.DocumentedResult | schema/nested_views.py:144-158 | whatever that plan returns of the documented data contains the map once, with both sets |
| NestedViews.SortSorts | schema/nested_views.py:49 | ordered aggregation returns the same pairs sorted by position |
| NestedPairs.CombineBag | schema/nested_views.py:43-58 | with distinct keys or positions the objects and ordered arrays do not depend on the order rows come in |
| NestedPlans.GroupPick | schema/nested_views.py:133-138 | a choice of rows by grouped columns can be made before grouping or after |
| NestedPlans.GroupOne | schema/nested_views.py:133-138 | rows of one group give one row with their aggregate |
| NestedCorrect.PlanIsLayers | schema/nested_views.py:144-158 | whatever the emitted plan yields, its aggregations make level by level of the joined rows in some order |
| NestedCorrect.LayersPick | schema/nested_views.py:126-140 | through all levels at once, a choice of rows by the columns kept can be made at either end |
| NestedTheorem.EntriesApart | schema/nested_views.py:51-57 | the joined rows of two entries differ in a grouped column: the key, the position, or the id joined to |
| NestedTheorem.LeafLayer | schema/nested_views.py:103-122 | the root aggregation of one structure's rows, in any order, is its value |
| NestedTheorem.LevelOfMid | schema/nested_views.py:51-58 | a level's aggregation of one structure's rows, in any order, is its value, with concurrent values of a key in a bag |
| NestedTheorem.StructuresRows | schema/nested_views.py:126-158 | at every level, below any fixed outer columns, the layers give one row per structure with a value |
| NestedTheorem.PlanComputesNested | schema/nested_views.py:144-158 | for every accepted list of views, every valid database and every order of rows at every stage, the result is exactly the bag of ids and nested values |
| NestedTheorem.PlanRowIff | schema/nested_views.py:144-158 | a pair is returned once iff it is a structure of the first view and its value, and not at all otherwise; structures empty throughout are dropped |
| NestedTheorem.PlanYields | schema/nested_views.py:144-158 | every plan over at least one view yields some result |

## Left out

- Overflow: the 64-bit clock entries and the integer part of the hybrid clock are unbounded here.
- SQL text: queries are modelled by what they compute; query strings, indentation and the regular expressions that dispatch on view names are not.
- PostgreSQL: statements are atomic, and logical replication is FIFO and forwards received rows that pass a publication's filter.
- Hybrid timestamps inside CRDV rows, last-writer-wins resolution and the Aw, Rw, Mvr and Lww view definitions: the nested-view theorem holds for any contents of the views with unique keys, elements and positions.
- NestedTheorem.PlanComputesNested: the internal order of unordered aggregates is not modelled, they are bags; JSON values are a datatype; the marshalling of text arrays and the text form of JSON are not.
- RingDelivery.CausalDelivery: the machine is the ring with at least two sites; of the full mesh only the wiring and what each link carries are stated.
- Ring.Cluster.ConnectSites: slots, connections and ClusterInfo are not modelled.
- Crdv.SystemInv: all sites are known from the start; runs whose writes leave an own row unread (asynchronous writes with read mode local) are outside it, because the invariant of ordered own writes fails there (`Crdv.UnreadWriteIsRepeated`).
- Crdv.DataAllExactIff: equal rows are all kept; which of them the grouping by ctid makes one is stated in PhysicalView.ViewIff.
- Crdv.Site.MergeBatch: batches are merged one at a time; advisory locks and concurrent daemons are not modelled.
- Clocks.VClockLte: the plain SQL definition of the same order, which reads missing entries as zero, is not modelled.
- Clocks.MergeClocks: a second clock shorter than the first panics in the original and is excluded.
- CubeSchema.CubeReadEqualsArrayRead: coordinates are integers, not floating-point numbers, and clock entries are not negative.
- ListIds.GenerateVirtualIndexBetween: the buffer of FillBuffer has one byte more than the original allocates, so that the overrun is stated (`ListIds.BufferOverrunIff`) and not executed; bytes above 127 and signed characters are not modelled.
- ListLookups.InsertFallsIff: the rows of replicated lists are their positions in the order of the view; removing by index is not modelled.
- FallbackIds.KeptRowsIff: the window without ORDER BY is taken to number and sum the rows in the order they are split in; characters are those of the printable identifiers.
- FallbackIds.NegativeAgreesIff: the condition compares the two remaining texts; a condition on the rows alone is KeptRowsIff, and OtherRowsSameText shows that it does not decide the texts.
- NativeList.ListTable.Get: reads without ORDER BY are taken to come in primary-key order, as the engine's table is set up for.
- Generator.GenerateHistory: the merges that happen are an input, without probabilities; the stored values are arbitrary, and the case without sites, which does not end, is excluded.
- ArraySchema.ArrayTables.WriteTxn: a failed insert leaves both tables unchanged; sessions do not interleave.
- The jsonSchema encoding: the array query with another column accessor.
- The CRDV, pg_crdt, Riak and Electric engines, the workers, plots and deployment scripts: clients, measurement and I/O.
