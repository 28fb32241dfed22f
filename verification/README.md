# Verification of random-data-load

random-data-load fills the tables of a MySQL or PostgreSQL schema with random rows that respect the foreign keys.
This project models the parts of it whose correctness depends on several functions together, and proves what they promise:

* **Preparing a run** (`Sequences`, `ReferenceGraph`, `Schema`, `Loader`, `Loading`, `SelfReference`, `LoopCheck`, `RunOrder`, `RunGraph`, `TableSort`, `SplitOrder`, `RunSort`,
  `Pipeline`, `RunVerdicts`): tables are objects that point at each other. They are loaded recursively through a cache, split if they reference themselves
  and otherwise checked for loops of references, flagged and sorted. `Pipeline.Prepare` composes all of it and states on the database catalogue alone
  exactly when the check passes and exactly when the sort ends.
* **Virtual foreign keys** (`VirtualJoins`, `VirtualEdges`, `JoinSteps`, `JoinMirror`, `VirtualKeys`, `JoinStart`, `JoinedRun`, `JoinCycles`, `JoinVerdicts`,
  `JoinRepeats`, `JoinExamples`): the `--add-fk` grammar; what the joins make of the listed tables' keys, as a function of catalogue, list and joins
  (`JoinSteps.Start`, `JoinSteps.AfterJoins`); that the objects in memory follow it turn by turn (`VirtualKeys.AddVirtualFKs`, `JoinedRun.PrepareWithJoins`);
  and what it comes to (`JoinVerdicts.RunEndsIff`).
* **Bulk inserts** (`WorkerProtocol`, `WorkerRuns`, `WorkerChannels`, `WorkerPanics`): `run`, the workers and their channels as a transition system, with invariants over every interleaving.
* **Statements** (`Text`, `Fields`, `ValueTypes`, `Sampling`, `Samplers`, `RowLayout`, `RowTexts`, `RunColumns`): which columns a statement names, who writes which cells, and which parent row each child row gets.
* **Frequencies** (`Frequency`, `FrequencyParameters`, `FrequencyText`): the conditional draws give each value exactly its frequency, how the parameters are written
  and how they are merged.

Objects the program updates in place are classes here, its loops are loops, and every such method is proved against functions on values.
`dafny verify dfyconfig.toml` checks everything.

## What the proofs found

* **Virtual keys can create loops, and the run may then never start**, though README.md line 481 of the repository lists protection against implicit ones as done.
  The guard (db/constraint.go:159) asks before the key is attached, so it only sees cycles that are there already (`VirtualEdges.GuardAsWrittenNeverFires`,
  `JoinCycles.SafeKeysAreNotFlipped`); asked after attaching it would decide (`VirtualEdges.GuardOnAttachedEdgeDecides`, `VirtualEdges.GuardedKeysNeverLoop`).
  The loop check of the run comes before the joins. `JoinExamples.PrepareShop` takes a catalogue of orders and customers and one join through the whole preparation:
  every check passes, the join is attached although its parent leads to its child already, and the sort never ends. So it is with every such join between
  tables with distinct names (`JoinCycles.ClosingJoinNeverEnds`). All references together stay acyclic exactly if they were and no attached key closes a cycle at its turn (`JoinCycles.VirtualKeysAcyclicIff`).
* **When a run with joins ends, as a condition on its inputs**: let everything be loadable and pass the check, names be distinct, no listed table reference itself,
  no unlisted table lead back to a listed one, and the joins ask for listed parents. Then the run is the one without any guard: every join that no key covers becomes
  a key as written, and the sort ends exactly if the keys between the listed tables form no cycle (`JoinVerdicts.RunEndsIff`; the condition is computed by
  `JoinVerdicts.Unguarded` and `JoinCycles.LinkGraph`). Without the condition on unlisted tables this is false: in `JoinExamples.PrepareWayBack` a circle by way of
  an unlisted table makes the guard fire, and the sort never ends although the keys as written form no cycle (`JoinExamples.WayBackNeverSorts`).
* **The guard never helps**: when it fires, the "flipped" key (unless it is refused for an unknown column) makes the child reference its own name, and with distinct
  names the sort then does not end, self-referencing tables or not (`JoinCycles.TurnedJoinNeverEnds`).
* **A join named again does nothing, unless the guard has turned its key**: that key hangs on the table it leads to, so it does not cover the join it was
  made for (`JoinRepeats.RepeatCoveredIff`, `JoinRepeats.RepeatsChangeNothing`).
* **A key that references a column of type uuid, enum, set, bool, boolean, tinyblob or tinytext is never sampled**: the program fills such columns, but has nothing
  to read them back into (`ValueTypes.ReadIffFilled`, `ValueTypes.UnreadableNeverSampled`).
* **A self-referencing table is accepted, but a listed table that references it is rejected, unless that one references itself as well**
  (`SelfReference.ReferencingASplitTableLoops`, `RunVerdicts.ChildOfSelfReferencingIsRejected`). Self-referencing tables skip the loop check,
  so two of them that reference each other pass it and make the sort run forever (`RunVerdicts.CircleNeverEnds`, `RunVerdicts.PreparePair`).
  Exactly: with distinct names the check passes iff every listed table either references itself through columns that can be NULL or leads to no cycle, and then the sort
  ends iff no listed table has two self-references and the references between different listed tables form no cycle (`Pipeline.Prepare`).
* **With zero workers a run never returns** (`WorkerRuns.ReturnsIffWorkers`), and **after an error another worker may send on a closed channel**:
  this can happen exactly if there are at least two workers and enough rows for one full bulk
  (`WorkerPanics.EarlyReturnCanPanic`); the deferred closes run in reverse order, the result channel first (generate/generate.go:121-122).
* **A query can lose the column of a virtual key**: virtual keys copy their columns after the whitelist has marked them, so a key all of whose columns are
  marked is not sampled, and its columns are not generated either (`Fields.KeySampledIff`, `Fields.WhitelistLosesVirtualKey`).
* **`--add-fk` with an unknown child column can end the program**: the child side of the key is then shorter than the parent side, and its columns may run past the row
  (`RowLayout.AlignedIffColumnsKnown`, `RowLayout.OutOfRangeOnlyIfMisaligned`).
* **A sequential relationship fails exactly when a statement starts beyond the parent** (`Samplers.SampleRun`, `Samplers.LastStartDecides`); cells are then left nil
  and writing the statement out ends the program (`RowLayout.FailedMeansNil`, `RowLayout.RenderRow`).
* **Parameter order matters**: a NULL frequency forgets the values given before it, and a column with values only is never NULL
  (`FrequencyParameters.NullForgetsValues`, `FrequencyParameters.ValuesWithoutNullFrequency`).

## Model

| member | source | states |
|---|---|---|
| VirtualJoins.Decode | query/joins.go:25-71 | the decoding loop is the element-wise decoding; the first bad element decides the error |
| VirtualJoins.DecodeRoundTrip | query/joins.go:25-71 | a text decodes to a list of joins exactly when it is that list's written form: inverse of writing, nothing else accepted, column counts equal |
| Text.SameNameIff | db/constraint.go:114-126 | two names count as the same exactly if they are equally long and agree letter by letter up to capitals |
| ValueTypes.FilledIffGenerated | generate/generate.go:300-337 | the column types the program fills are exactly those it has a generator for, but for `bit` and `numeric` |
| ValueTypes.ChosenHaveGenerators | generate/generate.go:294-341 | no column chosen for generation meets the unsupported case |
| ValueTypes.ReadIffFilled | generate/samples.go:76-92 | a value of a referenced column can be read back exactly if its type is filled and not one of seven |
| ValueTypes.UnreadableNeverSampled | generate/samples.go:26-74 | a key that references a column of one of the seven types is never sampled: the refill gives up at the first answer |
| Fields.GeneratedIff | db/data.go:151-182 | a column is generated exactly if it is unmarked, of a known type, not a numbered primary key, and named by no key, in terms of its own properties |
| Fields.DefaultIff | db/data.go:135-149 | a column is inserted as DEFAULT exactly if it is a numbered primary key and nothing else is inserted: nothing generated, all copies in keys marked |
| Fields.LocatedIsProjection | db/constraint.go:68-79 | the collected fields are the named columns in order, complete exactly when every name is a column |
| Fields.HeaderDistinctIff | db/data.go:135-197 | an insert names a column twice exactly when two sampled keys, or one key twice, have copied the same column; whenever the copies were taken |
| Fields.HeaderDistinctWhenKnown | db/data.go:135-197 | if the table has all columns its keys name, exactly when no two of the sampled keys name the same column |
| Fields.DistinctKeysDistinctHeader | db/data.go:135-197 | so keys with pairwise different columns never make a column come twice |
| Fields.MandatoryColumnFilledOnce | db/data.go:151-197 | a NOT NULL, default-less, supported column that is not both primary key and auto-numbered is generated exactly if no key names it and sampled exactly if a key has a copy of it, never both; so it is filled once if the keys name only known columns |
| Fields.WhitelistMarks | db/data.go:210-224 | a whitelist marks exactly the columns outside of it that can be NULL or have a default; an empty one marks nothing; mandatory columns stay unmarked |
| Fields.KeySampledIff | db/data.go:184-224 | a key is sampled exactly if one of the columns it copied was wanted when it copied them |
| Fields.WhitelistLosesVirtualKey | cmd/run.go:92-122 | concrete whitelist and virtual key for which the key is not sampled and its column not generated |
| ReferenceGraph.LoopingIffNameRepeats | db/constraint.go:43-58 | the path-carrying search terminates and answers true exactly when some walk meets a table name twice |
| ReferenceGraph.LoopingIffCycleReachable | db/constraint.go:43-58 | with unique names: exactly when a cycle is reachable |
| ReferenceGraph.LeadsIntoLoopIffCycle | db/data.go:242-249 | a table has a looping key exactly when it leads to a cycle itself |
| ReferenceGraph.AcyclicIffNoneLooping | db/constraint.go:43-58 | the whole graph is acyclic exactly when no table is reported |
| ReferenceGraph.AddEdgeAcyclic | db/constraint.go:135-173 | child -> parent keeps an acyclic graph acyclic exactly when the parent does not reach the child |
| ReferenceGraph.MovingHomesKeepsVerdict | cmd/run.go:99-116 | moving references of tables to their own name changes no later verdict of the loop check |
| ReferenceGraph.CycleRenamed | db/data.go:75-108 | a one-to-one renaming of tables keeps which of them lead to a cycle |
| ReferenceGraph.AmongRenamed | db/data.go:75-108 | nor which sets of tables reference each other in a cycle |
| Schema.Constraint.PopulateFields | db/constraint.go:68-79 | appends the located fields, and reports success exactly when all columns exist |
| Schema.Constraint.PointAt | db/constraint.go:81-97 | sets the parent, appends its located fields, reports the first missing column |
| Schema.Table.FieldByName | db/data.go:119-126 | finds the first field of that name regardless of case |
| Schema.Table.IsFieldInAnyConstraints | db/data.go:173-180 | true exactly when some key names the column |
| Schema.Table.FieldsToGenerate | db/data.go:151-171 | the loop selects exactly the fields to generate, in order |
| Schema.Table.ConstraintsToSample | db/data.go:184-197 | the loop selects exactly the keys with a wanted field, in order |
| Schema.Table.FieldsToInsertAsDefault | db/data.go:135-149 | nothing if there is anything else to insert, otherwise the auto-numbered primary columns |
| Schema.Table.SkipBasedOnIdentifiers | db/data.go:210-224 | in place, exactly the skippable fields outside a non-empty whitelist are marked |
| Schema.Table.FlagConstraintThatArePartsOfThisRun | db/data.go:199-208 | exactly the keys naming a table of the run become flagged; none is unflagged |
| Schema.TraverserIsGraphSearch | db/constraint.go:47-58 | the traversal of the object graph computes the graph search |
| Schema.IsLoopingIffNameRepeats | db/constraint.go:43-58 | IsLooping on objects: some walk from the referenced table repeats a name |
| Schema.IsLoopingIffCycleReachable | db/constraint.go:43-58 | with distinct names: the referenced table leads to a cycle |
| Loader.FullNameInjective | db/data.go:128-130 | the cache key determines schema and table |
| Loader.TableLoader.Enter | db/data.go:82-96 | the table enters the cache before its keys are resolved, with one blank constraint per key |
| Loader.TableLoader.LoadTable | db/data.go:77-108 | terminates on any catalogue; the cache only grows; what it adds is reachable and completely linked; it fails only if something reachable is missing or broken |
| Loader.TableLoader.ResolveAll | db/data.go:98-104 | the loop over the keys finishes the table and everything loaded for it |
| Loader.TableLoader.Resolve | db/data.go:99-103 | one key is linked: fields of both sides, pointing at the one cached parent |
| Loader.TableLoader.LoadReferencedTable | db/constraint.go:81-97 | the parent is loaded and its columns found, or an error says why not |
| RunOrder.ReadyIsMonotone | db/data.go:227-240 | a table that may be placed stays so |
| RunOrder.StuckMeansNoOrder | db/utils.go:26-37 | if a pass places nothing, no arrangement of the tables at all respects the dependencies, even with repeated names |
| RunOrder.FirstReadyIsGreedy | db/utils.go:26-37 | one restart of the loop is a greedy step and keeps the bookkeeping of waiting positions |
| RunOrder.GreedyIsLeast | db/utils.go:12-39 | the result is the lexicographically least valid order of the count-sorted input |
| RunOrder.OwnNameBlocks | db/utils.go:26-37 | if every table of some name waits for that name, no order is possible |
| RunGraph.OrderIffAcyclic | db/utils.go:12-39 | tables with distinct names can be ordered exactly if the references between them form no cycle |
| TableSort.ContainedIffReady | db/data.go:227-240 | the test on objects is the readiness of the abstract sort |
| TableSort.SortByConstraintCount | db/utils.go:14-16 | the first step sorts the array by number of constraints and permutes it |
| TableSort.FirstContained | db/utils.go:28-36 | one pass finds the first waiting table whose dependencies are placed |
| TableSort.PlaceTables | db/utils.go:17-38 | the restart loop ends exactly if an order exists, with the greedy one; otherwise it is stuck |
| TableSort.SortTables | db/utils.go:12-39 | the whole sort: permutation, dependencies first, greedy; never ends exactly if no order exists |
| SelfReference.IdentifyAndResolveSelfReferencingConstraintLoop | db/data.go:251-278 | the copy lacks exactly the first self-reference and skips exactly its columns, the key points at the copy, nothing else changes; or a non-nullable column is reported |
| SelfReference.MarkColumns | db/data.go:261-268 | exactly the named columns are marked in the cloned fields |
| SelfReference.ReferencingASplitTableLoops | db/constraint.go:43-58 | any key that points at a self-referencing table, split or not, is looping |
| SplitOrder.CopyComesFirst | db/data.go:251-278 | in every completed sort the copy stands before the original |
| SplitOrder.SplitsSortIffDropped | db/data.go:251-278 | the run with the copies of all its self-referencing tables can be ordered exactly if the run could be with every self-reference dropped |
| SplitOrder.CopyAsNode | db/data.go:270-272 | the copy waits for exactly what the original waits for, except its own name |
| SplitOrder.OwnKeyBlocksTheSort | db/utils.go:26-37 | a flagged key naming its own, unsplit table: no order exists |
| Loading.FinishedCacheHoldsReachable | db/data.go:75-108 | a cache of finished tables holds everything they reach, none of it broken |
| Loading.LoadableGrows | db/data.go:75-108 | loading more without an error keeps everything behind the cached tables loadable |
| Loading.SkipColumns | cmd/run.go:92-94 | marking columns leaves the loaded graph complete |
| Loading.LoadTables | cmd/run.go:85-97 | succeeds exactly if all is loadable; the cache then holds exactly the reachable tables, one object per name |
| LoopCheck.HasAnyConstraintLoopIsGraphSearch | db/data.go:242-249 | the check on objects is the graph check |
| LoopCheck.SplitTable | cmd/run.go:100-111 | succeeds exactly if the first self-reference can be NULL; the copy lacks that key, only references of tables to their own name move |
| LoopCheck.CheckTable | cmd/run.go:99-116 | one turn, in the middle of the pass: the verdict is that of the graph before the pass, whatever was split meanwhile |
| LoopCheck.CheckLoops | cmd/run.go:98-116 | succeeds exactly if every listed table, judged by the graph before the pass, either references itself through columns that can be NULL or leads into no loop; the list is then the copies of all self-referencing tables and the tables; unsplit tables reference what they did, split ones their copy |
| RunSort.FlagTables | cmd/run.go:124-126 | afterwards the flags say exactly which keys point into the run |
| RunSort.CopyNode | db/data.go:251-278 | the copy waits for what its table waits for, without its own name unless a second key names it |
| RunSort.OrderedIffSortable | db/utils.go:12-39 | the checked list, copies included, can be ordered exactly if no listed table has two self-references and the references between different listed tables form no cycle |
| RunSort.OrderRun | cmd/run.go:124-128 | flagging and sorting the checked list ends exactly then, with every table after the listed tables it references |
| RunSort.PlanInserts | cmd/run.go:98-128 | from loaded tables to the order: passes exactly if every listed table passes, ends exactly if they are sortable, self-references included |
| Pipeline.CompleteCacheMirrors | db/data.go:75-108 | the loaded objects are the catalogue's graph under other names, keys named after their targets, unflagged |
| Pipeline.PassesIffRootPasses | cmd/run.go:99-116 | a loaded table passes the check exactly if, in the catalogue, it references itself through columns that can be NULL or leads to no cycle |
| Pipeline.SortableIffCatalogSortable | db/utils.go:12-39 | the loaded tables are sortable exactly if the catalogue says so |
| Pipeline.OrderIsGood | db/utils.go:12-39 | the order holds every listed table as often as listed, self-referencing ones twice as often, after the listed tables their keys point at |
| Pipeline.PlanReady | cmd/run.go:98-128 | the plan, judged on the catalogue |
| Pipeline.Prepare | cmd/run.go:84-128 | end to end: fails to load exactly if something is unloadable; with distinct names passes the check exactly if every listed table does, ends exactly if the list is sortable, and then in a good order |
| RunVerdicts.NoCycleDelivers | cmd/run.go:98-128 | if nothing behind the listed tables forms a cycle, each is ordered once, parents first |
| RunVerdicts.ChildOfSelfReferencingIsRejected | cmd/run.go:99-116 | a listed table that references a self-referencing one, and not itself, is rejected |
| RunVerdicts.CircleNeverEnds | cmd/run.go:98-128 | if two listed tables reference each other the sort never ends when the check passes, and it passes exactly if every listed table does |
| RunVerdicts.PreparePair | cmd/run.go:84-128 | two self-referencing tables that reference each other, taken through the whole preparation: the check passes and the sort does not end |
| VirtualEdges.GuardAsWrittenNeverFires | db/constraint.go:153-168 | on an acyclic graph the check before attaching is always silent |
| VirtualEdges.GuardOnAttachedEdgeDecides | db/constraint.go:159-170 | asked on the attached key it decides exactly whether the parent reaches the child |
| VirtualEdges.GuardedKeysNeverLoop | db/constraint.go:138-173 | with that guard no list of joins creates a loop |
| VirtualEdges.GuardAsWrittenLetsALoopIn | db/constraint.go:153-170 | concrete two-table graph in which the guard as written admits a cycle |
| JoinMirror.GuardAnswersForTables | db/constraint.go:43-58 | asked of the objects from a cached table on, the guard answers whether the references of the tables, joins included, lead into a loop of names |
| JoinMirror.MirrorGrows | db/constraint.go:29-41 | loading more for a join keeps objects and tables in step |
| JoinMirror.MirrorWithEdge | db/constraint.go:170 | so does a key from any object, copies included, to a cached one |
| VirtualKeys.SkippingIsSymmetric | db/constraint.go:99-133 | whether a join is already covered does not depend on its direction |
| VirtualKeys.SkipIffCovered | db/constraint.go:99-133 | the switch on the table and key objects, both ways round, is the test on the lists of keys |
| JoinSteps.SimilarIff | db/utils.go:57-64 | one list of names is similar to another exactly if each of its names occurs in it, up to capitals |
| JoinSteps.CoveredIff | db/constraint.go:113-127 | a join is covered exactly if a key of a listed table leads along it, one way or the other, each column of the key among those of the join on the same side |
| JoinSteps.KeyCoversItself | db/constraint.go:113-127 | a join written as an existing key is covered, whichever side comes first |
| JoinRepeats.KeyIsNotRepeated | db/constraint.go:99-133 | and is judged so: nothing is attached |
| JoinRepeats.RepeatCoveredIff | db/constraint.go:135-176 | after a join has made a key, the same join is covered exactly if the guard did not fire, or both sides have the same name |
| JoinRepeats.RepeatsChangeNothing | db/constraint.go:135-176 | after a list of joins none of which is refused or turned, naming any of them again, in any order and number, changes nothing |
| VirtualKeys.NewConstraintFromVirtualFK | db/constraint.go:29-41 | the key is linked to the cached parent, what was loaded for it is complete, and tables in memory keep their references; an error means an unloadable parent or an unknown parent column, and conversely as long as nothing half-loaded was in the cache |
| VirtualKeys.BuildKey | db/constraint.go:153-168 | the key is the one the catalogue decides: to the join's parent, or if the references of the tables lead from there into a loop of names, to the child's side; refused exactly if that key's parent is unloadable or lacks a column |
| VirtualKeys.Attach | db/constraint.go:170 | one appended key is one more edge, nothing else |
| VirtualKeys.IndexOfNameIsFirst | db/constraint.go:146 | the child is the first listed table of that name, so the copy if the table was split |
| VirtualKeys.AddKey | db/constraint.go:151-170 | building and attaching: exactly that key at the end of the table's list, objects and tables still in step; refused exactly then, with no key added |
| VirtualKeys.AddUncovered | db/constraint.go:145-170 | a join that no key covers: the verdict of the catalogue is carried out on the first listed table of the child's name, and no other table is touched |
| VirtualKeys.AddVirtualFK | db/constraint.go:138-173 | one join: covered, not applicable, refused or attached exactly as the catalogue decides from the keys and references before it, and the lists of keys are then the decided ones |
| VirtualKeys.AddVirtualFKs | db/constraint.go:135-176 | all joins up to the first refused one: afterwards the keys of the listed tables are those that catalogue, list and joins determine, and an error is returned exactly if one is refused |
| JoinedRun.CheckBeforeJoins | cmd/run.go:98-122 | the check passes exactly if the catalogue admits every listed table, and leaves keys and references as the catalogue says, split tables referencing their copies |
| JoinedRun.PlanWithJoins | cmd/run.go:98-128 | from loaded tables to the order with joins: passes exactly if every listed table is admitted; then the sort ends exactly if the tables, with the keys the joins left, can be ordered, and gives these tables with these keys, each after those it waits for |
| JoinedRun.PrepareWithJoins | cmd/run.go:84-128 | the same from the catalogue, whatever the names: outcome, listed tables and keys are functions of catalogue, list and joins; errors of the joins are ignored, so the first refused one ends the list |
| JoinCycles.OrderedIffNoCycle | db/utils.go:12-39 | with distinct names tables and keys can be ordered exactly if the keys between listed tables form no cycle |
| JoinCycles.ClosingJoinNeverEnds | cmd/run.go:118-128 | with distinct names: after a join between listed tables, not covered and not refused, whose parent already leads to its child, the tables cannot be ordered, whatever joins come before and after it |
| JoinCycles.FlippedNeverEnds | db/constraint.go:159-168 | once the guard has turned a join round the tables cannot be ordered |
| JoinCycles.TurnedJoinNeverEnds | cmd/run.go:98-128 | so it is for every run with distinct names, copies of self-referencing tables included |
| JoinCycles.VirtualKeysAcyclicIff | db/constraint.go:135-176 | all references together are acyclic afterwards exactly if they were before and no attached key's parent leads to its child at its turn |
| JoinCycles.SafeKeysAreNotFlipped | db/constraint.go:159-168 | without cycles, and with different names, every key goes from the join's child to the join's parent |
| JoinStart.PassesIffAdmitted | cmd/run.go:99-116 | a loaded table passes exactly if, by name, it references itself through columns that can be NULL or none of its references leads into a loop of names; no condition on names |
| JoinStart.CheckedMirrors | cmd/run.go:98-122 | after the check the objects reference each other as the catalogue says, split tables their copies |
| JoinStart.RunIsStart | cmd/run.go:98-122 | the checked list is the copies, without the key that led home, and the listed tables, with the catalogue's keys |
| JoinVerdicts.GuardIffCycle | db/constraint.go:43-58 | if unlisted tables lead to no listed one, the guard fires exactly if the parent leads into a cycle of listed tables |
| JoinVerdicts.GuardDecidesNothing | db/constraint.go:135-176 | then the program and the one without a guard come to the same keys, or to a cycle both |
| JoinVerdicts.SortEndsIff | cmd/run.go:98-128 | on inputs a caller can check: the tables can be ordered exactly if the catalogue's keys and the joins as written form no cycle among the listed tables |
| JoinVerdicts.RunEndsIff | cmd/run.go:118-128 | and what the preparation returns is then the listed tables with exactly these keys, each after those it waits for |
| JoinExamples.PrepareShop | cmd/run.go:84-128 | orders reference customers, a join makes customers reference orders: every check passes, the preparation never ends |
| JoinExamples.WayBackNeverSorts | db/constraint.go:159-168 | without the condition on unlisted tables the equivalence fails: a concrete list and two joins whose keys as written form no cycle, and which cannot be ordered |
| JoinExamples.PrepareWayBack | cmd/run.go:84-128 | the same list taken through the whole preparation |
| WorkerProtocol.SplitJobs | generate/generate.go:115-132 | full bulks and one smaller, possibly empty, rest add up to the rows asked for |
| WorkerProtocol.InsertWithRetries | generate/generate.go:144-166 | success exactly if one of the first six attempts, number 0 to 5, succeeds after retryable errors only; otherwise it ends at the first fatal error or after the sixth attempt |
| WorkerProtocol.GivesUpIff | generate/generate.go:154-163 | a worker in attempt t gives up exactly by a fatal error, or a retryable one at t = 5; by any other error it goes on to t + 1 |
| WorkerRuns.GivenUpIff | generate/generate.go:144-166 | in every run a worker has given up its job exactly if the last it met was a fatal error or the sixth retryable error in a row |
| WorkerChannels.ClosedIff | generate/generate.go:119-122 | the first close of a run closes the results, the second the jobs, the third the notifications; none comes before the return |
| WorkerChannels.PanicsIff | generate/generate.go:144-175 | a run panics exactly by a result posted after the first close or a notification after the third |
| WorkerChannels.JobsInOrder | generate/generate.go:119-132 | jobs are sent and taken in order: the channel holds exactly those sent and not taken |
| WorkerChannels.NextJob | generate/generate.go:145-147 | the n-th job taken is job n, and starts with its first attempt |
| WorkerChannels.ResultsInOrder | generate/generate.go:134-139 | results are received in the order posted, and none is lost |
| WorkerChannels.ReturnsAtFirstError | generate/generate.go:134-141 | run returns at the first error it receives, or with one success per job |
| WorkerChannels.ExitedMeansDrained | generate/generate.go:145 | a worker ends for want of jobs only after the job channel was closed and emptied |
| WorkerChannels.WaitsOnlyForJobs | generate/generate.go:144-175 | before a panic a worker waits only at an empty open job channel; every other step it makes without waiting, returned or not |
| WorkerChannels.NobodyLeftBehind | generate/generate.go:104-166 | when nothing can go on and nothing panicked, run has returned, all channels are closed and every worker has ended |
| WorkerProtocol.StepKeeps | generate/generate.go:104-175 | every step of every goroutine keeps the invariant: each sent job in one place, counts, rows, retries, what main knows |
| WorkerProtocol.SucceedKeeps | generate/generate.go:148-152 | a completed insert was not completed before, and adds its rows once |
| WorkerProtocol.NobodyBusyAfterSuccess | generate/generate.go:134-141 | after a return without error no worker has a job |
| WorkerRuns.ChannelsNeverBlock | generate/generate.go:119-139 | in every reachable state jobs are conserved, at most one result each, at most six tries, and no send on either channel blocks |
| WorkerRuns.RowsCommitted | generate/generate.go:115-166 | rows never exceed the rows asked for, and equal them after a return without error |
| WorkerRuns.ErrorIffWorkerDied | generate/generate.go:134-165 | run returns an error exactly if some worker gave up a job |
| WorkerRuns.ClosingIsSafe | generate/generate.go:121-122 | after a return without error only closes and worker exits remain, so no send meets a closed channel |
| WorkerRuns.StepCosts | generate/generate.go:104-166 | every step lowers the measure |
| WorkerRuns.RunsAreBounded | generate/generate.go:104-166 | a bound on the length of every run |
| WorkerRuns.NoDeadlock | generate/generate.go:124-139 | with a worker, something can always go on until the return |
| WorkerRuns.ReturnsIffWorkers | generate/generate.go:124-139 | a run that cannot go on has returned if there is a worker; without workers no run returns |
| WorkerPanics.PanicIff | generate/generate.go:119-141 | a worker can send on a closed channel exactly if there are two workers and two jobs, not all empty |
| WorkerPanics.EarlyReturnCanPanic | generate/generate.go:115-141 | for the jobs of a run: exactly if there are two workers and as many rows as one bulk |
| Sampling.ReadRows | generate/samples.go:35-61 | one result set fills the slots from a row on, in order, and no other cell |
| Sampling.Query | generate/samples.go:26-74 | the refill succeeds with the first n rows of all answers, or gives up where the answers stop; it terminates and writes exactly its slots, row by row |
| Sampling.AllCellsDiffer | generate/samples.go:49-51 | the slots the refill writes, row by row, are all different and in range: each is written once |
| Sampling.OutcomeIsDecided | generate/samples.go:26-74 | success and failure exclude each other for the same answers |
| Samplers.UniformSample.Sample | generate/samples.go:100-111 | moves the offset by the limit and fills from that page |
| Samplers.SampleStore.NewUniformSample | generate/samples.go:116-131 | a known key keeps limit and offset and gets new slots, a new one starts at zero with the statement's size |
| Samplers.StaticOutcome | generate/samples.go:63-72 | refilling from an unchanging page works exactly if it is not empty |
| Samplers.SampleChunk | generate/samples.go:100-111 | a statement is filled exactly if its offset lies in the parent |
| Samplers.SampleJob | generate/generate.go:343-360 | one job: sampler found or created, statement filled, sampler at the next start |
| Samplers.SampleRun | generate/generate.go:115-132 | a run of one worker, with whatever sampler is stored, succeeds exactly if every statement starts inside the parent, and covers all rows |
| Samplers.LastStartDecides | generate/samples.go:103-107 | it is enough that the last statement does |
| Samplers.ChildRowFormula | generate/samples.go:100-131 | child row i gets parent row start + qL + (r mod min(L, rest of the parent)), for the stored or new limit L and start |
| Samplers.OneToOne | generate/samples.go:100-131 | with no more child than parent rows, child row i gets parent row i |
| RowLayout.AlignedIffColumnsKnown | db/constraint.go:68-97 | both sides of a key are equally long exactly if the child has all its columns |
| RunColumns.LoadedKeysAreTaken | db/data.go:98-104 | each key of a loaded table copied its columns from the table as it was read |
| RunColumns.JoinedKeyIsTaken | db/constraint.go:29-41 | a key made of a join copied them from the table as it was then |
| RunColumns.LoadedHeaderDistinctIff | db/data.go:135-197 | so for every loaded table an insert names a column twice exactly when two sampled keys have copied the same |
| RunColumns.JoinedKeyAlignedIff | db/constraint.go:29-41 | a key made of a join that was read has equally long sides exactly if the child has all columns the join names |
| RowLayout.ConstraintFields | db/constraint.go:60-66 | the fields of all keys, key by key |
| RowLayout.FillDefaults | generate/generate.go:214-224 | writes the default band and nothing else |
| RowLayout.FillGenerated | generate/generate.go:226-234 | writes each generated column into its cells and nothing else |
| RowLayout.SampleKey | generate/generate.go:348-362 | one key's columns get the rows found for it; all other cells stay |
| RowLayout.SampleConstraints | generate/generate.go:343-366 | the keys in turn, each its own columns, up to the first failure or the first that does not fit the row; the rest untouched |
| RowLayout.FillMatrix | generate/generate.go:202-255 | the three bands make up the matrix |
| RowLayout.ChooseColumns | generate/generate.go:184-187 | the statement's columns are what the selectors promise |
| RowLayout.GenQuery | generate/generate.go:178-267 | no statement for no rows; otherwise bands, keys and nil cells as described, and a key can only run past the row if the two sides of some key differ in length |
| RowLayout.OutOfRangeOnlyIfMisaligned | generate/generate.go:343-366 | with all sides equally long every key fits |
| RowLayout.ChosenHeader | generate/generate.go:189-193 | the column list is defaults, generated, sampled |
| RowLayout.HeaderNamesKeys | generate/generate.go:192 | the header names a key's fields exactly where its cells are |
| RowLayout.KeyCellsAreOneParentRow | generate/generate.go:343-366 | referential integrity: a key's cells in a row are one existing parent row, in order |
| RowLayout.SampledMeansNoNil | generate/generate.go:204-255 | if all keys are sampled no cell is left empty |
| RowLayout.FailedMeansNil | generate/generate.go:247-250 | if sampling fails short of the last row, some cell is empty |
| RowLayout.RenderRow | generate/getters.go:42-53 | the row is written exactly if no cell is nil, as the texts separated by commas in parentheses |
| RowTexts.RowIsAsMeant | generate/generate.go:204-255 | if all keys are sampled, every row reads: DEFAULT per default, the text drawn per generated column, and per key the values of one parent row, in order |
| Frequency.BelowIsAnInterval | frequency/frequency.go:164 | one comparison is true for an interval of draws |
| Frequency.InjectIndexValue | frequency/frequency.go:151-171 | the loop returns the value the conditional draws pick |
| Frequency.PickIffInBox | frequency/frequency.go:157-168 | a value is picked exactly for the draws of a box |
| Frequency.ChancesAreConditional | frequency/frequency.go:161-167 | dividing by what is left makes each chance the frequency's share of it |
| Frequency.Telescope | frequency/frequency.go:157-168 | the product over the draws telescopes to the frequency |
| Frequency.ShareOfEachValue | frequency/frequency.go:151-171 | the probability of each value for all non-negative frequencies, and of none, with the draws the program makes |
| Frequency.ExactIffSumAtMostOne | frequency/frequency.go:151-171 | with those draws every value gets exactly its frequency iff they add up to at most one |
| Frequency.NullIsAnInterval | frequency/frequency.go:82-91 | a nullable column is NULL for the draws below the frequency asked for it, or the default if nothing is asked; others never; as a chance, clamped to [0, 1] |
| Frequency.GetterWrapper.constructor | generate/getters.go:59-70 | the value the conditional draws pick, and NULL only if they pick none, in terms of what is asked of the column or the default |
| Frequency.GetterWrapper.Assign | generate/getters.go:72-78 | a generated value only fills an empty cell |
| Frequency.OutcomeIffInBox | generate/getters.go:59-78 | each outcome of a cell happens exactly for its draws |
| Frequency.CellShares | generate/getters.go:59-78 | with those draws a cell gets each value with exactly its frequency, NULL with p(1 - sum), a generated value with (1 - p)(1 - sum); everything adds up to one |
| Frequency.ColumnShares | generate/getters.go:59-78 | so for a nullable column with what was asked of it: each value its frequency, NULL its NULL frequency of the rest |
| FrequencyParameters.FrequencyStore.DecodeNull | frequency/frequency.go:35-78 | the settings up to the first mistake are applied and stay |
| FrequencyParameters.FrequencyStore.DecodeValueList | frequency/frequency.go:122-143 | the values of one column, up to the first mistake |
| FrequencyParameters.FrequencyStore.DecodeIndexValues | frequency/frequency.go:97-149 | all columns of the parameter in turn, up to the first mistake |
| FrequencyParameters.FrequencyStore.MergeQueryParameters | frequency/frequency.go:173-194 | the query's settings are applied, malformed names skipped |
| FrequencyParameters.MergeOrderIrrelevant | frequency/frequency.go:173-194 | for distinct names the order in which the query's values are merged makes no difference |
| FrequencyParameters.EntryAfterAll | frequency/frequency.go:65-72 | a column only sees the settings about it |
| FrequencyParameters.NullForgetsValues | frequency/frequency.go:69-71 | a NULL frequency erases everything asked before for the column |
| FrequencyParameters.ValuesWithoutNullFrequency | frequency/frequency.go:138-142 | a column with values only is never NULL |
| FrequencyParameters.ValuesAdded | frequency/frequency.go:138-142 | values go behind those a column has, each with its own frequency; its NULL frequency and all other entries stay |
| FrequencyParameters.NullAsked | frequency/frequency.go:65-72 | a NULL frequency is drawn with from then on, in nullable columns only; the column's values are gone, other entries stay |
| FrequencyParameters.ValuesAskedFor | frequency/frequency.go:122-143 | over a whole list: the pairs of a column are those it had and those asked for, in order |
| FrequencyParameters.AskedSinceLastNull | frequency/frequency.go:65-143 | the last NULL frequency of a column is the one drawn with, its pairs are those asked for after it |
| FrequencyParameters.TableColIff | frequency/frequency.go:54-57 | a name is read as table and column exactly if it is written `table.col` without further dots |
| FrequencyParameters.QueryValues | frequency/frequency.go:173-194 | after merging, a column has its old pairs and the values the query compares it with, each with the default frequency |
| FrequencyText.NullRoundTrip | frequency/frequency.go:35-78 | a text of NULL frequencies is accepted exactly if it is some list's written form, and gives that list's settings |
| FrequencyText.ValuesRoundTrip | frequency/frequency.go:97-149 | the same for the values of columns |
| FrequencyText.NullsRead | frequency/frequency.go:35-91 | after reading a text, a nullable column is NULL for the draws below the last number written for it |
| FrequencyText.ValuesRead | frequency/frequency.go:97-149 | after reading a text, a column has its old values and those written for it, in order, each with its own number |

## Left out

- The SQL text, escaping, drivers, `information_schema` and transactions: the catalogue is a finite map, query answers are arbitrary sequences of rows followed by an ending.
- `ParseQuery` (query/query.go): its output (table names, identifiers, joins, parameters) is an input here.
- The value generators, regex name matching and the text of generated values: a generated cell carries its column's name and an arbitrary text.
- `getterFromField` as part of an answer: which types can be read is in ValueTypes.ReadIffFilled; in the answers an unreadable row is one of the endings.
- `relationship`: which sampler serves a key is a lookup in three flags; the layout results hold for any answers, whichever sampler asked.
- Random number quality and floating-point rounding: draws are reals in [0, 1), independence is the product of lengths, division by zero is as in IEEE 754.
- Logging, progress bar, command line, and the halving of the row count for a split table (cmd/run.go:105-110).
- Case is folded for ASCII letters only.
- Only the engine for which the looked-up cache key is the stored one (db/mysql.go:210-213) is modelled; with PostgreSQL the two differ. Schema names hold no dot, so that a key names one table.
- The names of virtual keys end in a random identifier (db/constraint.go:32), a parameter here.
- Loader.TableLoader.LoadTable: after an error only the growth of the cache is stated; its half-loaded tables stay in it as in the program.
- SelfReference.IdentifyAndResolveSelfReferencingConstraintLoop: requires that loading has set every referenced table, as LoadTable guarantees.
- Loading.LoadTables: that the columns outside the whitelist end up marked is stated for the one table in SkipColumns, not again for the whole list.
- LoopCheck.CheckLoops: requires that no key object is in the lists of different tables, as loading guarantees; after a rejection only the graph is described.
- RunSort.PlanInserts: when the sort ends is stated for names that differ by more than case, since the sort ignores case and the loop search does not.
- JoinedRun.PrepareWithJoins: requires that no name is listed twice; the program's list is the keys of a map (cmd/run.go:57). Keys are described by the names and columns they are made of, as joins and sort see them; the copied fields are in VirtualKeys.AddVirtualFK.
- JoinVerdicts.RunEndsIff: for lists with self-referencing tables, or with unlisted tables that lead back to the list, only the general form (JoinedRun.PrepareWithJoins) and the two ways not to end (JoinCycles.ClosingJoinNeverEnds, JoinCycles.TurnedJoinNeverEnds) are stated.
- SplitOrder.CopyComesFirst: assumes that table and copy are the only tables of their name in the run.
- VirtualKeys.AddVirtualFKs: requires memory and list as loading and check leave them (JoinedRun.CheckBeforeJoins); of half-loaded tables left by a refused join nothing is said, since no key points at them.
- VirtualKeys.BuildKey: of the parent's fields only the linking is stated, through NewConstraintFromVirtualFK.
- WorkerRuns.ClosingIsSafe: holds for returns without error only; WorkerPanics.PanicIff says exactly when it fails otherwise.
- WorkerRuns.RowsCommitted: assumes that one bulk insert commits all its rows or none.
- Samplers.SampleRun: one worker, no retries, and a parent that does not change; samplers are shared between workers without their own lock (generate/samples.go:117-121), so nothing is claimed for several workers.
- RowLayout.GenQuery: each answer row has one value per field of the key's parent side.
- RowLayout.FailedMeansNil: an error when closing a result set that was read completely leaves no cell nil.
