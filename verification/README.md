# Verified models of spanner-mycli

This project models the parts of spanner-mycli whose correctness a reader cannot see from one
function body, and proves what the program promises about them. `dafny verify dfyconfig.toml`
checks everything.

## What is modelled

**Dump ordering** (`TableIds`, `Digraph`, `Catalog`, `Kosaraju`, `Components`, `Condensation`,
`InsertOrder`, `SkippedOrder`, `Resolver`, `MutationPlan`). A dump restores only if parents are inserted before
children. The resolver finds strongly connected components of the prerequisite graph with two
depth-first passes, orders the condensation, and separately orders single tables by a Kahn-style loop
with a fallback for cycles. Both are specified independently of the code (mutual reachability; the
lexicographically least order respecting prerequisites) and the methods, written in the source's loops
over maps, arrays and stacks, are proved against those specifications. Go's map iteration order is
an arbitrary choice in the methods, and the results are proved unique. The mutation plan built on
top covers every table once and accounts for its bytes exactly.

**DDL replay** (`SourceCuts`, `DdlReplay`, `DdlExact`). Forward foreign keys are cut out of CREATE TABLE text
with one comma each and added back by ALTER statements at the end. A statement is a token sequence
(plain text, declaration, comma); what a replay needs is defined without the rewrite.

**Partitioned fan-in** (`FanIn`, `FanInMetadata`). Submitter, bounded workers, unbuffered channel,
one consumer and two cancellations as a step relation; every theorem is about all runs.

**Transaction owners** (`IdleOwner`, `IdleManager`, `AbortRetry`, `AbortManager`, `QueryRetry`). The
idle machine's operations all take the manager's lock, so its runs are operation sequences in any
order; watchers may fire late, and even after a cancellation that came after their deadline. Abort
recovery gives up the lock while it waits: each stretch under the lock is one step, and any number of
recoveries interleave with arbitrary other code. The `...Manager` modules hold the methods as they
update the manager and its owner, each proved against the value-level operation the theorems are
about.

**Fingerprint and receipt** (`FingerprintStream`, `Receipt`, `ReceiptDrivers`). The hash is an
arbitrary function of the byte stream; what is proved is that the stream is unambiguous, what every
sequence of observations and completions answers, and that the two loops that feed a receipt agree.

**Import closure** (`ImportClosure`). The recursive walk that collects proto files.

## Findings

- The comment at internal/mycli/execute_partitioned.go:190-191 says metadata is nil only when no
  partition reported it. The code does not keep that: an error can be the first item, from a partition
  that has not reported yet (`FanIn.MetadataCanBeMissed`), or from a fetch that a cancellation cut off
  before its response (`FanIn.MetadataMissedOnCancel`). When all partitions run at once, the promise is
  kept exactly if none ever reports or the only one reports with its first response
  (`FanInMetadata.PromiseExactly`); without cancellation from outside, exactly if none ever reports or
  all that send anything report with their first response (`FanInMetadata.PromiseWithoutCancel`). What
  the code does keep, metadata before the first row when partitions report with their first response,
  is `FanIn.MetadataBeforeRows`.
- Three branches are dead: the "condensation contains a cycle" error
  (internal/mycli/dependency_resolver.go:479-481), clearing a due rearm for an owner without interval
  or work (internal/mycli/idle_transaction.go:197-202), and idle retirement of an expire-pending owner
  (internal/mycli/idle_transaction.go:276-282).
- A later DML completion with another affected count gets the first completion's bytes
  (internal/mycli/savepoint_receipt.go:127-141 compares the kind only); `Receipt.LaterCountIgnored` is
  the input, `Receipt.BytesExactly` the exact condition.
- In a cyclic order graph the fallback (internal/mycli/dependency_resolver.go:351-373) can place a
  table before prerequisites that are downstream of the cycle, even if neither is on a cycle
  (`InsertOrder.FallbackBreaksOrder`); `InsertOrder.CleanPlaced` says what order is kept in such a graph.
- After the abort wait, internal/mycli/explicit_abort_retry.go:196-213 compares the owner but not its
  physical attempt. The code is right because its callers are serialized: statements run one at a time
  (internal/mycli/cli.go:131 reads the next one after the last, internal/mycli/cli_mcp.go:88-99 admits
  one) and only timers and the heartbeat act during a wait. `AbortRetry.SerializedHoldsJournal` proves
  that every success then leaves exactly the journal. The function alone does not ensure it: with two overlapping recoveries of one owner both
  replay on the newest attempt (`AbortRetry.JournalReplayedTwice`; `AbortRetry.JournalExactly` is the
  exact condition).

## Model

| member | source | states |
|---|---|---|
| TableIds.Total | internal/mycli/dump_table_id.go:40-45 | two identities compare equal only if they are the same, and comparing them the other way round gives the opposite answer |
| TableIds.Transitive | internal/mycli/dump_table_id.go:40-45 | the comparison is transitive, so sorting by it is well defined |
| TableIds.SchemaFirst | internal/mycli/dump_table_id.go:40-45 | schema before name, each compared at the first character where they differ |
| TableIds.SortUnique | internal/mycli/dependency_resolver.go:493-494 | two sorted lists of the same identities are the same list: no map or input order can show through a sort |
| Resolver.DependencyResolver.QueryForeignKeys | internal/mycli/dependency_resolver.go:159-187 | the loop with its two duplicate filters leaves the tables of the row-by-row function |
| Catalog.ApplyRowsEdges | internal/mycli/dependency_resolver.go:159-187 | exactly the enforced (or unknown) foreign keys between dumped tables become safety edges; order edges are the safety edges without self edges; nothing else about a table changes |
| Catalog.KnownNotEnforced | internal/mycli/dependency_resolver.go:191-193 | exactly the spellings of NO in any letter case exempt a foreign key |
| Resolver.DependencyResolver.ApplyInterleaveParents | internal/mycli/dependency_resolver.go:236-270 | the loop leaves the links and the error of the table-by-table function, including links set before an error |
| Catalog.LinkAllInside | internal/mycli/dependency_resolver.go:236-270 | links stay inside the selection and only links change; on success every selected table whose DDL names a selected parent is linked to it |
| Catalog.LinksExactly | internal/mycli/dependency_resolver.go:236-270 | linking fails exactly if the DDL of a selected table with a named parent cannot be read or names a selected parent outside the catalog; otherwise the links are exactly from those tables to the selected parents their DDL names |
| Resolver.DependencyResolver.LookupExplicit | internal/mycli/dependency_resolver.go:195-212 | succeeds exactly for exportable identities, with the error the branch gives otherwise |
| Resolver.DependencyResolver.HasInterleavePathBetween | internal/mycli/dependency_resolver.go:544-558 | the walk terminates and answers the transitive closure of the interleave links, links that run in a circle included |
| Kosaraju.DfsFound | internal/mycli/dependency_resolver.go:497-507 | the first search appends, children before parents, exactly the unvisited tables reachable past the visited ones; of two tables on a common cycle one finishes after everything it shares a cycle with |
| Kosaraju.FirstPass | internal/mycli/dependency_resolver.go:508-510 | after all roots the stack holds every table once, in finishing order |
| Kosaraju.ReverseSearch | internal/mycli/dependency_resolver.go:519-529 | a reversed search from the latest unvisited table of the stack visits exactly its strongly connected component |
| Kosaraju.SccSearch.Dfs1 | internal/mycli/dependency_resolver.go:497-507 | the recursive closure over `visited` and `stack` refines the search function |
| Kosaraju.SccSearch.Dfs2 | internal/mycli/dependency_resolver.go:519-529 | the same for the reversed search that collects one component |
| Kosaraju.SccSearch.SecondPass | internal/mycli/dependency_resolver.go:530-538 | walking the stack backwards emits one sorted component per unvisited table |
| Kosaraju.BuildRev | internal/mycli/dependency_resolver.go:511-516 | whatever order the map is iterated in, the reversed adjacency holds exactly the flipped edges |
| Kosaraju.StronglyConnectedTableIds | internal/mycli/dependency_resolver.go:492-540 | the whole function returns the specified component list, a partition of the graph into strongly connected components |
| Kosaraju.SccListPartition | internal/mycli/dependency_resolver.go:492-540 | two tables share a component exactly when each reaches the other; every table is in exactly one component |
| Kosaraju.SccListPermutation | internal/mycli/dependency_resolver.go:492-540 | on one graph, the list of components is the same for every permutation of the input and every iteration order |
| Components.SccListOfSelection | internal/mycli/dependency_resolver.go:403-540 | permuting the selection changes neither the safety graph nor its list of components |
| Resolver.DependencyResolver.SelectedSafetyGraph | internal/mycli/dependency_resolver.go:403-434 | from each selected table to its selected prerequisites, self edges included, lists sorted and without repeats |
| Components.CyclicMeansOnCycle | internal/mycli/dependency_resolver.go:436-438 | the test on a component holds exactly when its members lie on a cycle, a table that references itself included |
| Components.CondensationAcyclic | internal/mycli/dependency_resolver.go:478-481 | the condensation never contains a cycle, so the error branch is dead |
| Condensation.BuildComponentOf | internal/mycli/dependency_resolver.go:458-463 | maps every listed table to the index of its component |
| Condensation.BuildIndexGraph | internal/mycli/dependency_resolver.go:464-475 | the index arrays hold exactly the condensed edges and their indegrees, whatever the map iteration order |
| Condensation.CondensedIsIndexEdges | internal/mycli/dependency_resolver.go:466-475 | the condensed edges are the prerequisite edges between different components |
| Condensation.EmitNext | internal/mycli/dependency_resolver.go:478-487 | index -1 never comes back; the pick is the least component whose prerequisites are all emitted; the counts stay right |
| Condensation.EmitComponents | internal/mycli/dependency_resolver.go:476-488 | all components are emitted, greedily least first |
| Condensation.GreedyTransfers | internal/mycli/dependency_resolver.go:457-489 | least index first is least head first, because components are sorted by head |
| Resolver.DependencyResolver.OrderedSafetyComponents | internal/mycli/dependency_resolver.go:449-490 | succeeds exactly when every selected table is exportable (the cycle error is never returned) and then returns the safety plan |
| Components.PlanCoversOnce | internal/mycli/dependency_resolver.go:449-490 | the components of a plan together list each selected table once |
| Components.PrerequisiteComponentFirst | internal/mycli/dependency_resolver.go:445-490 | every safety edge between components puts the prerequisite's component first |
| Components.CyclicFlagExact | internal/mycli/dependency_resolver.go:436-490 | the Cyclic flag holds exactly when a member, equivalently every member, lies on a cycle |
| Components.PlanIsLeast | internal/mycli/dependency_resolver.go:445-490 | no order of the components that respects prerequisites is lexicographically smaller by least member |
| Components.PlanUnique | internal/mycli/dependency_resolver.go:445-490 | the plan is a function of the catalog and the set of selected tables |
| Resolver.DependencyResolver.CyclicSafetySccs | internal/mycli/dependency_resolver.go:389-398 | lists exactly the components with a table on a cycle; empty exactly when no selected table is on one |
| Resolver.OrderGraph.AddOrderEdge | internal/mycli/dependency_resolver.go:300-315 | adds one edge unless it is a self edge, leaves the selection or repeats; indegrees keep counting prerequisites |
| Resolver.DependencyResolver.AddEdgesOf | internal/mycli/dependency_resolver.go:317-335 | the order edges into one table: its interleave parent, and foreign-key parents that are not its interleave descendants |
| Resolver.DependencyResolver.PickNext | internal/mycli/dependency_resolver.go:343-374 | the least ready table, else the least table whose interleave parent is not left, else the least left |
| Resolver.DependencyResolver.TopologicalSort | internal/mycli/dependency_resolver.go:289-384 | fails exactly when a table is unknown; otherwise outputs each selected table once, following the picking rule for the whole run |
| Resolver.DependencyResolver.GetOrderForTables | internal/mycli/dependency_resolver.go:280-287 | the same after the catalog check, with both error cases |
| InsertOrder.SortRunUnique | internal/mycli/dependency_resolver.go:289-384 | one output only: map iteration order cannot show |
| InsertOrder.CleanPlaced | internal/mycli/dependency_resolver.go:342-383 | in any graph, a table with no cycle upstream comes after all its prerequisites and before the first fallback pick |
| InsertOrder.RespectsEdgesIffAcyclic | internal/mycli/dependency_resolver.go:289-384 | the output respects every order edge if and only if the order graph has no cycle |
| InsertOrder.FallbackBreaksOrder | internal/mycli/dependency_resolver.go:351-373 | the fallback can go wrong outside the cycle too: a table is placed before its prerequisite although neither lies on a cycle, because the prerequisite is downstream of one |
| InsertOrder.AcyclicOrderIsLeast | internal/mycli/dependency_resolver.go:289-384 | on an acyclic order graph the output is the lexicographically least topological order |
| InsertOrder.CandidatesExist | internal/mycli/dependency_resolver.go:357-371 | with acyclic interleave links the last-resort candidate set is never used |
| InsertOrder.ParentPrecedesChild | internal/mycli/dependency_resolver.go:322-373 | with acyclic interleave links every selected interleave parent precedes its child, whatever the foreign keys do |
| InsertOrder.OrderIsFlippedSafety | internal/mycli/dependency_resolver.go:317-335 | when no selected table is on a safety cycle the ancestor skip never fires, and order edges are the safety edges reversed |
| InsertOrder.SequentialOrderSafe | internal/mycli/dependency_resolver.go:289-434 | when no component is cyclic, every enforced non-self foreign-key parent and every interleave parent precedes its dependent |
| InsertOrder.DumpOrderSafe | internal/mycli/dependency_resolver.go:159-398 | the same end to end, from the rows of the foreign-key query and the DDL of the interleave parents |
| SkippedOrder.SkipIsTrim | internal/mycli/dependency_resolver.go:322-335 | the order is that of the catalog without the foreign keys from a table to one of its own interleave descendants |
| SkippedOrder.SkippedOrderSafe | internal/mycli/dependency_resolver.go:289-384 | if only such foreign keys close cycles, every other foreign-key parent and every interleave parent precedes its dependent |
| SkippedOrder.NeedsRespected | internal/mycli/dependency_resolver.go:289-384 | in any graph, a table that no cycle of the remaining needs leads to follows everything it needs; the whole order respects the needs exactly if they have no cycle, and is then the least that does |
| SkippedOrder.SafetyFromRows | internal/mycli/dependency_resolver.go:159-434 | the safety graph read off the query rows and the DDL: one edge for every interleaving and every foreign key that is not exempt, self references included |
| SkippedOrder.DumpOrderSkips | internal/mycli/dependency_resolver.go:159-398 | end to end from rows and DDL, with the skipped foreign keys |
| MutationPlan.WriteTo | internal/mycli/dump_cyclic_mutations.go:47-58 | writes the warning, BEGIN RW, the statements in order and COMMIT, as many bytes as the budget was charged |
| MutationPlan.CyclicBudget.Retain | internal/mycli/dump_cyclic_mutations.go:68-74 | charges exactly when the limit is positive and not exceeded, else changes nothing |
| MutationPlan.EncodeTable | internal/mycli/dump_cyclic_mutations.go:172-191 | every row encoded behind the statements so far; the charge is the growth of the group's exact size, frame included with the first statement; over budget only if the full table would not fit |
| MutationPlan.PrepareCyclicData | internal/mycli/dump_cyclic_mutations.go:149-202 | on success every table was dumpable, the statements are each table's rows sorted, table after table, and the charge is their exact size; every error but cancellation is traced to a table of the component or to the limit |
| MutationPlan.SortTextBytes | internal/mycli/dump_cyclic_mutations.go:199-199 | sorting a table's statements does not change how many bytes they take |
| MutationPlan.GroupBlocks | internal/mycli/dump_cyclic_mutations.go:149-202 | the statements of a group are the rows of its tables: as many as there are rows, table after table, each table's in ascending order |
| MutationPlan.PrepareDumpMutationUnits | internal/mycli/dump_cyclic_mutations.go:204-251 | on success every selected table is covered once, a table is marked empty exactly if it lies on a cycle and then has no rows, every group holds one cyclic class, the budget's used bytes equal what the groups write and stay within the limit, and the order is component order if some group is populated, else the legacy order; an error other than cancellation names its cause: an unknown table, a table of the plan that cannot be dumped, or, if all its tables can be, a plan larger than the limit |
| MutationPlan.UnitsMean | internal/mycli/dump_cyclic_mutations.go:204-251 | what each unit says of its tables, in whatever order the units come |
| MutationPlan.PlanCovers | internal/mycli/dump_cyclic_mutations.go:211-234 | each selected table is in exactly one unit, as a table or inside one group; every other table in none |
| MutationPlan.PrerequisiteUnitFirst | internal/mycli/dump_cyclic_mutations.go:211-234 | a prerequisite in another component is in an earlier unit |
| MutationPlan.LegacyOrder | internal/mycli/dump_cyclic_mutations.go:236-248 | table units sorted by position in the INSERT order come in exactly that order |
| SourceCuts.ApplyCuts | internal/mycli/dump_ddl_replay.go:234-244 | the loop over sorted, possibly overlapping cuts returns exactly the source characters outside their union |
| SourceCuts.OutsideTokens | internal/mycli/dump_ddl_replay.go:234-244 | cutting the ranges of some tokens leaves the text of the other tokens |
| SourceCuts.CommaBeside | internal/mycli/dump_ddl_replay.go:205-231 | finds the comma behind a declaration, or for the last one without a trailing comma the one in front |
| SourceCuts.CutAlternates | internal/mycli/dump_ddl_replay.go:197-233 | dropping any declarations with their commas leaves one comma between survivors, adjacent removals at the end included |
| SourceCuts.RemovedWellFormed | internal/mycli/dump_ddl_replay.go:183-249 | removing any subset of inline foreign keys leaves one comma between consecutive survivors, none in front and at most one behind |
| SourceCuts.RemovedDecls | internal/mycli/dump_ddl_replay.go:183-249 | the survivors are exactly the other declarations, unchanged and in order |
| SourceCuts.RemoveInlineFks | internal/mycli/dump_ddl_replay.go:183-249 | fails exactly when there is no second declaration or the parser refuses the rewritten text; otherwise returns the text of what is not cut |
| DdlReplay.Prepare | internal/mycli/dump_ddl_replay.go:33-131 | succeeds exactly on accepted input whose rewritten statements parse again, and returns the statements, rewritten, followed by the deferred ALTER statements |
| DdlReplay.OutputReplays | internal/mycli/dump_ddl_replay.go:86-130 | the output replays on an empty catalog: every foreign key finds its target created earlier or by its own CREATE, ignoring case, own synonyms included |
| DdlReplay.PairsConserved | internal/mycli/dump_ddl_replay.go:92-130 | every (table, foreign key) pair is kept, inline or added, none twice |
| DdlReplay.NoForwardIdentity | internal/mycli/dump_ddl_replay.go:93-121 | without a forward foreign key nothing changes and nothing is deferred |
| DdlReplay.Idempotent | internal/mycli/dump_ddl_replay.go:33-131 | the output is accepted again and comes back unchanged |
| DdlReplay.OutputPrepared | internal/mycli/dump_ddl_replay.go:33-131 | the next run accepts that output whatever the parser says of rewritten text, because it rewrites nothing |
| DdlExact.KeysClash | internal/mycli/dump_ddl_replay.go:133-135 | two identities clash exactly if schema and name agree up to letter case |
| DdlExact.CreatedExactly | internal/mycli/dump_ddl_replay.go:84-89 | the names created are exactly the tables and, in their schema, the synonyms of the statements so far |
| DdlExact.KeptExactly | internal/mycli/dump_ddl_replay.go:90-118 | an accepted statement keeps its kind and names and exactly the declarations that do not point forward, unchanged and in order |
| DdlExact.DeferredExactly | internal/mycli/dump_ddl_replay.go:90-111 | the constraints added at the end are exactly the inline foreign keys whose target no statement up to then declares, with the table's name text and their own text |
| DdlExact.TextsExactly | internal/mycli/dump_ddl_replay.go:117-130 | every statement comes out in its place, as it was unless it has a forward foreign key, and behind them one ALTER per forward foreign key |
| DdlExact.AcceptedExactly | internal/mycli/dump_ddl_replay.go:33-131 | accepted exactly if every CREATE TABLE can be read, no table name was declared before, every foreign key refers to a declared table, and a table with a forward foreign key declares something else |
| FanIn.RunInv | internal/mycli/execute_partitioned.go:195-312 | every reachable state of every interleaving keeps the submitter, consumer and per-partition tracking invariants |
| FanIn.SuccessIsComplete | internal/mycli/execute_partitioned.go:273-311 | if the consumer reads to the end or returns the errors it is handed and the call returns nil, every row of every partition was delivered once, in order within its partition |
| FanIn.FinishExactly | internal/mycli/execute_partitioned.go:295-311 | the call returns nil if and only if consume returned nil, no cancellation came from outside, and no worker ended with an error or some worker ended cancelled |
| FanIn.CleanRunSucceeds | internal/mycli/execute_partitioned.go:273-311 | if no partition fails, nobody cancels from outside and consume returns nil, the call returns nil, an empty result included |
| FanIn.ErrorIsReturned | internal/mycli/execute_partitioned.go:295-311 | a worker's own error is reported unless another worker ended cancelled |
| FanIn.OneMoreAtMost | internal/mycli/execute_partitioned.go:205-216 | after a cancellation at most one more partition is submitted, one that was already past the test |
| FanIn.WorkersBounded | internal/mycli/execute_partitioned.go:212-216 | at most max(parallelism, 1) workers run at any time, and none when the call has returned |
| FanIn.MetadataBeforeRows | internal/mycli/execute_partitioned.go:228-276 | if partitions with rows report metadata with their first response, no row is yielded before consume has metadata: a row received earlier waits while the metadata is loaded |
| FanIn.MetadataCanBeMissed | internal/mycli/execute_partitioned.go:190-194 | the comment that metadata is nil only when no partition reported it is false: a run without any cancellation from outside in which another partition fails first |
| FanIn.MetadataMissedOnCancel | internal/mycli/execute_partitioned.go:228-276 | and false even if every partition reports with its first response: a run in which one fetch is cut off before its response and its error arrives first |
| FanInMetadata.PromiseExactly | internal/mycli/execute_partitioned.go:190-276 | with all partitions running at once that promise holds in every interleaving, outside cancellation included, if and only if no partition ever reports or the only partition reports with its first response |
| FanInMetadata.PromiseWithoutCancel | internal/mycli/execute_partitioned.go:190-276 | in the interleavings without outside cancellation it holds if and only if no partition ever reports or every partition that sends anything reports with its first response |
| FanInMetadata.PromiseAtEveryParallelism | internal/mycli/execute_partitioned.go:190-276 | both conditions are exact for any list of partitions when the promise is asked at every parallelism |
| FanInMetadata.KeptPromise | internal/mycli/execute_partitioned.go:190-276 | the sufficient half of both, for every parallelism |
| FanIn.NoDeadlock | internal/mycli/execute_partitioned.go:195-312 | every reachable state in which the call has not returned has an enabled step that needs no outside cancellation |
| FanIn.EveryStepProgresses | internal/mycli/execute_partitioned.go:195-312 | a measure falls with every step of every process |
| FanIn.RunsAreFinite | internal/mycli/execute_partitioned.go:195-312 | so no run is longer than the initial measure |
| IdleManager.TransactionManager.NoteIdleUserWork | internal/mycli/idle_transaction.go:149-163 | under a block the timer is cancelled and a rearm becomes due, otherwise a fresh interval starts |
| IdleManager.TransactionManager.RearmIdle | internal/mycli/idle_transaction.go:214-228 | a new generation with a deadline one interval from now, or only a cancelled timer |
| IdleManager.TransactionManager.MaybeRearmOrExpireIdle | internal/mycli/idle_transaction.go:189-212 | at release: rearm if due, else expire if a deadline elapsed under the block |
| IdleManager.TransactionManager.TryIdleExpire | internal/mycli/idle_transaction.go:238-258 | a firing watcher of another owner or generation changes nothing; under a block it records the elapsed deadline; otherwise it rolls back |
| IdleManager.TransactionManager.EndIdleResultHold | internal/mycli/idle_transaction.go:111-127 | drops one hold and settles what is due in the same critical section |
| IdleManager.TransactionManager.LeaveStatementFrame | internal/mycli/transaction_manager.go:432-452 | drops one frame; at depth zero retires an expire-pending owner or settles what is due |
| IdleManager.TransactionManager.ApplyLocalIdleTimeout | internal/mycli/idle_transaction.go:53-69 | refused without an owner, and for another interval once work was admitted; otherwise the interval is set |
| IdleManager.TransactionManager.RollbackAndRetireIdle | internal/mycli/idle_transaction.go:260-274 | the owner is rolled back once, the notice is left, no owner remains |
| IdleManager.TransactionManager.ConsumeIdleNotice | internal/mycli/idle_transaction.go:81-96 | the notice is reported at most once, and not at all to an acknowledging statement |
| IdleOwner.InvStep | internal/mycli/idle_transaction.go:53-282 | every operation keeps the invariant: timers belong to admitted work, a current deadline is never too early, a due rearm or elapsed deadline exists only under a block |
| IdleOwner.NeverEarly | internal/mycli/idle_transaction.go:53-282 | in every run an owner is rolled back for idleness only when no statement and no result hold is left, and at least its interval after the last admitted work, computed from the run |
| IdleOwner.StaleForever | internal/mycli/idle_transaction.go:238-243 | a timer of an older generation or of a gone owner changes nothing whenever it fires |
| IdleOwner.WorkMakesStale | internal/mycli/idle_transaction.go:149-163 | in every run, a timer pending when work is admitted rolls nothing back at any later time it fires, whether or not a block defers rearming; at most it marks a deadline as elapsed under a due rearm |
| IdleOwner.ReleaseMakesStale | internal/mycli/idle_transaction.go:189-205 | in every run, after the release that performs a due rearm such a mark is gone, and a timer pending at that release changes nothing whenever it fires |
| IdleOwner.DeadlineKept | internal/mycli/idle_transaction.go:98-109 | statements and holds without admitted work neither move nor drop a running deadline |
| IdleOwner.ElapsedUnderHold | internal/mycli/idle_transaction.go:246-252 | after the current deadline fired under a block, the owner survives without new work only while the block lasts; release rolls it back |
| IdleOwner.AlwaysWatched | internal/mycli/idle_transaction.go:149-252 | no wake-up is lost: a live owner with work and an interval has a current timer pending, or is blocked with a rearm or expiry due |
| IdleOwner.DeadlineExactly | internal/mycli/idle_transaction.go:214-228 | every current timer of the live owner ends exactly one interval after its quiet interval began: at the last work admitted without a block, or at the end of the last block under which work was admitted |
| IdleOwner.ExpiresOnTime | internal/mycli/idle_transaction.go:214-274 | expiry is never late: once an unblocked owner with work has been quiet for its interval, a watcher can fire, and firing rolls the owner back |
| IdleOwner.RearmDueExactly | internal/mycli/idle_transaction.go:149-205 | a rearm is due exactly while the block lasts under which work was admitted on an owner with an interval |
| IdleOwner.CountersExactly | internal/mycli/transaction_manager.go:416-452 | the block is in force exactly while an entered statement or a result hold is open |
| IdleOwner.OwnerComesAndGoes | internal/mycli/idle_transaction.go:53-282 | an owner appears only by being installed, new, with its interval and without work, and is gone after retirement |
| IdleOwner.NoticeExactly | internal/mycli/idle_transaction.go:81-96 | a notice is pending exactly if an owner was rolled back for idleness and no notice was consumed since |
| IdleOwner.TimedOutEnds | internal/mycli/transaction_timeout.go:158-182 | an owner that timed out lives at most as long as the statement that was running |
| IdleOwner.IntervalSet | internal/mycli/idle_transaction.go:53-69 | SET LOCAL takes effect exactly as long as no work was admitted |
| IdleOwner.IntervalFrozen | internal/mycli/idle_transaction.go:53-69 | in every run the interval of an owner never changes after admitted work, as long as it lives |
| IdleOwner.DeadBranches | internal/mycli/idle_transaction.go:196-202 | a due rearm always finds an interval and admitted work, and an expire-pending owner is never marked idle-expired: both branches are dead |
| FingerprintStream.U32Injective | internal/mycli/savepoint_fingerprint.go:181-185 | the four-byte length is injective below 2^32 |
| FingerprintStream.U64Injective | internal/mycli/savepoint_fingerprint.go:187-191 | the eight-byte two's-complement count is injective on 64-bit integers |
| FingerprintStream.CancelRows | internal/mycli/savepoint_fingerprint.go:97-109 | row blocks can be read back without knowing how many there are, because the end tag differs from the row tag |
| FingerprintStream.TailInjective | internal/mycli/savepoint_fingerprint.go:112-137 | query, DML and batch tails are told apart, and their counts, although the batch tail omits the row count |
| FingerprintStream.StreamInjective | internal/mycli/savepoint_fingerprint.go:51-137 | equal streams mean equal fields, rows, completion kind and counts, with lengths below 2^32 |
| FingerprintStream.StreamExample | internal/mycli/savepoint_fingerprint.go:51-149 | one whole stream byte by byte: domain, tags, lengths and counts |
| ReceiptDrivers.ResultFingerprinter.New | internal/mycli/savepoint_fingerprint.go:51-69 | writes the domain, the tag, the count and every field; fails exactly when a type cannot be marshalled |
| ReceiptDrivers.ResultFingerprinter.ObserveGcvs | internal/mycli/savepoint_fingerprint.go:90-110 | writes the row block value by value, stops at the first failure and counts only complete rows |
| ReceiptDrivers.ResultFingerprinter.ObserveRow | internal/mycli/savepoint_fingerprint.go:71-88 | finished, nil, wrong width and undecodable rows are refused before anything is written |
| ReceiptDrivers.ResultFingerprinter.Finish | internal/mycli/savepoint_fingerprint.go:112-149 | the tail is appended once and the hash of the whole stream returned; a second completion is refused |
| Receipt.RowTaken | internal/mycli/savepoint_fingerprint.go:71-110 | a row is recorded exactly when it decodes, has the width and fits the declared types; then its block is appended whole |
| ReceiptDrivers.OperationReceipt.ObserveMetadata | internal/mycli/savepoint_receipt.go:48-72 | the receipt after metadata, all branches |
| ReceiptDrivers.OperationReceipt.FieldsFromRow | internal/mycli/savepoint_receipt.go:185-198 | the columns a row announces, or the error of a nil or undecodable row |
| ReceiptDrivers.OperationReceipt.ObserveRow | internal/mycli/savepoint_receipt.go:74-103 | the receipt after a row, including a fingerprinter opened from the row itself |
| ReceiptDrivers.OperationReceipt.Finish | internal/mycli/savepoint_receipt.go:105-166 | the receipt after a completion, first or later, for all three kinds |
| Receipt.Observed | internal/mycli/savepoint_receipt.go:48-103 | a run of observations is recorded exactly when every one was accepted; otherwise the receipt is spoiled |
| Receipt.FirstCompletion | internal/mycli/savepoint_receipt.go:139-166 | the first completion fixes for good whether there are bytes, and which |
| Receipt.BytesExactly | internal/mycli/savepoint_receipt.go:48-166 | in every run bytes come back exactly from completions without error, of the first completion's kind, if that one had no error and every earlier observation succeeded; the bytes are always the hash of what was observed before it |
| Receipt.TypesMustAgree | internal/mycli/savepoint_fingerprint.go:90-110 | a row is recorded under announced types exactly if it has the width, everything can be marshalled, and each type is the announced one or one of the two is left open |
| Receipt.LaterCountIgnored | internal/mycli/savepoint_receipt.go:121-141 | a second DML completion with another affected count gets the bytes of the first, although its own stream would differ |
| Receipt.OrderIrrelevant | internal/mycli/savepoint_receipt.go:48-103 | rows first or metadata first, the same fingerprint, when the first row announces the metadata's row type or cannot be read |
| Receipt.SameFingerprint | internal/mycli/savepoint_fingerprint.go:51-137 | unless the hash collides on the two streams, two results share a fingerprint exactly when columns, rows and completion are written alike |
| Receipt.DisagreementShows | internal/mycli/savepoint_receipt.go:48-103 | rows first and metadata first give the same fingerprint exactly when the metadata and what the first row announces are written alike, or when neither row type takes all the rows |
| ReceiptDrivers.ConsumeRowsFirst | internal/mycli/row_iter.go:46-122 | the rows-then-metadata loop returns no error exactly when a fingerprint is left, and that is the hash of the rows and their row type exactly when the iterator and every consumer call succeeded and every row could be recorded |
| ReceiptDrivers.ConsumeMetadataFirst | internal/mycli/row_iterator_transform.go:63-135 | the same for the metadata-then-rows loop with its preparation and finish hooks |
| ReceiptDrivers.ConsumeBothWays | internal/mycli/row_iter.go:46-122 | running both loops over one result, each with a fresh receipt, leaves the same fingerprint and fails alike when the first row announces the metadata's row type or cannot be read; there is one exactly when the iterator and the consumer succeed and every row can be recorded |
| AbortManager.TransactionManager.AbortWaitBudget | internal/mycli/retry_aborts.go:111-140 | the time left to the earlier of the caller's and the owner's deadline, zero when exhausted, unlimited when there is none |
| AbortManager.TransactionManager.OwnerDeadlineExhausted | internal/mycli/retry_aborts.go:88-96 | an expire-pending owner or a deadline that has come |
| AbortRetry.WaitEndsInTime | internal/mycli/retry_aborts.go:72-86 | the clamped wait ends by both deadlines, and is shortened only to end exactly at one |
| AbortManager.TransactionManager.ReconstructExplicitPhysical | internal/mycli/explicit_abort_retry.go:237-261 | drops the physical transaction and constructs the next attempt, or retires the owner |
| AbortManager.TransactionManager.ReplayJournal | internal/mycli/explicit_abort_retry.go:263-276 | executes the journal entry by entry on the current physical transaction, stopping at the first error |
| AbortManager.TransactionManager.PrepareAttempt | internal/mycli/explicit_abort_retry.go:152-191 | one stretch from the top of the loop to the wait, every exit included |
| AbortManager.TransactionManager.WakeUp | internal/mycli/explicit_abort_retry.go:192-233 | one stretch from retaking the lock to a result or the next round |
| AbortManager.TransactionManager.RecoverExplicitAbort | internal/mycli/explicit_abort_retry.go:143-235 | under arbitrary interference during the wait: success only with the same owner attached and its whole journal replayed since the lock was retaken; another owner is left as found; at most 49 reconstructions; the loop terminates |
| AbortRetry.AtMost49 | internal/mycli/explicit_abort_retry.go:26-28 | over any number of recoveries in any interleaving with any other code, no owner is reconstructed more than 49 times, and the counter is exact |
| AbortRetry.ReachesFortyNine | internal/mycli/explicit_abort_retry.go:26-28 | a run that reaches the 49 reconstructions, after which the next abort ends the call |
| AbortRetry.RecoveryTerminates | internal/mycli/explicit_abort_retry.go:152-234 | every call ends after at most 49 waits, however the waits interleave |
| AbortRetry.CallExactly | internal/mycli/explicit_abort_retry.go:143-191 | in every run, which calls wait, which change nothing, and which fail leaving no owner or a recovering one, from the inputs of the step |
| AbortRetry.ContinueExactly | internal/mycli/explicit_abort_retry.go:192-234 | in every run, which resumed calls recover, go round with a new attempt, or fail: a complete replay recovers, a repeated abort goes round while budget, deadlines and constructor allow, any other replay error retires the owner |
| AbortRetry.RoundWaitsInTime | internal/mycli/explicit_abort_retry.go:173-191 | the wait of a round ends by both deadlines, counted from after the constructor, and is the asked delay whenever that fits |
| AbortRetry.OtherOwnerUntouched | internal/mycli/explicit_abort_retry.go:192-233 | in every run, a recovery that wakes up to another owner or none changes nothing and has failed for good; one that wakes up to its own leaves it, journal intact, or none |
| AbortRetry.SuccessIsReplayed | internal/mycli/explicit_abort_retry.go:143-226 | in every run a call that succeeded was made before any output for an eligible owner, and when it last came back that owner was attached and its whole journal was executed, in order, on the physical attempt found there |
| AbortRetry.FreshAttemptHoldsJournal | internal/mycli/explicit_abort_retry.go:173-226 | in every run in which nobody else recovers the owner while a call waits and other code leaves its physical transaction alone, success leaves the attempt built before the wait, holding exactly the journal |
| AbortRetry.JournalExactly | internal/mycli/explicit_abort_retry.go:173-226 | in every run whose other code leaves the physical transaction alone, the attempt of the latest reconstruction holds exactly the journal after a success if and only if no call that came back since had executed any of it |
| AbortRetry.LatestRebuildExists | internal/mycli/explicit_abort_retry.go:173-176 | every waiting call has such a latest reconstruction of its owner |
| AbortRetry.SerializedHoldsJournal | internal/mycli/explicit_abort_retry.go:143-235 | if no call is made while another waits, and other code leaves the physical transaction alone while one waits, every success leaves exactly the journal on the attempt built before its last wait |
| AbortRetry.JournalReplayedTwice | internal/mycli/explicit_abort_retry.go:196-226 | without that serialization it can fail: two overlapping recoveries of one owner both succeed and the journal is executed twice |
| AbortRetry.DeliveredEndsRetry | internal/mycli/explicit_abort_retry.go:147-150 | in every run a call made after output was delivered reconstructs nothing and at no later point has recovered |
| QueryRetry.DeliveredByteCounter.Write | internal/mycli/explicit_abort_retry.go:39-48 | counts what the caller's writer took; without a writer nothing is counted |
| QueryRetry.Collect | internal/mycli/execute_sql.go:380-398 | after any output the counter knows how much was taken and whether anything was presented |
| QueryRetry.ExecuteQuery | internal/mycli/execute_sql.go:360-418 | the loop starts exactly the attempts it should, and the caller's writer gets the output of the last one only |
| QueryRetry.OneAttemptShows | internal/mycli/execute_sql.go:360-418 | all output of all started attempts is the output of the last |
| QueryRetry.NothingAfterDelivery | internal/mycli/execute_sql.go:366-372 | once an attempt delivered a byte or presented anything, no further attempt starts |
| QueryRetry.StartsExactly | internal/mycli/execute_sql.go:360-418 | the next attempt starts exactly if the last one failed with an eligible error before it showed anything and recovery succeeded |
| ImportClosure.IndexDescriptorFiles | internal/mycli/pull_remote_proto.go:317-323 | the index groups the files by name, in order |
| ImportClosure.ClosureWalk.ChoosePullFile | internal/mycli/pull_remote_proto.go:242-259 | the choice for a name, from the indexes |
| ImportClosure.ChoiceRule | internal/mycli/pull_remote_proto.go:242-259 | remote before local: a name belongs to the remote store if that has it at all, and must be unique in its store; missing and ambiguous exactly characterized |
| ImportClosure.ClosureWalk.Walk | internal/mycli/pull_remote_proto.go:216-233 | the recursive walk terminates on cyclic imports; everything newly seen is reachable, chosen, collected once and has its imports seen; a failure names a reachable file that cannot be chosen |
| ImportClosure.CollectPullImportClosure | internal/mycli/pull_remote_proto.go:213-240 | fails exactly when some file reachable from the roots has no unique file in its store; otherwise returns exactly the reachable files, each once |
| ImportClosure.ClosureIsLeast | internal/mycli/pull_remote_proto.go:213-240 | what is collected has the roots and every import of a collected file, and is the least such |

## Left out

- FanInMetadata.PromiseExactly: the necessary half is for configurations in which all partitions may run at once, or for all parallelisms together (FanInMetadata.PromiseAtEveryParallelism); at one fixed smaller parallelism the exact condition also depends on which partitions can be submitted before the first item arrives.
- FanInMetadata.PromiseWithoutCancel: the same limit; FanInMetadata.KeptPromise, the sufficient half of both, has none.
- FanIn.RunInv: a fetch that starts or goes on after a cancellation may still succeed, and one that is cut off may or may not have had its response; both are allowed at every moment.
- FanIn.SuccessIsComplete: assumes a consumer that reads to the end or returns every error it is handed; one that swallows errors gets nil from the code too.
- ReceiptDrivers.ConsumeMetadataFirst: the order of hook calls (metadata before the first row, rows, finish; stop at the first error) is that of the library iterator, which is not part of this model.
- AbortManager.TransactionManager.RecoverExplicitAbort: heartbeats, pending captures and in-flight counts dropped with the physical transaction are not modelled.
- AbortRetry.SerializedHoldsJournal: that callers are serialized, and that only timers and the heartbeat act during a wait, is assumed of the rest of the program, which is not part of this model.
- QueryRetry.ExecuteQuery: what each attempt would do is a given list, so the theorem covers every prefix of a longer loop; that recovery stops after 49 reconstructions of an owner is AbortRetry.AtMost49.
- IdleOwner.ExpiresOnTime: that a watcher whose deadline has passed is eventually scheduled is up to the runtime.
- IdleOwner.NeverEarly: the per-owner hold taken and released around one DML call inside a single critical section is invisible to timers and left out.
- MutationPlan.PrepareDumpMutationUnits: cancellation may strike at any check, so each error implies its cause and not the other way round; column and row queries are given maps.
- SourceCuts.RemoveInlineFks: the tokens are taken as the parser reports them, so the checks for source positions out of range are not modelled; the parser's verdict on the rewritten text is an arbitrary predicate.
- DdlReplay.Prepare: parsing of the statements is given, with the same consequence.
- DdlReplay.OutputReplays: names are compared with ASCII case folding; other letters are taken as they are.
- Resolver.DependencyResolver.QueryForeignKeys: table records are values in a map, so two references to one record are not modelled; the SQL of the catalog queries is left out.
- Receipt.SameFingerprint: collision freedom is assumed for the two streams compared; lengths are below 2^32, as truncated lengths are genuinely ambiguous.
- FingerprintStream.StreamInjective: an absent type and one that marshals to no bytes are written alike, so fields are compared as written.
- Error texts, wrapping and error chains: only which error case is taken is modelled.
- Buffered partitioned queries, partition tokens and partitioned DML.
- The implicit abort retry, whose counter is a local loop bound; freezing of query options; SET LOCAL checks.
- Encoding of mutation rows and types as SQL text, and the dump writer itself.
- Type selection, conflict and downgrade checks of PULL REMOTE PROTO around the closure.
- Spanner RPCs, contexts, iterators, protobuf marshalling and SHA-256 internals: abstract inputs or functions.
- Flags, configuration, completion, rendering, pager and meta commands.
