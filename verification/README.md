# Verified model of the Fuji mount manager

Fuji is a daemon, written in Rust, that mounts network shares, watches them, reconnects the failed ones and
shares its configuration with other nodes. This project models its algorithmic cores in Dafny and proves what
they promise, or, where the code does not keep the promise, exactly when it does.

`dafny verify dfyconfig.toml` checks everything. Spec functions say what an operation computes, methods and
classes follow the imperative code and are proved equal to them, and the theorems are lemmas about the spec
functions.

| Modules | Part of Fuji |
|---|---|
| `DirectedGraphs`, `DepthFirst`, `MountIndex`, `CycleSearch`, `CycleReports`, `CycleLimits`, `PartialNames`, `HiddenCycle`, `Dependencies` | dependency graph of mounts: petgraph's multigraph with its index swaps, the two index maps, depth-first cycle search, startup and shutdown order, parallel groups |
| `OptionKeys`, `OptionParsing`, `OptionRoundTrip`, `OptionReparse`, `OptionOrder`, `OptionLeniency`, `MountOptionParser`, `OptionValues`, `OptionLimits` | mount option parser, defaults, validation and printer |
| `Retry`, `RetryRuns` | retry loop and the circuit breaker of each mount |
| `Lifecycle`, `Requests`, `Stranding`, `Passes`, `Backoff` | status, `enabled` and reconnection count of mounts under the monitoring task and concurrent requests; the reconnection delay over exact reals |
| `AuditChain`, `AuditOverlap`, `LogRotation` | in-memory audit buffer with its hash links, also under overlapping calls; log file rotation |
| `StateMachine` | the mount state machine with its non-atomic `transition` |
| `Frames` | length-prefixed messages between cluster nodes |
| `ConfigKeys` | listing and looking up configuration keys |
| `Text`, `Sequences`, `Wrappers` | string primitives, windows on sequences, `Option` and `Result` |

## What the proofs found

- **Removing a mount** moves petgraph's last node into the freed index without re-indexing it. The index stays
  coherent over a run if and only if each removal takes the mount with the highest index. Otherwise the moved
  mount drops out of every startup list, a new dependency on it makes petgraph panic, and the next mount added
  shares its node.
- **Removing a dependency** that was recorded more than once collects edge indices and removes them one by one
  while petgraph renumbers; a twin can survive. The exact condition is on the collected indices.
- **Cycle reports**: exact as long as no walk through distinct mounts towards a cycle is longer than 1000; how long
  walks are that lead to no cycle does not matter. The bound is tight, since a larger ring goes unreported. The first
  report is genuine. A later one starts on what the earlier ones left on the shared stack, and is genuine if and only
  if that part joins on to its own walk.
- **Cycle reports after a removal**: the search goes on through a node that has lost its name. Nothing is
  reported if and only if the search enters every cycle at such a node, and the first report leaves unnamed mounts
  out. Updates alone can build a cycle of two mounts that is never reported.
- **Parallel groups** are safe and never parallel: nothing is pushed to the work list after its first mount, so
  each group holds one mount.
- **Mount options, printing**: the options map of an accepted string survives printing if and only if every option
  without a value has a non-empty, unpadded name, `ro` and `rw` are not both present with one of them a flag, and a
  zero `timeo` comes with the flag `soft`; repeated keys are covered. `rw,ro=x` is accepted and does not come back.
  The typed records survive as well, for distinct keys and no empty value, if and only if no two conflicting options
  stand in the reverse of the printing order: `soft` before `hard`, `nointr` before `intr`, `suid` before `nosuid`,
  `fmode` or `dmode` before its alias with another mode, the flag `rw` before `ro` with a value. So `soft,hard`
  keeps its map and comes back as a soft mount.
- **Mount options, order**: for distinct keys, all permutations of a list have the same outcome if and only if no two
  of these conflicting options occur together, or every permutation is rejected. The latter is the case if and only
  if a value does not parse, a flag `ro` stands beside an `rw`, or even the order with `hard` before `soft` and the
  flag `rw` before `ro` with a value fails the validation.
- **Mount options, values**: a mode `0` is rejected although `00` and `1` are accepted. The limits on sizes, timeouts
  and NFS versions hold for the types `nfs` and `cifs` only, not for their other names `nfs4` and `smbfs`. The version
  `3.0` is always taken for one of NFS. A size with a suffix wraps modulo 2^64.
- **Circuit breaker**: a threshold of 0 acts as 1. Under a clock that goes back, a blocked breaker admits.
- **Mount lifecycle**: an unmount whose save fails puts the old status back, and if a reconnection was counted in
  between, an active mount is left with an attempt on its count. That is the only step that breaks the invariant.
  As a consequence of the invariant the reconnection delay is always the initial one; the curve is never climbed.
  The failed save gives back the status only, so that the mount is active and switched off.
  The same rollback can put `Reconnecting` back after the reconnection is over, and then no pass ever selects the
  mount again; without such a rollback only the mount being remounted is shown as reconnecting.
- **Reconnection delay**: it settles at its maximum if and only if the exact curve gets there before the exponent
  wraps at 2^31 attempts. A multiplier barely above 1, which the configuration accepts, never gets there.
- **Audit chain**: calls that overlap between reading the kept hash and pushing can fork the chain. It stays linked
  under every schedule in which no call reads the kept hash while another is between its reading and its push.
- **Log rotation** never loses anything but the oldest lines, whatever rename or removal fails and even with no
  backups configured; one rotation loses at most the file in the last slot.
- **State machine**: interleaved calls can move the state along an illegal edge, namely when a call writes after
  the state it checked has moved on; keeping each call's read and write together rules that out. The recorded history
  stays lawful all the same.
- **Configuration keys** with a dot in them, such as a mount named after a host, are listed and cannot be looked up.
  So are the keys of a table that stands under an empty key at the top, since they are listed without their prefix.
  For all other keys the lookup goes along the path that was listed.

## Model

| member | source | states |
|---|---|---|
| DirectedGraphs.RemoveEdgeRelation | src/monitoring/dependency.rs:199-203 | removing one edge by index, with petgraph's swap of the last index, leaves every other pair of nodes connected as before |
| DirectedGraphs.RemoveNodeRelation | src/monitoring/dependency.rs:123 | after `remove_node` the edges are those that did not touch the node, seen through the swap of the last node into its index |
| DirectedGraphs.AddEdgeIsFirst | src/monitoring/dependency.rs:171 | a new edge is the first that the neighbour lists of its ends give |
| DirectedGraphs.RemoveEdgeTargets | src/monitoring/dependency.rs:199-203 | after `remove_edge` the neighbours that remain are met in the order they were met before |
| DirectedGraphs.RemoveNodeTargets | src/monitoring/dependency.rs:123 | so they are after `remove_node`, seen through the swap |
| DepthFirst.PreorderIsReachable | src/monitoring/dependency.rs:423-457 | the depth-first order from a new root lists exactly the nodes that can be reached from it through nodes not visited before |
| DepthFirst.EntryOrderListsAll | src/monitoring/dependency.rs:403-416 | over all roots it lists every node of the graph once |
| MountIndex.AddMountKeeps | src/monitoring/dependency.rs:86-109 | a known mount is refused; a new one keeps both maps mutually inverse, adds exactly its id and no dependency |
| MountIndex.AddDependencyKeeps | src/monitoring/dependency.rs:147-178 | fails exactly when one of the mounts is unknown, naming the dependent first; otherwise exactly one dependency more, maps untouched |
| MountIndex.RemoveDependencyExact | src/monitoring/dependency.rs:181-206 | fails exactly when one of the mounts is unknown; other dependencies and the maps stay; the dependency itself goes if and only if the k-th collected edge index is below the number of edges left after k removals |
| MountIndex.AddMountAlways | src/monitoring/dependency.rs:86-109 | in any state of the maps: an unknown mount gets the next node and its name, even where a moved mount was left under that index; all else stays |
| MountIndex.AddDependencyAlways | src/monitoring/dependency.rs:147-178 | in any state: one edge more exactly when both mounts are known under indices that are nodes |
| MountIndex.RemoveDependencyAlways | src/monitoring/dependency.rs:181-206 | in any state: the exact removal on the graph's edges |
| MountIndex.RemoveMountAlways | src/monitoring/dependency.rs:112-144 | in any state: the mount is forgotten, its recorded index loses its name, the graph loses that node if there is one; all else stays |
| MountIndex.SingleDependencyRemoved | src/monitoring/dependency.rs:181-206 | a dependency recorded at most once is always removed |
| MountIndex.TwinSurvives | src/monitoring/dependency.rs:194-203 | a coherent graph from which removing a dependency leaves that dependency in place |
| MountIndex.RemoveMountCoherentIff | src/monitoring/dependency.rs:112-144 | removal keeps the index coherent if and only if the mount is unknown or has the highest index |
| MountIndex.ReindexRestores | src/monitoring/dependency.rs:112-144 | with the moved node re-indexed, removal of any mount keeps coherence and exactly the dependencies among the others; for the highest index that is the code as it stands |
| MountIndex.MovedMountIsLost | src/monitoring/dependency.rs:112-144 | otherwise the moved mount keeps an index that is no node, no node bears its name, and no dependency on or of it can be added |
| MountIndex.NextMountIsAliased | src/monitoring/dependency.rs:99-104 | and the next mount added gets the same node as the moved one |
| MountIndex.RunCoherentIff | src/monitoring/dependency.rs:86-206 | over every sequence of the four updates: coherent throughout if and only if each removal takes the highest index |
| MountIndex.RunValid | src/monitoring/dependency.rs:86-206 | over every sequence of the four updates, coherent or not, the graph itself stays well formed, so the queries can always run |
| MountIndex.RunMatching | src/monitoring/dependency.rs:86-206 | over every sequence of the four updates a named node is the one its mount is recorded under |
| Dependencies.RunNamesApart | src/monitoring/dependency.rs:86-206 | so no two nodes ever share a name |
| CycleSearch.CheckIsExact | src/monitoring/dependency.rs:396-464 | on a coherently named graph whose walks through distinct nodes towards a cycle are at most 1000 long nothing is reported if and only if there is no directed cycle, wherever else the depth cut-off fires |
| CycleSearch.SmallHasShortWalks | src/monitoring/dependency.rs:430-433 | every graph of at most 1000 nodes is of that kind |
| CycleSearch.FirstCycleIsGenuine | src/monitoring/dependency.rs:423-464 | whatever the size, the first report is a non-empty list of distinct mounts, each with an edge to the next and the last to the first |
| CycleSearch.VisitReports | src/monitoring/dependency.rs:423-464 | a search over any stack left by earlier searches reports the stack from some position on, closed by an edge from the end of its own walk, or reports nothing and restores the stack |
| CycleSearch.ReportGenuineIff | src/monitoring/dependency.rs:437-446 | such a report is a cycle of the graph if and only if the part left by earlier searches is a walk that goes on to the root |
| CycleSearch.VisitComplete | src/monitoring/dependency.rs:423-464 | a visit that finds nothing extends a list in which every finished node that reaches a cycle comes after all its successors that do |
| CycleLimits.LargeRingIsMissed | src/monitoring/dependency.rs:430-433 | for every size above 1000 a ring of that size is cyclic and goes unreported |
| CycleLimits.NumberedRingIsMissed | src/monitoring/dependency.rs:430-433 | with the mounts named by their numbers, such a ring is a graph of the kind the theorems are about |
| PartialNames.SilentVisitReaches | src/monitoring/dependency.rs:423-464 | for any names and any stack: a search from a new root that reports nothing, with room on the stack, has visited exactly what can be reached from there through nodes not visited before, named or not |
| PartialNames.VisitEnters | src/monitoring/dependency.rs:423-464 | it enters them in depth-first order, puts the stack back, and has met no cycle entered at a named node |
| PartialNames.SilentIff | src/monitoring/dependency.rs:396-464 | for any index without shared names, names missing or left over, and room on the stack: nothing is reported if and only if every cycle is entered at a node without a name |
| PartialNames.FirstReportSpells | src/monitoring/dependency.rs:396-464 | and the first report lists the named nodes of a cycle of the graph, from a named one on |
| PartialNames.SmallIsRoomy | src/monitoring/dependency.rs:430-433 | a thousand nodes leave that room |
| HiddenCycle.CycleIsHidden | src/monitoring/dependency.rs:112-144 | updates that end with two mounts depending on each other and nothing reported |
| HiddenCycle.CycleIsShortened | src/monitoring/dependency.rs:446-457 | a cycle through an unnamed node, reported without it |
| CycleReports.EveryReport | src/monitoring/dependency.rs:396-464 | for every graph and every report, with the stack its root really found: each report starts on what the ones before it left, and is genuine if and only if it starts on its own walk or the leftover part from its start on is a walk leading to its root |
| CycleReports.ApartIsGenuine | src/monitoring/dependency.rs:403-416 | a root from which no mount left on the stack can be reached reports only a genuine cycle |
| CycleLimits.LaterCycleCanBeBogus | src/monitoring/dependency.rs:403-416 | the condition can fail: a three-node graph whose second report is not a cycle of the graph |
| Dependencies.DependencyGraph.constructor | src/monitoring/dependency.rs:76-82 | starts with no nodes, no edges and empty maps |
| Dependencies.DependencyGraph.Add | src/monitoring/dependency.rs:86-109 | updates the three fields as `MountIndex.AddMount` says, or fails and changes nothing |
| Dependencies.DependencyGraph.Remove | src/monitoring/dependency.rs:112-144 | updates the three fields as `MountIndex.RemoveMount` says; an unknown id changes nothing |
| Dependencies.DependencyGraph.Depend | src/monitoring/dependency.rs:147-178 | updates the graph as `MountIndex.AddDependency` says, with the same errors |
| Dependencies.DependencyGraph.Undepend | src/monitoring/dependency.rs:181-206 | the loop over collected edge indices does what `MountIndex.RemoveDependency` says |
| Dependencies.DependencyGraph.CheckCircularDependencies | src/monitoring/dependency.rs:396-420 | the root loop reports what the search model reports; exact when no walk through distinct nodes towards a cycle exceeds 1000, first report genuine; with names missing, silent if and only if every cycle is entered at an unnamed node, first report genuine up to unnamed nodes |
| Dependencies.DependencyGraph.DfsFindCycle | src/monitoring/dependency.rs:423-464 | the recursive search over visited set and stack computes the search model for any graph, any names and any stack |
| Dependencies.Toposort | src/monitoring/dependency.rs:254-258 | fails if and only if the graph has a cycle, otherwise lists every node once with all edges pointing forward |
| Dependencies.TopologicalNames | src/monitoring/dependency.rs:260-264 | the ids of a topological order are the mounts, each once, every dependency before its dependents |
| Dependencies.NamesOfTopological | src/monitoring/dependency.rs:260-264 | for any index the list holds the names of exactly the graph's named nodes, each once and sources before targets when no two share a name |
| Dependencies.DependencyGraph.GetStartupSequence | src/monitoring/dependency.rs:249-272 | fails exactly on a cyclic graph; for any index it lists exactly the named nodes, sources before targets; with a coherent index a startup order whose groups flatten to it |
| Dependencies.DependencyGraph.GetShutdownSequence | src/monitoring/dependency.rs:275-284 | fails exactly on a cyclic graph; for any index it lists exactly the named nodes, targets before sources; with a coherent index every dependent before its dependencies, groups flattening to the list |
| Dependencies.ReversedIsShutdown | src/monitoring/dependency.rs:277 | a startup order read backwards is a shutdown order |
| Dependencies.FlattenReversed | src/monitoring/dependency.rs:278 | reversing the list of one-mount groups reverses the mounts they flatten to |
| Dependencies.DependencyGraph.DetermineParallelGroups | src/monitoring/dependency.rs:287-347 | for any list, with repeats or not, and any graph: every emitted mount has all its dependencies in earlier groups; a mount is passed over only when unknown or blocked at each of its turns; a startup order is emitted whole |
| Dependencies.DependencyGraph.TryGroup | src/monitoring/dependency.rs:301-342 | the work list emits its one mount exactly when its dependencies are all emitted, and never a second one |
| Dependencies.NothingWaits | src/monitoring/dependency.rs:319-333 | in a startup order no mount is blocked when its turn comes |
| Dependencies.LostFromStartup | src/monitoring/dependency.rs:260-264 | a mount whose node was moved by a removal is missing from the startup list, whatever order the sort picks |
| Dependencies.TestsAgree | src/monitoring/dependency.rs:249-420 | up to 1000 nodes, or with walks through distinct nodes towards a cycle of at most 1000, the search reports nothing exactly when the startup sequence exists |
| Text.SplitJoin | src/mount/options.rs:303-306 | splitting undoes joining for exactly the lists whose pieces do not hold the separator |
| Text.JoinSplit | src/mount/options.rs:303-306 | and joining undoes splitting for every string |
| Text.TrimSplits | src/mount/options.rs:303-306 | trimming takes away nothing but white space at the ends |
| Text.ParseUnsignedIff | src/mount/options.rs:363-368 | exactly the decimal numerals in range are read, leading zeros and one plus sign allowed, and as the numbers they are |
| OptionParsing.ParseSizeDecimal | src/mount/options.rs:275-299 | every printed size below 2^64 parses back to itself |
| OptionValues.ParseSizeSuffix | src/mount/options.rs:275-293 | n followed by letters K, M or G in either case is n times 1024, 1048576 or 1073741824, modulo 2^64 |
| OptionValues.ParseSizeTrims | src/mount/options.rs:276 | white space around a size does not count |
| OptionValues.ParseSizeOther | src/mount/options.rs:275-299 | no other letter is a suffix |
| OptionValues.ParseModeIs | src/mount/options.rs:369-390 | a mode is octal after a zero, decimal otherwise, and a lone zero is no mode |
| OptionValues.GivenNumber | src/mount/options.rs:350-442 | in an accepted list without repeats each number ends up in the field of its name |
| OptionValues.GivenSize | src/mount/options.rs:398-409 | so does each size, and it is recorded as a number |
| OptionValues.GivenSuffixedSize | src/mount/options.rs:275-299 | `rsize=<n>K` leaves n times 1024 in the record, and likewise for the other suffixes and for `wsize` |
| OptionValues.GivenMode | src/mount/options.rs:369-390 | so does each mode, under either name |
| OptionValues.GivenVersion | src/mount/options.rs:431-437 | a version that starts with 3 or 4 is one of NFS, the other known ones are of SMB |
| OptionValues.GivenFlags | src/mount/options.rs:445-516 | each switch is on exactly when its flag is given, as long as the opposite one is not |
| OptionValues.UntouchedField | src/mount/options.rs:309-310 | a field without a default that no option sets stays empty |
| OptionLimits.NfsDefaults | src/mount/options.rs:538-564 | which options and fields are filled in for `nfs`, with their values |
| OptionLimits.CifsDefaults | src/mount/options.rs:565-579 | the same for `cifs` and `smbfs` |
| OptionLimits.NothingGiven | src/mount/options.rs:530-593 | what the empty string is parsed to for each file system type |
| OptionLimits.NumberAcceptedIff | src/mount/options.rs:596-668 | which sizes, timeouts and NFS versions are accepted for each type, for every number |
| OptionLimits.AcceptedWithin | src/mount/options.rs:596-668 | every accepted list is within these limits |
| OptionLimits.FirstErrorCounts | src/mount/options.rs:312-332 | a list that the loop rejects is rejected for its first bad option and for what is wrong with that one |
| OptionLimits.ErrorNamesLimit | src/mount/options.rs:596-668 | a list that the validation rejects is rejected for a limit that it exceeds |
| OptionParsing.ProcessMeaning | src/mount/options.rs:350-516 | one more option under a new key is accepted exactly when the set stays acceptable, and the records move to the meaning of the larger set |
| OptionParsing.FoldMeaning | src/mount/options.rs:312-332 | with distinct keys and clashing options in printing order the loop succeeds exactly for an acceptable set and computes its order-free meaning |
| OptionOrder.ParsedField | src/mount/options.rs:302-347 | in an accepted result each field that two options can set has what the last of them wrote, defaults notwithstanding |
| OptionOrder.ParsedStores | src/mount/options.rs:302-347 | with distinct keys every option is recorded in the accepted result as it was given, sizes as numbers |
| OptionOrder.ReadOnlyWithRwRejected | src/mount/options.rs:445-516 | a flag `ro` beside any `rw` is never accepted, in either order |
| OptionOrder.OrderMattersIff | src/mount/options.rs:302-347 | for distinct keys: all permutations of the list have the same outcome if and only if no two options conflict or every permutation is rejected |
| OptionLeniency.AllRejectedIff | src/mount/options.rs:302-347 | for distinct keys: every permutation is rejected if and only if a value does not parse, a flag `ro` stands beside an `rw`, or the meaning of the set, where `soft` wins over `hard`, fails the validation |
| OptionLeniency.OrderFreeIff | src/mount/options.rs:302-347 | hence the order is without effect if and only if no two options conflict or that condition fails; for an accepted list, if and only if none conflict |
| OptionLeniency.LenientIsAccepted | src/mount/options.rs:302-347 | the permutation that is accepted whenever any is: `hard` before `soft`, the flag `rw` before an `ro` with a value |
| OptionLeniency.FoldIsHarsher | src/mount/options.rs:312-332 | whatever the order, the loop ends in a state that agrees with the meaning of the set in all that validation looks at, except that it may be hard where the meaning is soft |
| OptionOrder.NoConflictSameOutcome | src/mount/options.rs:302-347 | without a conflict each permutation is rejected alike or gives the same map, security and performance record |
| OptionRoundTrip.FoldKeeps | src/mount/options.rs:312-332 | for any accepted list, repeated keys included, recorded values parse again to themselves and the checked fields agree with them |
| OptionRoundTrip.PrintsUnique | src/mount/options.rs:673-689 | printing has one result although the hash map is iterated in any order |
| OptionReparse.ParsedIsClean | src/mount/options.rs:302-347 | what an accepted string leaves in the map is well formed, carries the defaults and passes validation again |
| OptionReparse.DefaultsIdle | src/mount/options.rs:530-593 | on a map that already carries the defaults of its file system type they change nothing |
| OptionReparse.ReparseExact | src/mount/options.rs:673-689 | for every accepted string: its printed form is accepted with the same options map if and only if the map is reparsable |
| OptionReparse.RecordsSurviveExact | src/mount/options.rs:673-689 | for every accepted string: its printed form gives back map and typed records if and only if the map is reparsable and the records are those the recorded options denote |
| OptionOrder.RecordsSurviveIff | src/mount/options.rs:673-689 | for distinct keys and no empty value: map and typed records survive printing if and only if no two conflicting options stand in the reverse of the printing order |
| OptionOrder.FlagsOnlyReparsable | src/mount/options.rs:673-689 | with distinct keys, no empty value and ro/rw only as flags the accepted map is reparsable, contradictory flags included |
| OptionReparse.UnprintableKeyIsLost | src/mount/options.rs:673-689 | an option without a value whose name is empty or padded is gone after reparsing |
| MountOptionParser.ParseOptions | src/mount/options.rs:302-347 | the loop with its early exits computes `Parse`; an accepted result is well formed and complete |
| MountOptionParser.FillDefaults | src/mount/options.rs:530-593 | the assignments per file system type are the same as processing the default options one by one |
| MountOptionParser.Format | src/mount/options.rs:673-689 | prints each entry once, sorted by key, joined by commas |
| MountOptionParser.SortedKeys | src/mount/options.rs:676-678 | lists exactly the keys of the map in ascending order |
| MountOptionParser.Reparse | src/mount/options.rs:302-689 | parse, print, parse again on the methods: the same options come back if and only if they are reparsable, and the same records if and only if the options denote them |
| MountOptionParser.ParseReordered | src/mount/options.rs:302-347 | parsing two permutations of a list with distinct keys on the methods has the same outcome unless two options conflict |
| MountOptionParser.RwThenRoValueIsLost | src/mount/options.rs:350-516 | `rw,ro=x` is accepted and its printed form does not give its options back |
| MountOptionParser.ContradictoryFlags | src/mount/options.rs:445-516 | `soft,hard` is hard, `hard,soft` is soft, and printing the first gives a soft mount |
| Retry.Accounting | src/monitoring/retry.rs:222-326 | for every script of outcomes: at most max(1, max_attempts) attempts, only failures before the last turn, a value exactly on success, operations equal attempts or one fewer when blocked |
| Retry.ScriptIsFollowed | src/monitoring/retry.rs:245-326 | for every script: the turns are those of the script, the value or message that comes back is that of the last turn, and the loop ends early only on success, a block or no further delay |
| Retry.HistoryIsTracked | src/monitoring/retry.rs:90-126 | over any calls and resets on a mount the breaker's fields, last failure included, are those of its history, and a turn is blocked if and only if it falls in the open window |
| Retry.FailureBudget | src/monitoring/retry.rs:97-109 | with no success or reset the breaker is open exactly once max(1, threshold) operations have failed, in whatever calls |
| Retry.QuietCalls | src/monitoring/retry.rs:112-126 | for any calls under a nondecreasing clock: no operation from the failure that fills the budget until the timeout has passed, and up to the next success each attempt is blocked exactly before that |
| Retry.QuietPeriod | src/monitoring/retry.rs:112-126 | the first half on a history: a success cannot close the breaker early either |
| Retry.AdmittedAfterTimeout | src/monitoring/retry.rs:112-126 | the second half on a history: blocked if and only if the timeout has not passed |
| RetryRuns.EachHasItsHistory | src/monitoring/retry.rs:191-332 | over any requests for any mounts: a mount's breaker exists once it was called, was sized by its policy of that time, opens for 60 seconds, and has the history of its own calls and resets |
| RetryRuns.DefaultThreshold | src/monitoring/retry.rs:46-57 | without a policy of its own a mount gets a threshold of 5 |
| RetryRuns.BudgetOfMount | src/monitoring/retry.rs:97-109 | the failure budget for a mount of the handler |
| RetryRuns.QuietMinute | src/monitoring/retry.rs:112-126 | from the failure that fills the budget of a mount no operation of it runs for 60 seconds, and its turns are blocked exactly during these until it succeeds |
| Retry.RetryHandler.constructor | src/monitoring/retry.rs:167-173 | starts with no policies and no breakers |
| Retry.RetryHandler.SetPolicy | src/monitoring/retry.rs:176-179 | replaces the policy of one mount and touches no breaker |
| Retry.RetryHandler.GetCircuitBreaker | src/monitoring/retry.rs:191-203 | an existing breaker, or a new closed one with the threshold of the policy of the moment, 5 without one, and a timeout of 60, which is kept |
| Retry.RetryHandler.UpdateCircuitBreaker | src/monitoring/retry.rs:206-219 | records the outcome on an existing breaker only |
| Retry.RetryHandler.TakeTurn | src/monitoring/retry.rs:247-291 | check, operation and recording of one loop turn change this mount's breaker and no other |
| Retry.RetryHandler.ExecuteWithRetry | src/monitoring/retry.rs:222-326 | the loop computes the turns of the model on the mount's own breaker, leaves all others alone, and serves the request as `RetryRuns` has it |
| Retry.RetryHandler.ResetBreaker | src/monitoring/retry.rs:329-332 | closes an existing breaker; an unknown mount gets none |
| Backoff.DelayCurve | src/config/mod.rs:576-588 | with multiplier at least 1, initial at most max and fewer than 2^31 attempts the delay is nondecreasing and within [initial, max] |
| Backoff.CappedIff | src/config/mod.rs:580-582 | the delay never exceeds max at any count if and only if initial does not, since the first delay is not capped |
| Backoff.DelayIsCurve | src/config/mod.rs:576-588 | at every 32-bit count but zero the delay is the exact curve rounded down, or max where the curve is above; from 2^31 on the curve is read at a negative exponent |
| Backoff.DelayReachesMax | src/config/mod.rs:584-587 | the delay is max as soon as linear growth would have reached it |
| Backoff.DelayIsMaxIff | src/config/mod.rs:584-587 | below 2^31 attempts the delay is max if and only if the exact curve, neither truncated nor capped, has reached it |
| Backoff.DelayIsEventuallyMaxIff | src/config/mod.rs:576-588 | some attempt below 2^31 has the delay at max from there up to 2^31, if and only if the exact curve has reached max at the last of them |
| Backoff.LinearGrowthSettles | src/config/mod.rs:584-587 | that is so from any attempt below 2^31 on at which linear growth reaches max |
| Backoff.SlowNeverReachesMax | src/config/mod.rs:576-588 | with the default delays and the multiplier 1 + 2^-40 the delay stays below 2000 at every 32-bit count |
| Backoff.CurveIsUnbounded | src/config/mod.rs:584 | without the wrap of the exponent every multiplier above 1 would get to max for good |
| Backoff.DelayFloorIff | src/config/mod.rs:584 | with a multiplier above 1 the delay stays at or above initial if and only if the count is below 2^31, where the signed cast wraps |
| Lifecycle.MonitorKeeps | src/daemon/mod.rs:2399-2562 | no step of the monitoring task breaks the invariant |
| Lifecycle.StepKeepsIff | src/daemon/mod.rs:1429-2562 | a step of any task keeps Active and Failed at zero attempts and all mounts at most one, if and only if it is not an unmount rollback over a counted reconnection |
| Lifecycle.InitialIsSound | src/mount/mod.rs:162-176 | a configuration with zero counts satisfies the invariant |
| Lifecycle.RunSoundIff | src/daemon/mod.rs:994-2562 | over every interleaving: every mount is sound in every state if and only if every step is harmless |
| Lifecycle.RunSoundWhenApart | src/daemon/mod.rs:994-2562 | every mount is sound in every state as long as no reconnection begins on a mount whose unmount is being saved |
| Lifecycle.RollbackRace | src/daemon/mod.rs:1429-1504 | a run from the initial state that ends with an active mount with one attempt on its count |
| Lifecycle.ErrorIsFinal | src/config/mod.rs:557-564 | a mount in Error or Reconnecting that no pass holds is never selected or changed again by any run until a request names it |
| Lifecycle.FailedRetryGivesUp | src/monitoring/mount_retry.rs:140-184 | a failed reconnection puts its mount in that position |
| Lifecycle.DelayNeverGrows | src/daemon/mod.rs:2528-2562 | in a sound state the delay consulted for any mount due for reconnection is the initial one |
| Requests.AskSwitches | src/daemon/mod.rs:1806-1910 | a known mount is switched on or off at once: `enabled` as asked, status Disabled, count kept; an unknown one is refused |
| Requests.SwitchedStays | src/daemon/mod.rs:2399-2562 | it stays so over any run that asks nothing else of it, and no pass takes it: for a mount switched off from the very start on, for one switched on once the first pass is over |
| Requests.SaveRestoresSwitch | src/daemon/mod.rs:1812-1910 | a failed save gives back the old `enabled` and nothing else, a successful one changes nothing |
| Requests.UnmountTurnsOff | src/daemon/mod.rs:1429-1504 | an unmount leaves the mount off with its count; a failed save gives back its status and leaves it off |
| Requests.MountAdds | src/daemon/mod.rs:1325-1380 | a mount request ends with an active mount with a zero count, or with a disabled one if that was asked for |
| Requests.RemoveRemoves | src/config/mod.rs:513-515 | a removal takes exactly its id out of the configuration |
| Requests.RemountActivates | src/mount/mod.rs:204-213 | a remount makes the mount active with a zero count |
| Requests.AutoMountMounts | src/daemon/mod.rs:2436-2472 | the first pass takes exactly the enabled mounts that wait, and makes active what it can mount |
| Requests.ChecksFail | src/daemon/mod.rs:2475-2525 | a health check takes the active mounts and makes those failed that do not pass |
| Requests.RetriesReconnect | src/monitoring/mount_retry.rs:140-184 | a reconnection counts and marks the mount first and leaves it active or in error |
| Requests.UnconcernedStays | src/daemon/mod.rs:994-1860 | a section of a request changes no mount but its own |
| Requests.MonitorTouchesCurrent | src/daemon/mod.rs:2399-2562 | nor does the monitoring task change any but the one it is dealing with |
| Requests.AskQueues | src/daemon/mod.rs:994-1860 | which requests a question adds |
| Requests.RequestsEnd | src/daemon/mod.rs:994-1860 | a request that ends takes only itself away; an unmount that was part of a removal leaves the removal to be done |
| Stranding.StepAttendsIff | src/daemon/mod.rs:1429-2562 | a step of any task keeps that only the mount being remounted is reconnecting, if and only if it is not a failed save that puts Reconnecting back after that remounting is over |
| Stranding.RunAttendedIff | src/daemon/mod.rs:994-2562 | over every interleaving: that holds in all states if and only if no step is such a rollback |
| Stranding.StrandedIsGivenUp | src/daemon/mod.rs:1429-1504 | the mount of such a rollback, unless a pass holds it, is one that no pass selects again |
| Stranding.MountIsStranded | src/daemon/mod.rs:1429-1504 | a run from zero counts that ends that way |
| Passes.MountConfig.constructor | src/mount/mod.rs:162-176 | a new mount is enabled, disabled in status, never connected, with a zero count |
| Passes.MountConfig.SetStatus | src/mount/mod.rs:204-213 | sets the status and the update time; only Active sets the connection time and clears the count |
| Passes.MountConfig.IncrementReconnectAttempts | src/mount/mod.rs:216-219 | one attempt more, nothing else but the update time |
| Passes.MountConfig.TurnOn | src/mount/mod.rs:228-231 | enabled, status Disabled and so waiting to be mounted, count and connection time kept |
| Passes.MountConfig.TurnOff | src/mount/mod.rs:234-237 | not enabled, status Disabled, count and connection time kept |
| Passes.MountConfig.BeginReconnecting | src/monitoring/mount_retry.rs:314-327 | one attempt more and status Reconnecting |
| Passes.MountConfig.FinishMounting | src/monitoring/mount_retry.rs:295-311 | Active with a zero count and a new connection time |
| Passes.CheckAllAt | src/daemon/mod.rs:2475-2525 | after a health pass exactly the mounts of the snapshot that failed their check are Failed, counts kept, the rest untouched |
| Passes.RetryAllAt | src/daemon/mod.rs:2528-2562 | after a reconnection pass each queued mount is Active with a zero count, in Error with one attempt more, or untouched behind an open circuit |
| Passes.ConfigStore.constructor | src/config/mod.rs:348 | starts without mounts |
| Passes.ConfigStore.AddMount | src/config/mod.rs:506-510 | puts the record under its id, replacing an earlier one, and keeps records unshared |
| Passes.ConfigStore.RemoveMount | src/config/mod.rs:513-515 | drops one id and touches no record |
| Passes.ConfigStore.TakeSnapshot | src/config/mod.rs:545-564 | lists each mount passing the filter once, in some order |
| Passes.ConfigStore.FailMount | src/daemon/mod.rs:466-482 | sets the one record to Failed in place; nothing happens when the mount is gone |
| Passes.ConfigStore.Reconnect | src/monitoring/mount_retry.rs:140-184 | the updates of one record come to the modelled outcome and touch no other mount |
| Passes.ConfigStore.CheckMountHealth | src/daemon/mod.rs:2475-2525 | the loop over the snapshot, updating records in place, does what the pass model says |
| Passes.ConfigStore.AttemptReconnections | src/daemon/mod.rs:2528-2562 | tries exactly the enabled failed mounts whose delay has passed, each once |
| Passes.CheckPassRuns | src/daemon/mod.rs:2475-2525 | the uninterrupted health pass is a run of the interleaved model and ends in the same configuration |
| Passes.RetryPassRuns | src/daemon/mod.rs:2528-2562 | so is the uninterrupted reconnection pass |
| AuditChain.BufferIsSuffix | src/security/audit_logging.rs:534-576 | over any calls, filtered, failing midway or not: the buffer is the last buffer_size accepted events, the counter their number, the kept hash that of the newest |
| AuditChain.AcceptedAreLinked | src/security/audit_logging.rs:840-871 | with chaining the kept hash is always that of the newest accepted event, so each accepted event names the hash of the one before it and the first names none |
| AuditChain.AcceptedCarryTheirHashes | src/security/audit_logging.rs:840-871 | from the attempts alone: the accepted events carry the hashes computed for the attempts that pass every stage, in order, each naming that of the one before, and all else of the event as it was given; the kept hash is that of the last |
| AuditChain.AnswerTells | src/security/audit_logging.rs:534-576 | which answer goes with an event that was kept out, filtered, failed or not written; one that is not written has been accepted all the same |
| AuditChain.BufferIsLinked | src/security/audit_logging.rs:534-576 | with chaining the buffer itself is linked at all times |
| AuditOverlap.ExclusiveIsLinked | src/security/audit_logging.rs:534-576 | over every schedule of overlapping calls, failing or not: all that was ever pushed, and the buffer, are one chain as long as no call reads the kept hash while another is between its reading and its push |
| AuditOverlap.OverlapForks | src/security/audit_logging.rs:840-871 | two overlapping calls that name the same predecessor and break the chain in the buffer |
| AuditOverlap.BufferIsLastPushed | src/security/audit_logging.rs:554-562 | under any schedule the buffer is the last buffer_size events pushed |
| AuditOverlap.PushedAreKnown | src/security/audit_logging.rs:840-871 | under any schedule each pushed event is one that was asked for, but for the predecessor it names |
| AuditChain.AuditLogger.LogEvent | src/security/audit_logging.rs:534-576 | one call updates buffer, hash and counter as modelled, gives the error of the first failing stage and never leaves the buffer too long |
| AuditChain.AuditLogger.ProcessEvent | src/security/audit_logging.rs:840-871 | gives the event the hash computed for it, links and counts it, or fails and leaves hash and counter as they were |
| LogRotation.ShiftKeeps | src/security/audit_logging.rs:922-932 | the descending renames, completed or cut short by a fault, keep a suffix of the lines on disk and, completed, free slot 1 |
| LogRotation.RotateKeeps | src/security/audit_logging.rs:914-946 | so does a whole rotation, for every backup count and every fault |
| LogRotation.RotateLosesOldest | src/security/audit_logging.rs:914-946 | for every backup count and fault a rotation, completed or cut short, loses at most the file in the last slot, and that as a whole |
| LogRotation.RotateOkIff | src/security/audit_logging.rs:914-934 | it succeeds if and only if there is a current file and none of the files to be moved refuses |
| LogRotation.RotateCleansUp | src/security/audit_logging.rs:936-943 | from any files on disk: it removes the nine backups beyond the count and leaves those beyond these alone |
| LogRotation.OnlyOldestLinesLost | src/security/audit_logging.rs:874-946 | over any run of writes and rotations, backups oldest to newest followed by the current file are a suffix of all lines ever written |
| LogRotation.RotateIsPush | src/security/audit_logging.rs:914-946 | without faults a rotation pushes the current file on the queue of backups and drops the oldest only when all slots are taken |
| LogRotation.RotationIsBoundedQueue | src/security/audit_logging.rs:874-946 | without faults file .i holds the i-th most recently rotated log and nothing exists past backup_count |
| LogRotation.FullLogIsComplete | src/security/audit_logging.rs:874-901 | the log the queue is compared with holds every line written, in order |
| LogRotation.FilesAreJustFull | src/security/audit_logging.rs:874-911 | every rotated file reached the maximum size in bytes with its last line, and the open one has not |
| LogRotation.LogFiles.RotateLogFiles | src/security/audit_logging.rs:914-946 | closes the writer; the rename and clean-up loops do what the rotation model says, stopping at the first failed rename |
| LogRotation.LogFiles.WriteToLogFile | src/security/audit_logging.rs:874-911 | appends the line, creating the file if need be, and rotates exactly when the file has reached its maximum size |
| StateMachine.EveryInterleavingIsLawful | src/mount/state_machine.rs:122-181 | for calls interleaved between read, write and record: every entry is a legal edge, the history is the last hundred recorded, each state held is allowed by an earlier one |
| StateMachine.MountedOnlyAfterMounting | src/mount/state_machine.rs:98-119 | `Mounted` is never held before `Mounting` has been |
| StateMachine.LaterStatesComeLater | src/mount/state_machine.rs:98-119 | nor `Unmounting` before `Mounted`, nor `Failed` before `Mounting` |
| StateMachine.EnteredFrom | src/mount/state_machine.rs:98-119 | the states that each state is entered from |
| StateMachine.EveryChangeIsRecordedOnce | src/mount/state_machine.rs:141-172 | each state has been held as often as it was recorded or is about to be, so no change is lost or recorded twice |
| StateMachine.WalkIff | src/mount/state_machine.rs:128-145 | the state itself moves along legal edges only, if and only if no call writes when the state no longer allows it |
| StateMachine.UndisturbedIsWalk | src/mount/state_machine.rs:128-145 | in particular if no call writes between another call's read and its write |
| StateMachine.RacingCallsJump | src/mount/state_machine.rs:128-145 | two calls that make the state jump along an illegal edge and leave a last entry that is not the current state |
| StateMachine.SerialCallsChain | src/mount/state_machine.rs:122-181 | calls made one at a time: entries chain from-to, the last leads to the current state, the history is the last min(n, 100) transitions |
| StateMachine.MountStateMachine.constructor | src/mount/state_machine.rs:76-90 | starts unmounted with an empty history |
| StateMachine.MountStateMachine.Transition | src/mount/state_machine.rs:122-181 | an uninterrupted call succeeds exactly on a legal edge, then takes the new state and records one entry, keeping a hundred; it does what the four steps of the interleaved model do |
| StateMachine.MountStateMachine.GetLastN | src/mount/state_machine.rs:220-228 | the last n entries, or all when there are fewer |
| Frames.ValueOfBigEndian | src/network/tcp.rs:257 | a number that fits in n bytes, written most significant byte first, is read back as itself |
| Frames.PrefixBytes | src/network/tcp.rs:247-248 | the four bytes of a length, most significant first |
| Frames.ReadFrame | src/network/tcp.rs:245-260 | a frame of a payload shorter than 2^32 at the front of a stream is read as that payload and leaves the rest |
| Frames.StreamReadsBack | src/network/tcp.rs:310-335 | the concatenated frames yield exactly what was sent, up to the first message that does not parse |
| Frames.CompleteIs | src/network/tcp.rs:312-335 | the count of complete leading frames: that many fit in the cut and one more does not |
| Frames.TruncationYieldsCompleteFrames | src/network/tcp.rs:310-335 | for any parser: a cut of the stream yields the payloads of the complete leading frames up to the first that does not parse, and ends with that error, or exactly when a length arrived without its data with the broken frame |
| Frames.ReadsBackIffShort | src/network/tcp.rs:247-248 | what is read is what was sent if and only if every payload is shorter than 2^32, since the length wraps |
| Frames.PeerConnection.SendMessage | src/network/tcp.rs:241-274 | writes the frame, a beginning of it when the connection breaks, or nothing when there is no usable stream, with the matching error |
| Frames.Listener.HandleConnection | src/network/tcp.rs:310-370 | the loop hands on what the reading model yields; the peer is taken off the table except after a message that does not parse |
| ConfigKeys.KeysAreJoinedPaths | src/cli/mod.rs:1308-1334 | the listed keys are the paths of the nodes below the root joined by dots, in order, one for each |
| ConfigKeys.ListedKeysResolve | src/cli/mod.rs:1308-1334 | for a document without dots in its keys the listed keys are distinct and looking each up gives the very node it was listed for, through tables and arrays |
| ConfigKeys.LookupFollowsPathIff | src/cli/mod.rs:1259-1277 | for any parsed document, dots and empty keys allowed: looking up a listed key goes along its own path if and only if no key on the path has a dot and the path does not go through an empty key at the top; then it arrives at its node |
| ConfigKeys.FoundIsListed | src/cli/mod.rs:1259-1277 | whatever can be looked up is listed, under the same path up to the spelling of array indices |
| ConfigKeys.DottedKeyIsLost | src/cli/mod.rs:1259-1277 | a table entry named like a host is listed and cannot be looked up |
| ConfigKeys.EmptyKeyIsLost | src/cli/mod.rs:1259-1334 | a key below an empty top-level key is listed without its prefix and cannot be looked up |
| ConfigKeys.CollectKeys | src/cli/mod.rs:1308-1334 | the recursive loops compute the listing |
| ConfigKeys.GetNestedValue | src/cli/mod.rs:1259-1277 | the walk over the parts of the key computes the lookup, up to the conversion of the node found |
| ConfigKeys.StepIs | src/cli/mod.rs:1259-1277 | one part of a key leads to the table entry of that name, or to the item whose index it is a numeral of, if there is one |

## Left out

- Dependencies.Toposort: petgraph's sort is replaced by one that may return any topological order, so nothing is said about which order petgraph picks.
- Dependencies.DependencyGraph.DfsFindCycle: the visited set and the stack are passed in and handed back, because Dafny has no by-reference parameters; aliasing of the two buffers is not modelled.
- PartialNames.FirstReportSpells: later reports on an index that lacks names are only said to be those of the search model.
- MountIndex.AddDependencyKeeps: the type and metadata of an edge are not modelled; no modelled operation reads them.
- OptionValues.ParseSizeSuffix: the multiplication wraps modulo 2^64, as in a build without overflow checks; a checked build panics instead.
- OptionReparse.RecordsSurviveExact: the raw option list is excluded, because the printed string has its own.
- MountOptionParser.SortedKeys: a sort by insertion stands for the library's sort.
- Retry.HistoryIsTracked: the failure counter is unbounded, its 32-bit overflow is not modelled.
- Retry.Accounting: of a policy only max_attempts matters, the delays of the backoff crate are answers of the environment; the seconds in the message of a blocked attempt are left out.
- Backoff.DelayCurve: exact reals, no floating-point rounding; a multiplier below 1 is rejected by the configuration's own validation.
- Lifecycle.StepKeepsIff: mounting, unmounting, checks, saving and the clock are choices of the environment; the paths on disk, metadata and times of a mount are not part of it.
- Lifecycle.RollbackRace: a failed save of a new mount is no step of the model, since that path asks for the write lock while its read guard is held (src/daemon/mod.rs:1380-1392), so no rollback is claimed there.
- Lifecycle.RunSoundIff: `sync_with_system` and configuration merges from the cluster do not take part.
- AuditChain.BufferIsSuffix: calls run one at a time here, `AuditOverlap` is about overlapping ones. Hashes are opaque values.
- AuditOverlap.ExclusiveIsLinked: filters, files, monitors and the event counter do not take part.
- LogRotation.OnlyOldestLinesLost: a line is written whole or not at all, and no other process touches the files.
- StateMachine.EveryInterleavingIsLawful: reasons, errors, time stamps and notifications are not modelled.
- Frames.TruncationYieldsCompleteFrames: the authentication exchange before the loop, replies and the deserialised message are left out.
- ConfigKeys.GetNestedValue: the conversion of the node found to JSON is left out.
- Getters, validation of `depends_on`, DOT output, type statistics and the mount driver traits: each is settled by reading one body.
- Cryptography, credentials, sockets, processes, the platform layer, the sync coordinator and the protocol drivers.
- CLI output, doctor reports, health scores, alerts and the cron scheduler.
