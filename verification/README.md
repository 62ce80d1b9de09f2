# Verified models of MongoDB 4.4's build and CI tooling

The scripts that build and test the server contain a handful of real algorithms: a dependency
resolver, a deadlock detector, a test-suite splitter, a work pool, an error-code fixer, and a few
parsers and stores. This project models them in Dafny and proves what they compute, for all inputs
and, where there is state or concurrency, for all runs.

`dafny verify dfyconfig.toml` checks everything.

## Layout

| file | contents |
|---|---|
| `Wrappers.dfy`, `Sorting.dfy` | optional values; Python's stable sort and string order |
| `Digraph.dfy`, `DepthFirst.dfy`, `SearchOrder.dfy` | walks, reachability, cycles; the depth-first search that two scripts perform; the order in which it lists nodes |
| `LibDeps.dfy`, `LibDepsOrder.dfy`, `LibDepsRuns.dfy`, `LibDepsStale.dfy` | the library dependency resolver with its caches; the order of its answers; runs of declarations and queries; which answers are right in any run |
| `LockGraph.dfy`, `LockOrder.dfy` | the waits-for graph and deadlock detection; its order and which cycle comes first |
| `SuiteSplit.dfy`, `SuitePacking.dfy`, `SuiteSelection.dfy`, `SuiteTimeouts.dfy` | splitting a suite, what the split guarantees, the generated selectors, timeouts |
| `WorkPool.dfy` | the linters' worker threads as an interleaving state machine |
| `TextEdit.dfy`, `ErrorCodes.dfy`, `CodeFixer.dfy`, `CodeRescan.dfy` | numerals and text substitution, the code checker, the code fixer, what the checker finds after a fix |
| `ResmokeArgs.dfy` | argument strings |
| `MongodOptions.dfy`, `ShellSplit.dfy`, `ShellQuote.dfy`, `MongodRoundTrip.dfy`, `OptionMeaning.dfy` | option maps printed and parsed: what splitting can lose, that it undoes quoting, which maps come back, and what any words mean |
| `CachePrune.dfy`, `TagStore.dfy` | cache pruning with failing deletions, the tag store |

The main results:

- **Resolver.** The search specification `DepthFirst.Explore` is proved to list exactly the reachable
  nodes, each after all its successors, or to name a real simple cycle, and to report a cycle exactly
  when there is one; roots and successors are finished in turn. The stateful resolver computes it from
  any state its caches may be in; the order in which dependencies were declared does not matter, that of
  their names decides. In runs that declare nothing for a node a query
  has already looked at, however declarations and queries are mixed, every answer is the fresh one. In
  any run whatever, an error names a real cycle, and a list is right exactly when it holds the direct
  dependencies declared by then and has the dependencies of each listed node behind it.
- **Deadlock detector.** Proved to compute the same specification, so both walkers share one
  correctness proof. The debugger command reports a cycle exactly when agents wait on one another in a
  ring, through locks at the same addresses,
  and pruning isolated nodes changes neither whether a cycle is reported nor which one.
- **Splitter.** No test is lost or repeated and limits and caps hold. Apart from suites closed only for
  being full, next fit uses at most 2b - 1 suites where some packing within the time has b bins, and at
  most 3b - 2 in all where the bins respect the count too. The generated files together select what
  the source suite selects exactly when the misc suite is created or the tests are all of them; for the
  fallback split, exactly when there are at least as many tests as sub-suites (or the roots name
  nothing).
- **Work pool.** In every interleaving items run at most once, the result once all workers are done is
  whether all items pass, a failure leads to the stop, after which no worker takes an item unless it was
  about to, and every run ends.
- **Fixer.** Editing backwards, one file rewrite at a time, equals substituting all codes at once, and
  goes on exactly as long as the locations are zeros at different spots. Once it has gone through, the
  next check passes exactly when the scan before was fixable.
- **Argument strings and stores.** Setting an argument is read back, and updates of one argument leave
  another alone on all texts exactly when neither flag ends with the other. Splitting undoes every way of
  quoting words, the last flag and the last value behind it decide an option, and a printed option map
  parses back to itself exactly when each of its options is printable. A tag store counts as modified after a
  run exactly when a kind was added or some tag came or went.

## Modelling decisions

- SCons nodes are identities with a naming function; lock-graph keys are a datatype with one
  constructor per key prefix, so keys of different kinds differ as the formatted strings do.
- The collections a recursive search passes down by reference are objects (`Search`, `Trail`);
  dictionaries carry their insertion order where iteration order matters. An exception is an outcome
  value.
- Ghost parameters tell a method which abstract value its object stands for.
- Runtimes, times and ratios are exact reals. Counts that may be `None` or 0 for "no limit" are
  integers with 0 for both, since the code tests their truth value.
- Selector roots and excludes are patterns with an expansion function; a test name expands to itself.
- Deletion results, the tests found on disk, the pattern matches in source files, and the schedule of
  threads are inputs.
- The patterns that find error codes take a whole run of digits behind a bracket and blanks. A scan after
  a fix is modelled as finding the same locations where they have moved to, with the digits now there.

Where the code and what it says differ, the model follows the code:

- Tests left over at the suite cap are said to be added randomly; they are dealt out in turn.
- An empty list of roots or excludes counts as not given, and without excludes the source's own
  excludes are dropped, so a sub-suite without tests runs all of the roots (`FallbackPreserves`).
- The next code can only be computed from two or more scanned codes (`GetNextCode`).
- A zero code of several digits is only partly overwritten (`RescannedCode`), a zero code written
  `00` that occurs once is not reported at all, and the fixer may write codes above the maximum
  (`CheckAfterFix`).
- A dependency declared for a node whose answer or nonempty sorted list is cached is not seen by later
  queries, including first queries of other nodes (`DeclarationUnseen`, `AskTooEarly`,
  `QueryAfterDeclaration`).
- An argument whose flag ends with another argument's flag is changed along with it (`UndisturbedIff`).

## Model

| member | source | states |
|---|---|---|
| DepthFirst.ExploreCorrect | mongo-r4.4.6/site_scons/libdeps.py:111-131 | a finished search lists exactly the nodes its roots reach, once each and after their successors; otherwise it yields a simple cycle the roots reach; a cycle is reported if and only if one is reachable |
| DepthFirst.VisitSound | mongo-r4.4.6/site_scons/libdeps.py:111-131 | each visit keeps the invariant that `walking - marked` is the stack of visits in progress and that finished nodes are topologically listed; an error in flight is a walk that closes at the node met twice |
| DepthFirst.VisitAllApart | mongo-r4.4.6/buildscripts/gdb/mongo_lock.py:134-142 | a search that skips the nodes no edge touches ends in the same way, with the same cycle |
| SearchOrder.ExploreInTurn | mongo-r4.4.6/site_scons/libdeps.py:111-131 | a finished search lists what its roots reach root after root, and every node right after its successors, successor after successor |
| SearchOrder.FirstRootFails | mongo-r4.4.6/site_scons/libdeps.py:111-131 | a failing search names a cycle that the first root to reach any reaches, from the node on at which it is entered |
| LibDeps.Libraries.Append | mongo-r4.4.6/site_scons/libdeps.py:254-260 | declares dependencies and leaves both caches alone |
| Sorting.StringLeqMeaning | mongo-r4.4.6/site_scons/libdeps.py:106 | strings are ordered by the first position at which they differ, a prefix coming first |
| LibDeps.Libraries.SortedDirect | mongo-r4.4.6/site_scons/libdeps.py:102-108 | returns what walks see, filling the cache without changing that view; unless cached, these are the declared dependencies in alphabetical order of the names; an empty cached list counts as none |
| LibDeps.Libraries.Visit | mongo-r4.4.6/site_scons/libdeps.py:111-131 | in any cache state performs exactly the specified visit: same sets, same list, same unwound error |
| LibDeps.Search.Close | mongo-r4.4.6/site_scons/libdeps.py:125-131 | the end of a visit: the node is finished, or a passing error is extended until its ends meet |
| LibDeps.Libraries.VisitEach | mongo-r4.4.6/site_scons/libdeps.py:121-123 | the loop over sorted dependencies visits exactly those not of the hidden kind, in order, stopping at the first error |
| LibDeps.Libraries.GetLibdeps | mongo-r4.4.6/site_scons/libdeps.py:134-157 | from any state, answers from the cache or with the resolution of the current view, and caches only successes |
| LibDeps.LibdepsCorrect | mongo-r4.4.6/site_scons/libdeps.py:111-157 | the answer lists without repeats, and each ahead of its own non-Private dependencies, exactly the nodes reachable over non-Private edges from a non-Interface direct dependency; it is an error if and only if a cycle is reachable, and then names a simple one |
| LibDeps.DeclaredMeaning | mongo-r4.4.6/site_scons/libdeps.py:121-123 | an edge is followed if and only if a Public or Interface dependency declares it; a node is a root if and only if it is a Public or Private direct dependency |
| LibDepsOrder.AnswerByName | mongo-r4.4.6/site_scons/libdeps.py:102-157 | with the linked direct dependencies in alphabetical order, for any number of them the end of the list is exactly what the first ones reach |
| LibDepsOrder.ErrorByName | mongo-r4.4.6/site_scons/libdeps.py:102-157 | an error names a cycle that the first of them to reach any reaches, from the node on at which it is entered |
| LibDeps.DeclarationOrderIrrelevant | mongo-r4.4.6/site_scons/libdeps.py:102-108 | with distinct names, permuting any node's declarations gives the same list or the same cycle error |
| LibDepsRuns.QueryIsFresh | mongo-r4.4.6/site_scons/libdeps.py:140-157 | a query in a state with coherent caches answers from the declarations and keeps the caches coherent |
| LibDepsRuns.UnrelatedDeclaration | mongo-r4.4.6/site_scons/libdeps.py:111-131 | a declaration for a node that is neither asked about nor listed leaves the fresh answer as it is |
| LibDepsRuns.NeverStale | mongo-r4.4.6/site_scons/libdeps.py:102-157 | in every run that declares nothing for a node a query has looked at before, each answer is the one computed afresh from what is declared at that moment |
| LibDepsRuns.DeclareThenQuery | mongo-r4.4.6/site_scons/libdeps.py:134-157 | in every run whose declarations precede its queries, each answer is the one computed afresh |
| LibDepsRuns.DeclarationUnseen | mongo-r4.4.6/site_scons/libdeps.py:102-108 | once a nonempty sorted list is cached for a node, a declaration for it changes what no query resolves to, whichever node is asked about |
| LibDepsRuns.StillCorrectIff | mongo-r4.4.6/site_scons/libdeps.py:111-157 | a list that was a correct answer still is one after a declaration if and only if it holds the new direct dependencies and has the new followed ones behind the node they were declared for |
| LibDepsRuns.QueryAfterDeclaration | mongo-r4.4.6/site_scons/libdeps.py:102-157 | in any state of the caches: where the answer or the nonempty sorted list was cached, a query after a declaration gives the answer of before, and if that was right, it is wrong now if and only if it is a list that does not cover the declaration; otherwise, with coherent caches, it gives the fresh answer |
| LibDepsStale.RunSound | mongo-r4.4.6/site_scons/libdeps.py:102-157 | in every state of every run, cached sorted lists hold declared dependencies only, and cached answers list, without repeats, only what is reached over declared edges |
| LibDepsStale.RightIff | mongo-r4.4.6/site_scons/libdeps.py:102-157 | for every query of every run, the answer is right for the declarations of the moment if and only if it names a cycle or is a list that holds the direct dependencies and has whatever a listed node depends on behind it |
| LibDepsRuns.StaleRun | mongo-r4.4.6/site_scons/libdeps.py:140-157 | declaring, asking, declaring and asking again gives the first answer, which is not the fresh one, whatever the names |
| LibDepsRuns.AskTooEarly | mongo-r4.4.6/site_scons/libdeps.py:140-157 | such a run on the resolver itself |
| LockGraph.WaitsForGraph.AddNode | mongo-r4.4.6/buildscripts/gdb/mongo_lock.py:114-117 | adds a node at the end of the dictionary unless its key is there |
| LockGraph.WaitsForGraph.AddEdge | mongo-r4.4.6/buildscripts/gdb/mongo_lock.py:144-159 | adds both nodes if needed and the link unless it is there |
| LockGraph.KeyLaw | mongo-r4.4.6/buildscripts/gdb/mongo_lock.py:38-89 | keys agree if and only if both are threads of one id, idle transactions of one locker, or locks at one address |
| LockGraph.WithEdgeMeaning | mongo-r4.4.6/buildscripts/gdb/mongo_lock.py:144-159 | the graph stays well formed and gains that edge and no other |
| LockGraph.WaitsForGraph.FindFromNode | mongo-r4.4.6/buildscripts/gdb/mongo_lock.py:125-132 | returns the entry of the first predecessor in dictionary order, and finds one if and only if there is one |
| LockGraph.WaitsForGraph.RemoveNodesWithoutEdge | mongo-r4.4.6/buildscripts/gdb/mongo_lock.py:134-142 | keeps exactly the nodes with an edge, in order and unchanged, successors included |
| LockGraph.PrunedVerdict | mongo-r4.4.6/buildscripts/gdb/mongo_lock.py:134-142 | pruning changes neither whether a cycle is reported nor which |
| LockGraph.WaitsForGraph.DepthFirstSearch | mongo-r4.4.6/buildscripts/gdb/mongo_lock.py:203-224 | refines the search specification: same visited set, path restored, and the path cut at the repeated node is the specified cycle |
| LockGraph.WaitsForGraph.DetectCycle | mongo-r4.4.6/buildscripts/gdb/mongo_lock.py:226-234 | returns the specified verdict for every well-formed graph |
| LockGraph.VerdictCorrect | mongo-r4.4.6/buildscripts/gdb/mongo_lock.py:226-234 | nothing is reported if and only if the graph is acyclic; otherwise a real simple cycle is |
| LockGraph.RecordedEdges | mongo-r4.4.6/buildscripts/gdb/mongo_lock.py:306-307 | the edges are exactly waiter to lock and lock to holder of the recorded waits |
| LockOrder.RecordedOrder | mongo-r4.4.6/buildscripts/gdb/mongo_lock.py:114-159 | the dictionary lists the vertices in the order in which the waits first name them |
| LockOrder.RecordedLinks | mongo-r4.4.6/buildscripts/gdb/mongo_lock.py:144-159 | so does the list of successors of each vertex |
| LockOrder.FirstReported | mongo-r4.4.6/buildscripts/gdb/mongo_lock.py:203-234 | the cycle reported is one that the first vertex to reach any reaches, from the vertex on at which it is entered |
| LockGraph.ReportedCycleAlternates | mongo-r4.4.6/buildscripts/gdb/mongo_lock.py:353-355 | a reported cycle has even length of at least two, alternates locks and agents, and each step is a recorded wait or hold |
| LockGraph.DeadlockReported | mongo-r4.4.6/buildscripts/gdb/mongo_lock.py:203-234 | a cycle is reported if and only if some agents, told apart by thread id or locker, wait on one another in a ring through locks told apart by address |
| LockGraph.WaitsForCycle | mongo-r4.4.6/buildscripts/gdb/mongo_lock.py:433-447 | the whole command: builds, prunes, detects; reports if and only if the waits are deadlocked, and then different vertices each of which waits for, or is held by, the next |
| SuiteSplit.Suite.AddTest | mongo-r4.4.6/buildscripts/evergreen_generate_resmoke_tasks.py:596-606 | the running total, maximum and info count stay those of the tests added |
| SuiteSplit.PlaceTest | mongo-r4.4.6/buildscripts/evergreen_generate_resmoke_tasks.py:349-361 | one turn of the packing loop does what `Place` says, including the cap |
| SuiteSplit.PackSuites | mongo-r4.4.6/buildscripts/evergreen_generate_resmoke_tasks.py:343-364 | the packing loop computes the next-fit groups and the tests left over |
| SuiteSplit.DivideRemaining | mongo-r4.4.6/buildscripts/evergreen_generate_resmoke_tasks.py:290-298 | the wrap-around counter adds item j to suite j modulo the number of suites |
| SuiteSplit.DivideTests | mongo-r4.4.6/buildscripts/evergreen_generate_resmoke_tasks.py:322-370 | distinct suites holding exactly the groups of `Divide` |
| SuiteSplit.FallbackSuites | mongo-r4.4.6/buildscripts/evergreen_generate_resmoke_tasks.py:992-1001 | the same dealing from empty suites, all runtimes zero |
| SuitePacking.FallbackAt | mongo-r4.4.6/buildscripts/evergreen_generate_resmoke_tasks.py:992-1001 | test j is at place j / n of suite j modulo n, with runtime zero |
| SuitePacking.FallbackHolds | mongo-r4.4.6/buildscripts/evergreen_generate_resmoke_tasks.py:992-1001 | nothing else is in the suites, and no runtime in them is known |
| SuitePacking.DealAt | mongo-r4.4.6/buildscripts/evergreen_generate_resmoke_tasks.py:290-298 | dealing leaves each suite what it had, and behind it, in turn, the items of its share |
| SuitePacking.PackConserves | mongo-r4.4.6/buildscripts/evergreen_generate_resmoke_tasks.py:349-364 | the groups in a row, then the left-over tests, are the tests in order |
| SuitePacking.DivideConserves | mongo-r4.4.6/buildscripts/evergreen_generate_resmoke_tasks.py:322-370 | every test is in exactly one suite, cap or no cap |
| SuitePacking.PackWithinLimits | mongo-r4.4.6/buildscripts/evergreen_generate_resmoke_tasks.py:301-361 | no group is empty; each respects time and count or is a single test; left-over tests mean exactly as many groups as the cap |
| SuitePacking.DivideWithinLimits | mongo-r4.4.6/buildscripts/evergreen_generate_resmoke_tasks.py:322-370 | never more suites than the cap, none empty, and all within the limits when the cap was not reached |
| SuitePacking.NextFitBound | mongo-r4.4.6/buildscripts/evergreen_generate_resmoke_tasks.py:301-364 | with k groups, f closed only for being full, (k - 1 - f) * max time is at most twice the total runtime |
| SuitePacking.NextFitWithinTwice | mongo-r4.4.6/buildscripts/evergreen_generate_resmoke_tasks.py:301-364 | not counting suites closed only for being full, there are at most 2b - 1 of them if some packing of the tests within the time has b bins |
| SuitePacking.NextFitWithinThrice | mongo-r4.4.6/buildscripts/evergreen_generate_resmoke_tasks.py:301-364 | there are at most 3b - 2 suites if some packing within time and count has b bins |
| SuitePacking.DealtEvenly | mongo-r4.4.6/buildscripts/evergreen_generate_resmoke_tasks.py:290-298 | suite i gets n / k items, one more if i < n mod k, so counts differ by at most one |
| SuiteSelection.SuiteConfig.Update | mongo-r4.4.6/buildscripts/evergreen_generate_resmoke_tasks.py:384-409 | rewrites the selector as `Updated` says, empty lists counting as not given |
| SuiteSelection.SubSuiteSelects | mongo-r4.4.6/buildscripts/evergreen_generate_resmoke_tasks.py:636-646 | a sub-suite selects its tests, or all of the roots when it has none |
| SuiteSelection.MiscSelects | mongo-r4.4.6/buildscripts/evergreen_generate_resmoke_tasks.py:452-454 | the misc suite selects the source's selection without the listed tests, or all of the roots when none are listed |
| SuiteSelection.SplitPreservesSelection | mongo-r4.4.6/buildscripts/evergreen_generate_resmoke_tasks.py:431-455 | for distinct tests shared out over nonempty groups, the rendered selections are disjoint and their union is the source's selection if and only if the misc suite is created or the tests are the whole selection |
| SuiteSelection.HistorySplitPreserves | mongo-r4.4.6/buildscripts/evergreen_generate_resmoke_tasks.py:888-910 | on the history path the split preserves what is run, for all limits, if and only if the misc suite is created or every selected test has a runtime |
| SuiteSelection.FallbackPreserves | mongo-r4.4.6/buildscripts/evergreen_generate_resmoke_tasks.py:992-1001 | on the fallback path, with or without the misc suite, it does if and only if there are at least as many tests as sub-suites or the roots name nothing |
| SuiteTimeouts.RoundToMinuteMeaning | mongo-r4.4.6/buildscripts/evergreen_generate_resmoke_tasks.py:467-470 | the next whole minute strictly after the runtime |
| SuiteTimeouts.GetTimeoutEstimate | mongo-r4.4.6/buildscripts/evergreen_generate_resmoke_tasks.py:608-621 | an estimate is given if and only if every test's runtime is known |
| SuiteTimeouts.AddTaskHookOverhead | mongo-r4.4.6/buildscripts/evergreen_generate_resmoke_tasks.py:966-969 | each suite is charged in proportion to its tests and nothing else changes |
| SuiteTimeouts.HookOverheadMeaning | mongo-r4.4.6/buildscripts/evergreen_generate_resmoke_tasks.py:966-969 | as many tests as the cadence cost one run of the hook, and tests add up |
| SuiteTimeouts.FallbackEstimates | mongo-r4.4.6/buildscripts/evergreen_generate_resmoke_tasks.py:608-621 | a fallback suite with tests gets no estimate; one without tests counts as known |
| SuiteTimeouts.TimeoutFloor | mongo-r4.4.6/buildscripts/evergreen_generate_resmoke_tasks.py:458-472 | never below the factor times five minutes and the setup, which is what runtimes below five minutes get; longer ones get the factor times the next whole minute, and the setup |
| SuiteTimeouts.EstimateTimeouts | mongo-r4.4.6/buildscripts/evergreen_generate_resmoke_tasks.py:497-536 | both timeouts, in seconds, for any repetition |
| SuiteTimeouts.SuiteTimeoutsSafe | mongo-r4.4.6/buildscripts/evergreen_generate_resmoke_tasks.py:458-536 | both timeouts are whole minutes, exceed three times the longest test and the whole task per repetition, and the task's is at least the test's |
| WorkPool.Pool.MoveSignals | mongo-r4.4.6/buildscripts/linter/parallel.py:25-48 | every step keeps the event and the result flag justified by the items run |
| WorkPool.Pool.MoveAccounts | mongo-r4.4.6/buildscripts/linter/parallel.py:25-48 | every step keeps each taken item held by one worker or logged once |
| WorkPool.Pool.RunSafe | mongo-r4.4.6/buildscripts/linter/parallel.py:25-61 | in every interleaving the items handed out are exactly the front of the queue, none is handed out or run twice, and no worker is finished while the event is unset |
| WorkPool.Pool.RunResult | mongo-r4.4.6/buildscripts/linter/parallel.py:63-71 | when all workers are done, the result is True if and only if every item ran and passed, and so if and only if every item passes, whatever the schedule |
| WorkPool.Pool.FailureLeadsToStop | mongo-r4.4.6/buildscripts/linter/parallel.py:42-48 | once the result is cleared, the event is set or about to be set by the worker that cleared it |
| WorkPool.Pool.RunStops | mongo-r4.4.6/buildscripts/linter/parallel.py:28-48 | however a run goes on once the event is set, no more items are handed out than workers were about to take one, every other worker takes none, and those about to test the event only finish |
| WorkPool.Pool.RunEnds | mongo-r4.4.6/buildscripts/linter/parallel.py:28-48 | every run has at most three steps per item and three per worker |
| TextEdit.DecimalRoundTrip | mongo-r4.4.6/buildscripts/errorcodes.py:257 | reading a written code gives the number back |
| ErrorCodes.ReadErrorCodes | mongo-r4.4.6/buildscripts/errorcodes.py:160-222 | `dups` maps exactly the codes seen at least twice to all their locations in scan order; the errors are exactly the locations duplicated, too large or coded "0" |
| ErrorCodes.CheckErrorCodes | mongo-r4.4.6/buildscripts/errorcodes.py:154-157 | true if and only if every code is unique, in range and not "0" |
| ErrorCodes.SevenDigits | mongo-r4.4.6/buildscripts/errorcodes.py:27-28 | codes of up to seven digits are in range, longer ones without a leading zero are not |
| ErrorCodes.GetNextCode | mongo-r4.4.6/buildscripts/errorcodes.py:141-151 | one more than the highest code known, those of a scan if none were; available if and only if two codes are known |
| CodeFixer.EditOrderDescends | mongo-r4.4.6/buildscripts/errorcodes.py:242 | the edits run through distinct locations, files from last to first in the alphabet and offsets in a file from last to first |
| CodeFixer.ZeroStillThere | mongo-r4.4.6/buildscripts/errorcodes.py:253-254 | the check of the current text passes if and only if the original has a zero there and the spot is not yet written |
| CodeFixer.Sources.ReplaceBadCodes | mongo-r4.4.6/buildscripts/errorcodes.py:225-262 | makes as many edits as the locations, in edit order, are zeros of the original texts at different spots, and leaves the texts with just these edits substituted at once; rewriting without truncation loses nothing |
| CodeFixer.UntouchedFile | mongo-r4.4.6/buildscripts/errorcodes.py:249-259 | a file without zero codes keeps its text |
| CodeFixer.AllZerosFixed | mongo-r4.4.6/buildscripts/errorcodes.py:234-242 | every location coded "0" is edited, and only zero codes are |
| CodeFixer.NewCodesFresh | mongo-r4.4.6/buildscripts/errorcodes.py:150-151 | the codes written differ from one another and exceed every code scanned |
| CodeRescan.EditedText | mongo-r4.4.6/buildscripts/errorcodes.py:253-259 | in the edited text the new code and what is left of the old one stand together, followed by no digit |
| CodeRescan.RescannedCode | mongo-r4.4.6/buildscripts/errorcodes.py:225-262 | a scan of the edited text reads there the new number times a power of ten, the new code itself if and only if the zero code was one digit |
| CodeRescan.UneditedCode | mongo-r4.4.6/buildscripts/errorcodes.py:225-262 | a location that was not written over is read as before |
| CodeRescan.CheckAfterFix | mongo-r4.4.6/buildscripts/errorcodes.py:154-262 | after a fix that went through, the check of a new scan passes if and only if only zero codes repeated, at different locations, no code was too large, and the new numbers are in range and differ |
| CodeRescan.OneDigitNewCodes | mongo-r4.4.6/buildscripts/errorcodes.py:256-262 | when all replaced codes are single zeros, the condition on the new numbers is that the last one is in range |
| CodeRescan.FixCodes | mongo-r4.4.6/buildscripts/errorcodes.py:279-294 | the whole command with `--fix`: needs two codes, goes through the edit order of the errors and makes the longest run of edits that can be made; if that is all of them, the next check passes if and only if the scan was fixable |
| ResmokeArgs.FindAllMeaning | mongo-r4.4.6/buildscripts/ciconfig/evergreen.py:391-401 | the search finds none or one match exactly when there are that many; matches cannot overlap |
| ResmokeArgs.FailsWhenRepeated | mongo-r4.4.6/buildscripts/ciconfig/evergreen.py:398-400 | reading and updating fail if and only if the argument occurs more than once |
| ResmokeArgs.ReplaceMatch | mongo-r4.4.6/buildscripts/ciconfig/evergreen.py:418-420 | replacing every occurrence of the matched text replaces the one match and nothing else |
| ResmokeArgs.SetArgShape | mongo-r4.4.6/buildscripts/ciconfig/evergreen.py:411-421 | the text around the replaced span, or all of the text and a blank, is kept around `--name=value` |
| ResmokeArgs.SetArgMatches | mongo-r4.4.6/buildscripts/ciconfig/evergreen.py:411-421 | after an update the argument occurs exactly once, at the new setting |
| ResmokeArgs.GetAfterSet | mongo-r4.4.6/buildscripts/ciconfig/evergreen.py:403-421 | reading back gives the value set |
| ResmokeArgs.ReadsValue | mongo-r4.4.6/buildscripts/ciconfig/evergreen.py:380-409 | a value over the spelled-out characters is read whole behind the flag and an equals sign or one character of white space |
| ResmokeArgs.SetAfterSet | mongo-r4.4.6/buildscripts/ciconfig/evergreen.py:411-421 | a later update replaces an earlier one completely |
| ResmokeArgs.GetOtherAfterSet | mongo-r4.4.6/buildscripts/ciconfig/evergreen.py:403-421 | an update changes what is read of no other argument, if neither flag ends with the other |
| ResmokeArgs.UndisturbedIff | mongo-r4.4.6/buildscripts/ciconfig/evergreen.py:380-421 | updates of one argument leave what is read of another alone on every text if and only if neither flag ends with the other |
| ResmokeArgs.WordNamesApart | mongo-r4.4.6/buildscripts/ciconfig/evergreen.py:380-383 | for names of word characters that is to say if and only if they differ |
| MongodOptions.PrintOptions | mongo-r4.4.6/pytests/powertest.py:1060-1068 | prints the words of every option, in dictionary order, each after a blank |
| MongodOptions.PrintedInOrder | mongo-r4.4.6/pytests/powertest.py:1060-1068 | the text of each option, spelled out, stands behind those of the options before it and in front of those after it |
| MongodOptions.ParseOptions | mongo-r4.4.6/pytests/powertest.py:397-420 | parses the words of a POSIX shell split one by one, failing on an unfinished quotation or escape, a lone dash, or a value before any option |
| ShellQuote.SplitUndoesQuoting | mongo-r4.4.6/pytests/powertest.py:404 | words written in any mixture of plain, escaped, single- and double-quoted pieces, kept apart by blanks, are split into exactly these words |
| ShellQuote.UnfinishedFails | mongo-r4.4.6/pytests/powertest.py:404 | a text that ends in open quotes or behind a backslash cannot be split |
| ShellQuote.QuotedValueParsed | mongo-r4.4.6/pytests/powertest.py:404-419 | a value in single quotes is read as it stands |
| OptionMeaning.FlagMeaning | mongo-r4.4.6/pytests/powertest.py:407-417 | a flag is its form, its name up to the first equals sign, and the value behind that |
| OptionMeaning.FailsIff | mongo-r4.4.6/pytests/powertest.py:405-419 | parsing words fails if and only if one is a lone dash or the first is no flag |
| OptionMeaning.OptionsNamed | mongo-r4.4.6/pytests/powertest.py:405-419 | the options are those that some flag names |
| OptionMeaning.SettingMeaning | mongo-r4.4.6/pytests/powertest.py:405-419 | the last flag that names an option decides its form, and its own value or else the last value behind it, before the next flag, its value |
| MongodOptions.ParseUndoesPrint | mongo-r4.4.6/pytests/powertest.py:1060-1068 | in whatever order it is printed, a printable map parses back to itself |
| MongodRoundTrip.PrintThenParse | mongo-r4.4.6/pytests/powertest.py:397-420 | printing a map and parsing the line gives the map back if and only if each of its options is printable |
| MongodRoundTrip.ComesBackIff | mongo-r4.4.6/pytests/powertest.py:1060-1068 | in whatever order it is printed, a map parses back to itself if and only if each option has a plain name without an equals sign, a form that is read back, and no value or a plain nonempty one without a leading dash behind a nonempty name |
| ShellSplit.LexWidth | mongo-r4.4.6/pytests/powertest.py:404 | splitting never gains characters and loses some wherever the text quotes or escapes |
| ShellSplit.WordSurvivesIff | mongo-r4.4.6/pytests/powertest.py:404 | a word comes out of the shell split as it is if and only if it is free of blanks, quotes and backslashes |
| CachePrune.Trim | mongo-r4.4.6/buildscripts/scons_cache_prune.py:78-102 | with any failing deletions: the tracked size is that of what was not removed; success if and only if it ends below the target, which it had not been at any earlier moment; failure only after trying everything |
| CachePrune.PruneCache | mongo-r4.4.6/buildscripts/scons_cache_prune.py:59-104 | nothing is touched within the quota; otherwise the cache is trimmed to the ratio; for ratios up to one, success means less than the given number of gigabytes of 2^30 bytes is left |
| CachePrune.QuotaMeaning | mongo-r4.4.6/buildscripts/scons_cache_prune.py:64-78 | the quota is that many times 2^30 bytes and the target the ratio's part of it |
| CachePrune.OldestFirst | mongo-r4.4.6/buildscripts/scons_cache_prune.py:74-84 | no item is tried before an older one |
| CachePrune.LeftIsSurvivors | mongo-r4.4.6/buildscripts/scons_cache_prune.py:84-99 | subtracting each removed size tracks the size of the items that survive |
| CachePrune.FailureNeedsFailedAttempt | mongo-r4.4.6/buildscripts/scons_cache_prune.py:79-82 | missing a positive target means some deletion failed |
| TagStore.TagsConfig.AddTag | mongo-r4.4.6/buildscripts/ciconfig/tags.py:71-79 | creates missing or null levels, adds and sorts a new tag, and says whether it was new |
| TagStore.TagsConfig.RemoveTag | mongo-r4.4.6/buildscripts/ciconfig/tags.py:81-93 | removes the tag, and the pattern with its last tag, and says whether it was there |
| TagStore.TagsConfig.RemoveTestPattern | mongo-r4.4.6/buildscripts/ciconfig/tags.py:95-100 | removes the pattern if the kind has it |
| TagStore.ChangesIff | mongo-r4.4.6/buildscripts/ciconfig/tags.py:71-104 | on any store an operation makes a difference, so that an unmodified store becomes modified, if and only if it has a tag to add or drop or a pattern to drop |
| TagStore.ModifiedIff | mongo-r4.4.6/buildscripts/ciconfig/tags.py:71-104 | after any run on a store of sorted, nonempty lists, it is modified if and only if a tag was added under a new kind or some tag's presence changed |
| TagStore.ModifiedByDefaultOrder | mongo-r4.4.6/buildscripts/ciconfig/tags.py:27-36 | the same with the order of strings, used when no comparison is given |
| TagStore.ModifiedAfter | mongo-r4.4.6/buildscripts/ciconfig/tags.py:27-104 | the same of the class itself, whose answer after any operations is that one |
| TagStore.RunEffects | mongo-r4.4.6/buildscripts/ciconfig/tags.py:71-100 | over any run each list stays sorted and duplicate-free and holds what a set would |
| TagStore.DefaultTagsAscend | mongo-r4.4.6/buildscripts/ciconfig/tags.py:77 | with no comparison given, the tags of a pattern are in alphabetical order after any run |
| TagStore.AddThenRemove | mongo-r4.4.6/buildscripts/ciconfig/tags.py:71-93 | adding a new tag and removing it restores the configuration if and only if the kind is a mapping and the pattern is absent or has a nonempty sorted list |

## Left out

- SCons node factories, name prefixes and suffixes, link flags, system libraries and scanners, and the two visibility maps the emitters apply before declaring: foreign objects and one-line tables.
- Callers that change a list the resolver returned and thereby its cache: answers are values here.
- GDB calls, frame walking, the DOT output, and a lock holder that cannot be found (the command fails there).
- The Evergreen API, YAML files, task and suite names, and the timeout command with its limit for patch builds.
- ResmokeArgs.FindAllMeaning, FailsWhenRepeated, SetArgShape, SetArgMatches, GetAfterSet, SetAfterSet, GetOtherAfterSet, UndisturbedIff: do not cover names with separators or with characters special in a regular expression; such a name is a pattern, and the flag that an update writes need not match it.
- ResmokeArgs: only ASCII word characters and whitespace are modelled; removing an argument is not, because the remaining pieces of text can join into a new match.
- SuiteTimeouts: rounding of floating-point numbers is not modelled.
- Exceptions raised by the function a worker calls, the main thread's timed wait, and counting processors.
- Matching the patterns for codes, walking directories, and converting offsets to lines and columns for messages.
- The rest of the power-cycle test, packaging, downloads, linter front ends and service clients: input and output around library calls.
