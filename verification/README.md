# A verified model of the verifiers' core

The repository runs a registry of code validators as editor hooks: after each edit (the
router), and when the agent wants to end its turn (the Stop hook). Most of its machinery
exists to avoid work without changing the answer: caches, indexes, bucketed dispatch,
parallel execution. This project models that machinery in Dafny 4.11 and proves what it
promises, together with the Tarjan search behind the Go import-cycle validator, the syntax
tree measures and the bracket matchers.

| modules | what they model |
|---|---|
| `Graphs`, `TarjanSteps`, `CircularDeps`, `ImportCycles` | the recursion-free Tarjan loop and the import graph it runs on |
| `Framing`, `HashInput`, `OrderedDict`, `SubprocessCache` | the bytes of a cache key, and the least-recently-used command cache |
| `RouterCache`, `PerFileCache` | the router's content-hash cache, and findings per file and mtime |
| `Registry`, `ParallelRunner`, `HookOutput`, `Schedules`, `StopHook`, `StopDigests` | registry invariants, concurrent execution, deduplication and decision, the decision over all schedules, the tier cache and the Stop call around them, and the same with the digests of the file index |
| `Glob`, `Dispatch`, `FileIndex`, `IndexQueries` | globs, bucketed dispatch, the pruned walk and the index queries |
| `TreeMetrics`, `CircuitBreaker`, `Brackets` | Python complexity measures, the block limit, bracket extraction |
| `Options`, `Findings`, `Sorting`, `Selection`, `Text` | shared vocabulary |

Run `dafny verify dfyconfig.toml`.

## How the model relates to the code

* Code that updates variables step by step is a method with loops, or a class whose methods
  change its fields; each is tied to a specification function, and the lemmas are about whole
  runs of that function. `_tarjan_scc` is split into `TarjanScc` (the loop over start nodes),
  `Explore` (the frame loop), `Consume` (one neighbour), `Backtrack` and `PopComponent`, with
  the local variables passed along. Its index counter is the number of indices given so far.
* Unordered iteration (`graph.keys()`, completion of futures) is an arbitrary choice or an
  arbitrary order, so the results hold for every order.
* Encodings, digests, clocks, commands, validators' behaviour, the two glob tests of the
  exclusion settings and text rendering are parameters. A digest is only ever assumed injective and, in
  `StopDigests`, never the empty string.
* Python strings that are hashed are byte strings, already encoded.

## What turned out differently from the documentation

* A validator with no file patterns has the same input digest whatever the project holds
  (lib/file_index.py:283-284), and a cacheable one is skipped on it, although
  lib/tier_cache.py:171-172 says such validators run on every invocation. V80 is one of them:
  `StopDigests.StalePassHidesCycle` is a run in which a new import cycle goes unreported.
  `StopHook.SkippingLosesExactly` says what any Stop call loses, without assumptions.
  `StopHook.NeverLosesIffCleanCarries` says which registries, of validators that report under
  unique prefixes, never lose anything: those in which a cacheable validator that is clean on one
  project is clean on every project with the same digest. With the index's digests and one-line
  paths these are the registries in which a cacheable validator's cleanliness depends only on the
  rows its own patterns find (`StopDigests.NeverLosesIffRowsDecide`): without patterns, not on the
  project at all (`StopDigests.PatternlessNeverLosesIffConstant`).
* lib/parallel_runner.py:168-171 says no consumer depends on the order in which workers
  complete. Deduplication does when two workers report one identity
  (`Schedules.OneIdentityTwoDecisions`). The decision is the same in every schedule exactly when
  the workers' identities are pairwise disjoint (`Schedules.AlikeIffDisjoint`), which for
  validators that report under their own prefix is the registry's uniqueness check
  (`Schedules.AlikeIffUniquePrefixes`). The shipped rules carry their validator's prefix, so the
  shipped registry has no such input, and `StopHook.CachedStopDecidesTheSame` needs no further
  condition.
* A file named just ".ext" is missed by both extension fast paths, and nothing else is
  (`Dispatch.CandidatesCompleteIff`, `IndexQueries.FastPathMissesOnlyDotNames`).
* lib/subprocess_cache.py:111-113 says the absence of a file is part of the hash. An unreadable
  file hashes like an empty one (`HashInput.UnreadableLooksEmpty`), so a command that fails on it
  can be served the empty file's result (`SubprocessCache.UnreadableServedAsEmpty`). No argument
  hashes like one empty argument (`HashInput.NoArgumentLooksEmpty`).
* The bytes of a command cache key can also be ambiguous when an argument holds a newline or a
  NUL: always for a NUL (`HashInput.NulArgumentCollides`), for a newline when what follows reads
  like a file (`HashInput.NewlineArgumentCollides`). A call is confused with a clean one exactly
  when it is not clean and the reader accepts its bytes (`HashInput.ImitatesIffReadable`). The bytes
  give the whole input back exactly when it is clean, has an argument, and every file can be read
  (`HashInput.RecoverableIffExact`), and the cache is invisible exactly on sets of inputs whose
  bytes differ (`SubprocessCache.TransparentIffToldApart`).
* A path with a newline can make two file listings hash alike (`IndexQueries.NewlinePathCollides`);
  `IndexQueries.RecoverableIffOneLinePaths` is the exact condition.
* A smaller command cache need not hold a suffix of what a larger one holds: a command that
  completed once and raises later is answered by the larger cache only
  (`SubprocessCache.LateRaiseBreaksSuffix`; the exact condition is `SubprocessCache.SuffixIffSteady`).
* The reported maximum nesting is one less than the longest chain, -1 for flat functions: the
  function node whose level is subtracted was never counted
  (hooks/validators/complexity_guard.py:241). The cognitive measure adds one for every boolean
  operator node, not for switches between operators.
* The `**/` allowance of `_glob_prefixes` inside the wildcard test is never taken
  (lib/file_index.py:371-372).
* The router records a file whether or not its run found errors, although
  lib/router_cache.py:13-14 speaks of successful runs, and skips without regard to which validators
  are active. A skip hides findings that were already reported if the context is unchanged
  (`RouterCache.SameContextRepeats`); it always does exactly when the validators depend on nothing
  but path and bytes (`RouterCache.SkipsRepeatIffContextFree`), and hides nothing only when there is
  nothing to report (`RouterCache.SkipsHideNothingIffSilent`).
* The block limit is only a limit from a stored count that is not negative
  (`CircuitBreaker.ProgressesIffNotNegative`).
* `_find_closing_paren` returns the end of the text both when the match ends it and when there is
  none (`Brackets.EndIsAmbiguous`).
* `get_matching_validators` keeps the active set, not the order its comment at
  hooks/validators/__init__.py:333-334 mentions (`Dispatch.ActiveOrderIgnored`); per-file eviction
  is by recording time, not by mtime; over the cap the router cache keeps 800 entries, which drops 201;
  `_extract_body` returns a position, not a line.

## Model

| member | source | states |
|---|---|---|
| `CircularDeps.TarjanScc` | hooks/validators/go_circular_deps.py:94-147 | for every finite graph, successors outside the keys included: the lists are exactly the strongly connected components with more than one node, each sorted and whole, none overlapping; a component never reaches a later one; every node, and nothing else, is entered exactly once; and the loop body runs once per node and once per out-edge |
| `CircularDeps.Explore` | hooks/validators/go_circular_deps.py:105-146 | one start node's frame loop keeps the search invariant, ends with an empty stack, opens one frame per new node and numbers the nodes in that order, and spends exactly one iteration per new node and out-edge |
| `CircularDeps.Consume` | hooks/validators/go_circular_deps.py:119-131 | taking the next neighbour keeps the invariant and uses up exactly one iteration |
| `CircularDeps.Backtrack` | hooks/validators/go_circular_deps.py:132-146 | leaving a node, with or without emitting its component, keeps the invariant |
| `CircularDeps.PopComponent` | hooks/validators/go_circular_deps.py:135-141 | the popped list is the stack above the node, reversed, and leaves the on-stack set |
| `TarjanSteps.DiscoverKeeps` | hooks/validators/go_circular_deps.py:109-116 | indexing and pushing a new node keeps the Tarjan invariant |
| `TarjanSteps.VisitKeeps` | hooks/validators/go_circular_deps.py:121-129 | so does visiting an unindexed neighbour of the top frame |
| `TarjanSteps.RevisitKeeps` | hooks/validators/go_circular_deps.py:130-131 | so does an indexed neighbour: on the stack it lowers the lowlink, finished it changes nothing |
| `TarjanSteps.MergeKeeps` | hooks/validators/go_circular_deps.py:144-146 | a node whose lowlink is below its index has a parent, and hands it a strongly connected stretch of the stack |
| `TarjanSteps.EmittedIsScc` | hooks/validators/go_circular_deps.py:134-141 | when lowlink equals index, what is popped is a whole strongly connected component |
| `TarjanSteps.EmittedClosed` | hooks/validators/go_circular_deps.py:134-141 | the finished nodes stay closed under successors |
| `TarjanSteps.EmitKeeps` | hooks/validators/go_circular_deps.py:134-144 | emitting a component keeps the invariant |
| `CircularDeps.FinishOrder` | hooks/validators/go_circular_deps.py:118-147 | components come out in reverse topological order |
| `ImportCycles.ListedTogetherIffMutual` | hooks/validators/go_circular_deps.py:94-147 | two distinct nodes share a list exactly when each reaches the other |
| `ImportCycles.SilentIffAcyclic` | hooks/validators/go_circular_deps.py:198-203 | without self-edges the result is empty exactly when no node lies on a cycle |
| `ImportCycles.AddImports` | hooks/validators/go_circular_deps.py:191-196 | a file adds exactly its internal imports of other packages to its package's edges |
| `ImportCycles.BuildGraph` | hooks/validators/go_circular_deps.py:172-196 | keys and edges are the packages and imports of the counted files; `FindImportCycles` and `EdgesAre` spell them out |
| `ImportCycles.FindImportCycles` | hooks/validators/go_circular_deps.py:172-203 | the packages are the module for its own directory and module, slash and directory for the others that hold a counted file; edges lead to the module's own import paths; directories are listed together exactly when they import each other by those paths, directly or not; nothing is listed exactly when no chain of directories, each importing the next, returns to its start |
| `ImportCycles.ListedTogetherIffDirsMutual` | hooks/validators/go_circular_deps.py:172-203 | two directories' packages share a list exactly when chains of imports lead from each to the other |
| `ImportCycles.AcyclicIffNoDirCycle` | hooks/validators/go_circular_deps.py:181-203 | the graph is acyclic exactly when no chain of directories returns to its start |
| `ImportCycles.EdgesAre` | hooks/validators/go_circular_deps.py:191-196 | an edge is an import, in a counted file of the directory, of another package's path that is the module or below it |
| `HashInput.FeedHash` | lib/subprocess_cache.py:115-132 | the successive updates feed the framed encoding of version, command and files |
| `HashInput.CallBytes` | lib/subprocess_cache.py:115-132 | the bytes of one call, written out |
| `HashInput.DecodeEncode` | lib/subprocess_cache.py:115-132 | a reader recovers version, arguments, paths and contents from the bytes |
| `HashInput.SameBytesIffSameInput` | lib/subprocess_cache.py:109-132 | for one-line versions, arguments and paths and NUL-free arguments, equal bytes mean equal inputs up to unreadable-is-empty and no-argument-is-one-empty-argument |
| `HashInput.DecodeInverts` | lib/subprocess_cache.py:115-132 | whatever the reader accepts is the encoding of exactly the clean input it returns |
| `HashInput.RecoverableIffClean` | lib/subprocess_cache.py:115-132 | the bytes give the input back if and only if version, arguments and paths are one-line and the arguments NUL-free |
| `HashInput.RecoverableIffExact` | lib/subprocess_cache.py:115-132 | they give back the very input, unreadable files and missing arguments told apart, if and only if it is clean, has an argument and no unreadable file |
| `HashInput.UnreadableLooksEmpty` | lib/subprocess_cache.py:122-130 | an unreadable file anywhere in the list hashes like an empty one |
| `HashInput.ImitatesIffReadable` | lib/subprocess_cache.py:115-132 | a call hashes like a different, clean one if and only if it is not clean itself and the reader accepts its bytes |
| `HashInput.NewlineArgumentCollides` | lib/subprocess_cache.py:117-130 | in any command, a last argument that continues on a new line with the text of any file hashes like the shorter argument and one more file |
| `HashInput.NulArgumentCollides` | lib/subprocess_cache.py:118 | any argument of any command that holds a NUL hashes like its two halves, a different command |
| `OrderedDict.RecencyByLastUse` | lib/subprocess_cache.py:230-236 | the recency order lists distinct keys by their last use |
| `SubprocessCache.LabelCache.CachedRun` | lib/subprocess_cache.py:184-259 | one call: bypassed it runs and touches nothing; otherwise, on the file left by the purge, a hit moves to the end and is returned, a miss runs, is appended and drops the front, an exception stores nothing, and a failed write changes nothing |
| `SubprocessCache.HoldsMostRecent` | lib/subprocess_cache.py:223-258 | after any trace of hits, misses, exceptions, failed writes and lost files the keys are exactly the most recently used ones, least recent first, as many as fit, where a use is a call that saw a result and could write it |
| `SubprocessCache.SuffixIffSteady` | lib/subprocess_cache.py:245-256 | for any per-key behaviour of the commands: every smaller cache always holds a suffix of every larger one if and only if no key may both complete and raise while another may complete |
| `SubprocessCache.LateRaiseBreaksSuffix` | lib/subprocess_cache.py:228-256 | A and B complete, then A raises: two entries end as B, A and one entry as B |
| `SubprocessCache.EntryIsLastSeen` | lib/subprocess_cache.py:228-241 | over hits, misses, exceptions, evictions, failed writes and lost files, a stored result is what the last call with its key saw |
| `SubprocessCache.TransparentIffToldApart` | lib/subprocess_cache.py:184-259 | for any set of inputs and a collision-free digest: every command, however it treats unreadable files, sees its own answer in every history if and only if different inputs of the set hash different bytes |
| `SubprocessCache.UnreadableServedAsEmpty` | lib/subprocess_cache.py:122-241 | after a call on an empty file, the call that finds it unreadable is answered with the first result |
| `SubprocessCache.CachedRunIsTransparent` | lib/subprocess_cache.py:184-259 | so on clean inputs with an argument and readable files every call of every history returns what running the command would |
| `RouterCache.Router.RecordHit` | lib/router_cache.py:133-143 | the path moves to the end with its digest; an unreadable file records nothing |
| `RouterCache.Router.SaveCache` | lib/router_cache.py:87-119 | over 1000 entries, the 800 newest stay; a failed write leaves the file as it was |
| `RouterCache.Router.Handle` | hooks/router.py:150-186 | one invocation: on the loaded cache, skip on the recorded digest and report nothing, otherwise run, record whatever was found, save and report |
| `RouterCache.KeepsRecentPaths` | lib/router_cache.py:67-143 | over any run, lost and unwritten files included, the cached paths are the tail of the recency order, all of it up to 1000 distinct paths, then between 800 and 1000 |
| `RouterCache.SkipsOnlyUnchanged` | lib/router_cache.py:122-130 | a skip repeats the digest of the path's last recorded run |
| `RouterCache.SkipsExactlyUnchanged` | lib/router_cache.py:122-130 | up to 1000 distinct paths, skipping happens exactly then |
| `RouterCache.SameContextRepeats` | hooks/router.py:150-183 | a skip goes back to a recorded run, and hides what that run reported when the context (active validators, other files) is the same |
| `RouterCache.SkipsRepeatIffContextFree` | hooks/router.py:150-183 | all skips of all histories hide only what was already reported if and only if what validators report depends on path and bytes alone |
| `RouterCache.SkipsHideNothingIffSilent` | hooks/router.py:178-183 | no skip of any history hides a finding if and only if there is never one |
| `PerFileCache.FindingRoundTrip` | lib/per_file_cache.py:123-141 | reading back a stored finding gives that finding |
| `PerFileCache.MissingFieldsDefault` | lib/per_file_cache.py:128-141 | each missing field is read with its default |
| `PerFileCache.Cache.constructor` | lib/per_file_cache.py:181-224 | loading yields the stored entries only for the current version and the same fingerprint |
| `PerFileCache.Cache.Find` | lib/per_file_cache.py:226-244 | an enabled cache answers exactly when some item has this path and mtime, and with the findings stored there |
| `PerFileCache.Cache.Record` | lib/per_file_cache.py:246-258 | the path now holds these findings, mtime and time, other paths are as before, and the cache is dirty; a disabled cache is untouched |
| `PerFileCache.PutThenGet` | lib/per_file_cache.py:226-258 | what was put is got back, under its mtime alone, and other paths answer as before |
| `PerFileCache.Cache.Save` | lib/per_file_cache.py:260-296 | nothing unless dirty; over 10,000 entries exactly that many stay; write version 1, fingerprint and entries |
| `PerFileCache.SavedIsLoaded` | lib/per_file_cache.py:181-296 | a later run with the same fingerprint gives every answer whose entry was not evicted, none up to 10,000 entries |
| `PerFileCache.OtherFilesIgnored` | lib/per_file_cache.py:215-219 | a file of another version or fingerprint answers nothing |
| `PerFileCache.Cache.AnalyzeFile` | hooks/validators/complexity_guard.py:912-936 | look up, or analyse and record; a file that cannot be stat'ed is analysed and not recorded |
| `PerFileCache.Cache.Scan` | hooks/validators/complexity_guard.py:893-910 | a scan over a truthful cache returns the uncached scan, the findings of exactly the files below the existing directory that are neither excluded nor skipped, and leaves the cache truthful |
| `PerFileCache.EvictionKeepsNewest` | lib/per_file_cache.py:269-274 | exactly the cap stays, all from before, and no dropped entry was recorded later than a kept one |
| `PerFileCache.EvictionKeepsDict` | lib/per_file_cache.py:270-274 | sorting and cutting keeps paths unique |
| `PerFileCache.HistoryTruthful` | lib/per_file_cache.py:181-296 | in every interleaving of loading, visiting and saving runs, disk and caches hold only what the analyser says for their fingerprint |
| `PerFileCache.VisitIsTransparent` | hooks/validators/complexity_guard.py:925-936 | so every visit of every history returns what the analyser returns uncached |
| `PerFileCache.RepeatedVisitIsCached` | hooks/validators/complexity_guard.py:925-936 | in every history, a repeated visit by a run to the same file and mtime gives the first answer, whatever the analyser says, as long as the run records no other mtime and evicts nothing |
| `PerFileCache.LaterRunIsCached` | lib/per_file_cache.py:181-296 | so does a later run with the same fingerprint, after the first one saved and before another file is saved or lost |
| `Registry.AssertRegistryInvariants` | hooks/validators/__init__.py:36-63 | passes exactly when all ids have the V-form and no two share a prefix; otherwise names the first offender |
| `Registry.GroupIsPrefix` | hooks/validators/__init__.py:24-57 | the regular expression's group and the split at the first dash agree |
| `Registry.PrefixIff` | lib/tier_cache.py:129-131 | a prefix is what stands before the first dash, or everything |
| `Registry.VidFormIff` | hooks/validators/__init__.py:24-57 | a well-formed id is a V, two digits, a dash, and anything |
| `ParallelRunner.RunSequential` | lib/parallel_runner.py:119-129 | findings in registration order |
| `ParallelRunner.RunAll` | lib/parallel_runner.py:148-201 | in any completion order, the sequential findings as a multiset: everything each worker returned, for each crash a sentinel warning on the project root that names validator and exception, and nothing else |
| `ParallelRunner.GatheredIsSequential` | lib/parallel_runner.py:184-201 | any two schedules yield the same multiset of findings |
| `ParallelRunner.OneSentinelPerCrash` | lib/parallel_runner.py:105-116 | exactly one sentinel per crashed worker, in any order |
| `ParallelRunner.NothingLost` | lib/parallel_runner.py:186-192 | each worker's findings are all there |
| `ParallelRunner.RunKeepsPool` | lib/parallel_runner.py:184-186 | every reachable pool state conserves the tasks and respects the worker bound |
| `ParallelRunner.NeverStuck` | lib/parallel_runner.py:178-186 | a pool with a worker can always take a step until drained |
| `ParallelRunner.RunLength` | lib/parallel_runner.py:184-186 | draining takes exactly two steps per task |
| `ParallelRunner.EveryScheduleAgrees` | lib/parallel_runner.py:184-201 | every drained run of the pool reports the sequential findings |
| `HookOutput.DedupFindings` | hooks/validators/base.py:100-117 | the loop keeps the first finding of each identity |
| `HookOutput.DedupMembers` | hooks/validators/base.py:109-117 | a finding is kept exactly when it is the first with its rule, file, line and message |
| `HookOutput.DedupDistinct` | hooks/validators/base.py:109-117 | no two kept findings share an identity |
| `HookOutput.DedupKeepsOrder` | hooks/validators/base.py:109-117 | kept findings stand in their old order |
| `HookOutput.FormatOutput` | hooks/validators/base.py:120-175 | block, with a reason, exactly when the first finding of some rule, file, line and message is an error; otherwise approve at Stop and stay silent after an edit; a context exactly when there is a finding |
| `HookOutput.DecisionOrderFree` | hooks/validators/base.py:109-140 | a fact about all reorderings of a flat list of findings: deduplication and decision ignore the order exactly when there is no error or some error's identity is shared by errors only |
| `HookOutput.SeverityByIdentity` | hooks/validators/base.py:109-140 | when identity determines severity, the decision is whether any finding is an error, in every order |
| `Schedules.DecisionIsScheduleFree` | lib/parallel_runner.py:168-192 | when no two workers share an identity, every completion order decides like the sequential run, whatever the severities and whatever is filtered out |
| `Schedules.OneIdentityTwoDecisions` | hooks/validators/base.py:109-140 | one worker warns, another errs on the same identity: the decision is that of the one that completes first |
| `Schedules.AlikeIffDisjoint` | lib/parallel_runner.py:168-192 | every assignment of results drawn from the workers' identity sets decides alike in all schedules if and only if the sets are pairwise disjoint |
| `Schedules.AlikeIffUniquePrefixes` | hooks/validators/__init__.py:36-63 | when what validators return carries their own prefix, and any of them may crash, all assignments of results decide alike in all schedules if and only if the registry's prefixes are unique |
| `StopHook.TierCache.LookupRecentPass` | lib/tier_cache.py:184-221 | a hit exactly for a cacheable validator with a readable, fresh entry of the same digest; an unreadable entry is removed |
| `StopHook.TierCache.RecordPass` | lib/tier_cache.py:224-252 | replaces the entry of a cacheable validator's prefix; a failed write leaves the old one |
| `StopHook.TierCache.SelectRunnable` | hooks/stop_validator.py:149-167 | the validators that miss, in order, with the digests of the cacheable ones |
| `StopHook.TierCache.RecordRan` | hooks/stop_validator.py:186-209 | a pass is recorded for each cacheable validator whose prefix no finding or sentinel carries |
| `StopHook.TierCache.RunStop` | hooks/stop_validator.py:145-209 | skip, run and record together refine one step on the stored passes; whatever the files say, all that V06, V09, V10, V11, V12, V21 and V37 return is reported |
| `StopHook.IneligibleAlwaysReported` | lib/tier_cache.py:104-112 | those seven are never skipped, in any state of the cache |
| `StopHook.SkippedOnlyAfterCleanRun` | hooks/stop_validator.py:157-166 | over every sequence of Stop calls, a skipped validator is none of the seven and its prefix ran clean on the same digest within the allowed age, and the cache is enabled |
| `StopHook.CleanRunIsRemembered` | hooks/stop_validator.py:196-209 | conversely, every other validator that ran and returned nothing is skipped by the next call within that age on an unchanged digest, when its pass was written and not lost |
| `StopHook.SkippingLosesExactly` | hooks/stop_validator.py:149-179 | all active findings are the reported ones plus what the skipped validators would report |
| `StopHook.NothingLostIffSkippedEmpty` | hooks/stop_validator.py:149-179 | a Stop call reports all active findings if and only if every skipped validator would return none |
| `StopHook.CachedStopFindsTheSame` | hooks/stop_validator.py:149-209 | with unique prefixes, own rules and digests that carry clean results over, every cached Stop of every sequence, with cache files lost or unwritten along the way, reports the findings of running all active validators |
| `StopHook.NeverLosesIffCleanCarries` | hooks/stop_validator.py:149-209 | for any registry with unique prefixes and own rules: no history of Stop calls on any projects loses a finding if and only if a cacheable validator clean on one project is clean on every project with the same digest |
| `StopDigests.SameDigestIffSameRows` | lib/file_index.py:275-293 | with one-line paths and a collision-free hash, a validator's digests of two projects agree exactly when its patterns find the same rows |
| `StopDigests.StalePassHidesCycle` | lib/file_index.py:283-284 | V80, whose digest is the same on any two projects, misses a new cycle in the second of two calls |
| `StopDigests.NeverLosesIffRowsDecide` | hooks/stop_validator.py:149-209 | with the index's digests and one-line paths, no history on any projects loses a finding if and only if each cacheable validator's cleanliness depends only on the rows its own patterns find |
| `StopDigests.PatternlessNeverLosesIffConstant` | lib/tier_cache.py:171-172 | a cacheable validator without patterns never loses a finding if and only if it is clean on every project or on none |
| `StopHook.ApplyExcludeFilters` | hooks/stop_validator.py:46-85 | in order, exactly the findings that are sentinels, have no file, or match neither the excluded paths nor the exclusions of their rule's prefix |
| `StopHook.CachedStopDecidesTheSame` | hooks/stop_validator.py:149-230 | under the same assumptions and no other, the cached, parallel, filtered Stop blocks exactly when the full sequential one does |
| `Glob.PureExtIff` | lib/file_index.py:322-339 | the extension test recognises exactly the patterns ending in `*.` and alphanumerics |
| `Glob.ExtOfMatch` | hooks/validators/__init__.py:228-243 | what such a pattern matches has that suffix, or a name that is nothing but the extension |
| `Glob.MatchesIff` | lib/file_index.py:311-316 | a name matches exactly when it is the pattern with every star, wherever it stands, replaced by some string and every question mark by some character |
| `Glob.PureExtBeforeNewline` | lib/file_index.py:141 | one final newline is overlooked |
| `Glob.BasenameIff` | lib/file_index.py:367-368 | the last component is what follows the last slash, or everything |
| `Glob.SuffixIff` | lib/file_index.py:246 | a suffix is what follows the last dot of a name, with something before and after it |
| `Dispatch.Classify` | hooks/validators/__init__.py:278-289 | a validator enters each of its extension buckets once |
| `Dispatch.BuildDispatchIndex` | hooks/validators/__init__.py:270-299 | buckets, residual and wildcard lists are the validators they describe, in registry order |
| `Dispatch.GetMatchingValidators` | hooks/validators/__init__.py:302-341 | without duplicates and in the index's order, the active registered candidates whose `should_run` holds; for single-line patterns and names that are not just an extension, all active validators whose `should_run` holds |
| `Dispatch.ActiveOrderIgnored` | hooks/validators/__init__.py:333-336 | two active lists with the same validators give the same result, in the same order |
| `Dispatch.CandidatesRanked` | hooks/validators/__init__.py:323-331 | candidates come with the file's extension first, then other patterns, then those without patterns |
| `Dispatch.CandidatesCompleteIff` | hooks/validators/__init__.py:319-341 | the buckets reach every interested validator if and only if the path's name is not "." and alphanumerics |
| `Dispatch.MissedOnDotName` | hooks/validators/__init__.py:320-321 | a validator for that extension alone is missed on such a file |
| `FileIndex.PlainPrefixIff` | lib/file_index.py:394-396 | a plain prefix matches the path itself and what is below it, not a longer name |
| `FileIndex.DepthPrefixIff` | lib/file_index.py:388-393 | a "**" prefix matches exactly the paths with that name among their components |
| `FileIndex.ExclusionIsClosed` | lib/file_index.py:378-397 | whatever is below an excluded directory matches too |
| `FileIndex.PrunedWalkIsFilter` | lib/file_index.py:214-251 | for every tree the walk lists, in order, exactly the stat-able files with no pruned directory above them |
| `FileIndex.IndexedIff` | lib/file_index.py:214-251 | an entry is indexed exactly when the tree holds that stat-able file, under that path, and no directory on its way has a default-pruned name or an excluded path |
| `FileIndex.IndexedByParentTest` | lib/file_index.py:226-234 | for the exclude prefixes it is enough to test the file's parent |
| `IndexQueries.GlobPrefixes` | lib/file_index.py:342-375 | the prefixes are the stripped globs that are not empty and have no star in their last component |
| `IndexQueries.GlobOfDirectory` | lib/file_index.py:355-361 | a directory's glob, with or without slash and stars, gives back the directory |
| `IndexQueries.NoStarBeyondLead` | lib/file_index.py:367-373 | the inner allowance is never taken |
| `IndexQueries.KeepDirs` | lib/file_index.py:226-234 | the kept subdirectories walk to what the pruned subdirectories walk to |
| `IndexQueries.IndexFiles` | lib/file_index.py:237-249 | the stat-able files are appended and stay partitioned |
| `IndexQueries.Build` | lib/file_index.py:183-251 | the entries are the pruned walk, file by file those of `FileIndex.IndexedIff`, and the suffix and name buckets partition them |
| `IndexQueries.FindByPattern` | lib/file_index.py:255-273 | the paths some pattern wants, by suffix for "*.ext" and by name otherwise, each once, ordered by the first pattern that wants them |
| `IndexQueries.FoundIsAnswer` | lib/file_index.py:267-272 | the entries behind both queries: every wanted path once, as a wanted entry, in query order |
| `IndexQueries.HashForPatterns` | lib/file_index.py:275-293 | the lines of such an answer; no hash exactly without patterns |
| `IndexQueries.LineBytes` | lib/file_index.py:292 | one line, byte for byte |
| `IndexQueries.FirstByPathDistinct` | lib/file_index.py:269-272 | no path is found twice |
| `IndexQueries.FirstByPathCovers` | lib/file_index.py:267-272 | every looked-up path is found |
| `IndexQueries.SlowLookupExact` | lib/file_index.py:311-316 | the scan finds exactly the entries whose name matches |
| `IndexQueries.FastLookupExact` | lib/file_index.py:308-310 | the fast path finds exactly the entries with the suffix, in any case and whatever else the pattern says |
| `IndexQueries.FastPathMissesOnlyDotNames` | lib/file_index.py:306-316 | it misses a matching entry if and only if its name is nothing but the extension |
| `IndexQueries.SameHashIffSameFiles` | lib/file_index.py:285-293 | for newline-free paths, equal hashed bytes mean the same files in the same order with the same size and mtime |
| `IndexQueries.RecoverableIffOneLinePaths` | lib/file_index.py:285-293 | a reader gets the listing back from the hashed bytes if and only if no path holds a newline |
| `IndexQueries.NewlinePathCollides` | lib/file_index.py:292 | anywhere in a listing, a path that is another file's line and then a path hashes like the two files |
| `TreeMetrics.CyclomaticComplexity` | hooks/validators/complexity_guard.py:218-233 | the breadth-first loop counts one plus the decisions of the whole tree |
| `TreeMetrics.OneNode` | hooks/validators/complexity_guard.py:205-338 | what a single node of each kind adds to each of the three measures |
| `TreeMetrics.NestingShift` | hooks/validators/complexity_guard.py:244-273 | starting deeper shifts the nesting by exactly that much |
| `TreeMetrics.NestingIsLongestPath` | hooks/validators/complexity_guard.py:264-273 | the walk computes the largest number of nesting nodes on a path |
| `TreeMetrics.ReportedNestingIsOneShort` | hooks/validators/complexity_guard.py:236-241 | the reported maximum is one less, and -1 exactly without nesting nodes |
| `TreeMetrics.CognitiveIsAffine` | hooks/validators/complexity_guard.py:307-338 | the cognitive measure at nesting n is the one at zero plus n per charged node |
| `TreeMetrics.NestingIsQuadratic` | hooks/validators/complexity_guard.py:307-338 | m charged levels cost at least m(m+1)/2; without `try` these are the nesting levels |
| `TreeMetrics.MeasuresBalance` | hooks/validators/complexity_guard.py:205-338 | the exact balance of cognitive and cyclomatic counts on every tree |
| `TreeMetrics.CyclomaticAgainstCognitive` | hooks/validators/complexity_guard.py:218-338 | on a function, cyclomatic less one is at most cognitive when asserts, comprehension conditions and long boolean chains do not outweigh it |
| `CircuitBreaker.Breaker.Apply` | lib/circuit_breaker.py:63-145 | an answer and the markers pass through as they should: unchanged and cleared unless it is a block that continues a block; then counted, or, at the limit, approved without a reason and with the message appended |
| `CircuitBreaker.SessionAnswers` | lib/circuit_breaker.py:105-145 | over every session, without the markers: every answer is what the checks decided, except the one that ends a run of a multiple of `limit` blocks |
| `CircuitBreaker.MarkerIsStreak` | lib/circuit_breaker.py:105-143 | from no markers, the count is always the current streak of active blocks and below the limit |
| `CircuitBreaker.NeverBlocksForever` | lib/circuit_breaker.py:105-130 | from any markers whose count is not negative, no `limit` consecutive calls are all active blocks |
| `CircuitBreaker.ProgressesIffNotNegative` | lib/circuit_breaker.py:90-130 | a negative stored count is the only start from which they can be |
| `CircuitBreaker.StuckSessionsAlternate` | lib/circuit_breaker.py:105-137 | a session that only ever blocks gets through on exactly every `limit`-th call |
| `Brackets.BalancedIff` | hooks/validators/connect_handler.py:384-394 | counting brackets decides the grammar of balanced text |
| `Brackets.ClosesIff` | hooks/validators/fk_index_discipline.py:238-245 | a bracket's match is where the counter first returns to zero |
| `Brackets.ClosesUnique` | hooks/validators/fk_index_discipline.py:236-246 | a bracket has at most one match |
| `Brackets.ExtractBody` | hooks/validators/connect_handler.py:378-395 | the balanced text up to the match of the first brace, and nothing exactly when there is no brace or no match |
| `Brackets.FindClosingParen` | hooks/validators/fk_index_discipline.py:236-246 | from any position, the first place where a closing parenthesis brings the count back to zero, else the end of the text; from an opening one, just past its match, and the end if and only if it has none or the match ends the text |
| `Brackets.EndIsAmbiguous` | hooks/validators/fk_index_discipline.py:236-246 | around any balanced text, "(...)" has its match at the end and "(..." has none |

## Left out

- Real file, JSON and process I/O; a cache file is a value, and losing or failing to write it is part of the histories. Removing an unreadable tier-cache file is taken to succeed.
- SHA-256 and text encodings: digests are assumed injective where a result needs it.
- The order of `sorted(input_files)`: `HashInput` starts from the list of files as fed, so where the inputs end and the configuration files start is not part of it.
- The working directory of a cached command is not part of its key; `SubprocessCache.CachedRunIsTransparent` therefore speaks of commands determined by what is hashed.
- Timeouts: only finished workers are collected, so the timeout branch of lib/parallel_runner.py:193-200 is not reached and not modelled.
- Bracket classes in globs: `[` is a literal. Case folding and digits outside ASCII. The registry's patterns use neither.
- Path clean-up by pathlib (trailing slashes, `.` components, Windows separators) before taking a suffix.
- An `int()` of a line number stored as text: the reader gives such a record up. Other malformed cache entries.
- A command call that the environment makes bypass the cache is in `SubprocessCache.LabelCache.CachedRun`, but not in the histories: it neither reads nor changes the cache.
- `CircuitBreaker.MarkerIsStreak`: starts without markers and with working marker files; the configuration-error and truncated-input answers of hooks/stop_validator.py return before the breaker.
- Feedback across sessions (hooks/stop_validator.py:224-236), which can turn an approve into a block on repeated violations.
- `TreeMetrics`: the brace-counting heuristics for Go and TypeScript, and parameter counts.
- The regular-expression validators, configuration loading, message texts, metrics and scripts.
