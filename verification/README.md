# Verified models of the serving runtime and its evidence toolchain

The repository publishes overlay code for a vLLM/B12X serving runtime together with scripts that
decide what may be claimed about it. This project models the parts whose correctness is not visible
from any one function and proves it, in Dafny 4.11:

- the kernel compile cache: LRU tables, canonical JSON keys, the shared disk store with its file
  locks as a protocol between processes and threads, memoised specs, and the freeze guard
  (`OrderedTable`, `CompileCache`, `CacheProtocol`, `ProtocolRuns`, `FreezeGuard`, `JsonText`, `CompileSpecs`,
  `FactMeaning`, `ReprText`, `SpecMemo`);
- the evidence gate: derivation of claims from receipts and the promotion state machine
  (`EvidenceGate`, `EvidenceMeaning`, `EvidenceClaims`, `StatusPromotion`);
- the tiled batched matrix product as a grid of interleaving programs (`TiledBmm`);
- the unified-memory ceiling, from integer budgets to double-precision fractions (`Doubles`, `MemoryCeiling`);
- vocab-parallel argmax and top-M rescoring (`VocabArgmax`, `LogitRescore`);
- the provenance ledger and its staged-change reader (`StagedChanges`, `ProvenanceLedger`);
- the scratch planner, the prompt sizer and the battery judge (`ScratchPlan`, `PromptSizing`, `BatterySelection`,
  `BatteryVerdict`).

`Wrappers`, `FiniteSets`, `SortedLists` and `MixedRadix` hold what several of them share. Check everything with
`dafny verify dfyconfig.toml`.

## What is taken from outside

Hashes are collision-free and receipt ids injective. The compiler backend, object dump and load,
which characters `repr` shows as they are, the tokenizer, `topk`, how numbers are sorted around NaN
(`BatterySelection.SortingExists`: there is such a sort), git's view of a file's origin and the rounding
functions of the machine are parameters, constrained only where a theorem says so. Tensors hold exact
reals. The frozen flag is one variable of the process that every thread sees; `b12x.cute.runtime_control`,
which holds it, is not part of this model. The alignment
constant and the dense chunk-major stride of the partial outputs stand for `SCRATCH_ALIGN_BYTES`,
`align_up` and `_split_tmp_output_stride`; the files that define these are not part of this model.

## Where code and documentation disagree

- The docstring of the memory ceiling gives min(P, C + I, B); the code lets an explicit budget raise the
  ceiling. The code is modelled; `MemoryCeiling.DocumentedExactly` says exactly when the two agree.
- `get_top_tokens` refuses a scale that is not positive. `VocabArgmax.RankMaximaSuffice` needs no such
  condition: the transformed logits are compared on both sides.
- The memo comment says only plain-data specs are stored; a look-up with other data that prints alike
  still hits (`SpecMemo.LookAlikeIsNotRefused`, exact condition in `SpecMemo.OtherDataExact`).

## Properties that fail, with their exact condition

- Cached compile equals direct compile: if and only if cache keys determine the program
  (`CompileCache.CachedEqualsDirect`; failing set-up `OneSpecTwoKernels`).
- JSON keys are canonical: two specs share a key exactly when they agree after keys are sorted and surrogate
  pairs joined (`CompileSpecs.SpecKeysExact`; on the facts themselves, `FactMeaning.SpecKeysMean`), so every name or string with a split
  pair collides (`SplitSpecCollides`; failing pair `SplitPairsShareText`).
- A guarded body is frozen to its end: on one thread always; with several, if and only if a guard that set
  the flag never closes while another is open (`FreezeGuard.OverlapExact`; failing moves `OverlapThaws`).
- The memo answers as the constructor would: on plain data always, on other data if and only if its key is
  not in the memo (`SpecMemo.OtherDataExact`; failing calls `LookAlikeIsNotRefused`).
- `update_ledger` covers the new tree: if and only if no change takes away what an earlier one brought
  (`ProvenanceLedger.CoverageExact`; failing changes `SwapLosesARecord`), and the check accepts exactly
  diffs whose removed and brought paths are disjoint (`CheckExact`). This is the condition of the function.
  Its one caller reads `git diff --name-status --find-renames`, which reports a trade of names as two
  modifications; what it reports as removed is gone from the new tree, and then coverage always holds
  (`RemovedAreGone`).
- A truncated staged diff is refused: unless the cut falls at the end of a record or leaves a safe path of a
  record's last path (`StagedChanges.CutAnywhereExact`; a cut that goes unnoticed, `CutInsidePathIsRead`).
- Split-control cells hold what was last asked for: if and only if no view repeats its own last value after
  another view left a different one (`ScratchPlan.SharedCellsExact`; failing calls `SharedCellsGoStale`).
- Growth never takes the protected reserve: if and only if the budget is unset or within the allowance, or
  the allowance reaches the hard cap (`MemoryCeiling.BudgetExact`; in numbers, `BudgetCanSpendReserve`).
- A complete battery verdict means all floors are met: if and only if no selected metric is NaN
  (`BatterySelection.CompleteMeetsFloorsExactly`; passing NaN, `NaNVerdict`).

## Model

| member | source | states |
|---|---|---|
| `OrderedTable.PutContract` | runtime/overlays/b12x/b12x/cute/compiler.py:1925-1932 | a bounded insertion leaves no duplicate key, never exceeds the bound, keeps the key just inserted and invents nothing |
| `OrderedTable.TouchContract` | runtime/overlays/b12x/b12x/cute/compiler.py:1910-1922 | a hit reorders the table without losing or adding an entry |
| `OrderedTable.UseAfterCut` | runtime/overlays/b12x/b12x/cute/compiler.py:1925-1932 | cutting a recency list to the bound before or after a use gives the same list |
| `OrderedTable.PutKeepsMostRecent` | runtime/overlays/b12x/b12x/cute/compiler.py:1925-1932 | after an insertion the table holds exactly the most recently used keys of the whole history, in order |
| `OrderedTable.TouchKeepsMostRecent` | runtime/overlays/b12x/b12x/cute/compiler.py:1910-1922 | the same after a hit |
| `OrderedTable.LruTable.Get` | runtime/overlays/b12x/b12x/cute/compiler.py:136-148 | lookup result, reordering and hit/miss counters; the table stays the most recent keys |
| `OrderedTable.LruTable.Store` | runtime/overlays/b12x/b12x/cute/compiler.py:151-158 | the eviction loop ends with the bounded insertion; the stored key is found again |
| `CompileCache.CachedEqualsDirect` | runtime/overlays/b12x/b12x/cute/compiler.py:1981-2134 | over every sequence of compiles, evictions, disk hits, clears and freezes each call gives what the backend gives, if and only if requests that share a cache slot compile to the same program |
| `CompileCache.SecondCallSeesFirst` | runtime/overlays/b12x/b12x/cute/compiler.py:2003-2031 | two requests that share a slot: the second is answered with the first one's program |
| `CompileCache.OneSpecTwoKernels` | runtime/overlays/b12x/b12x/cute/compiler.py:610-625 | the memory key of an explicit spec omits the target function: a set-up in which the second caller gets the first kernel |
| `CompileCache.CompileStepFaithful` | runtime/overlays/b12x/b12x/cute/compiler.py:2003-2134 | one call keeps every cached program genuine and answers as the backend would; while frozen no backend call and no disk change |
| `CompileCache.MemorySlotsExact` | runtime/overlays/b12x/b12x/cute/compiler.py:610-632 | exactly which requests share a memory slot |
| `CompileCache.ObjectFilesExact` | runtime/overlays/b12x/b12x/cute/compiler.py:1802-1863 | exactly which requests share an object file |
| `CompileCache.AnsweredExact` | runtime/overlays/b12x/b12x/cute/compiler.py:2003-2031 | a call the caches can answer returns their program without the backend, keeps the disk and leaves the program in memory |
| `CompileCache.UnansweredExact` | runtime/overlays/b12x/b12x/cute/compiler.py:2112-2134 | a call they cannot answer changes nothing while frozen; otherwise the backend decides the outcome, and what it compiles is in memory and, if it can be dumped, on disk |
| `CompileCache.FrozenExact` | runtime/overlays/b12x/b12x/cute/compiler.py:2112-2119 | while frozen the caches alone decide: a program is returned exactly when they hold it, everything else is refused |
| `CompileCache.FrozenIgnoresBackend` | runtime/overlays/b12x/b12x/cute/compiler.py:2112-2119 | while frozen, set-ups that differ only in the backend behave the same |
| `CompileCache.RunFaithful` | runtime/overlays/b12x/b12x/cute/compiler.py:1910-1958 | the invariant of both caches, with the memory bound, over every run |
| `CompileCache.FrozenAfterRun` | runtime/overlays/b12x/b12x/cute/compiler.py:2003-2134 | over every run the last freeze or thaw alone decides whether it is frozen |
| `CompileCache.FreezingKeepsCaches` | runtime/overlays/b12x/b12x/cute/compiler.py:2003-2134 | freezing and thawing change nothing in the caches |
| `CompileCache.KernelCompiler.Lookup` | runtime/overlays/b12x/b12x/cute/compiler.py:1910-1922 | in-place memory lookup equals the table operation |
| `CompileCache.KernelCompiler.Resolve` | runtime/overlays/b12x/b12x/cute/compiler.py:2112-2134 | freeze check, backend call, disk store and memory store change exactly what the model step changes |
| `CompileCache.KernelCompiler.Compile` | runtime/overlays/b12x/b12x/cute/compiler.py:1981-2134 | the imperative call equals the model step, outcome and both caches; disk hits and compile misses are counted exactly where they happen |
| `CompileCache.KernelCompiler.ClearCache` | runtime/overlays/b12x/b12x/cute/compiler.py:1935-1958 | compiled programs emptied and their counters reset, disk untouched |
| `CacheProtocol.ReachableInv` | runtime/overlays/b12x/b12x/cute/compiler.py:2024-2096 | with the memory cache on or off, in every interleaving of threads and processes, with deaths at any step: locks agree with phases, object files are complete, every held or cached program is genuine |
| `CacheProtocol.AtMostOneCompile` | runtime/overlays/b12x/b12x/cute/compiler.py:2032-2096 | successful backend compiles of a key are at most one, plus one per compiled program lost before publication and one per existing object that failed to load |
| `CacheProtocol.EveryResultIsDirect` | runtime/overlays/b12x/b12x/cute/compiler.py:2003-2096 | every finished call in every interleaving returns what a direct backend call returns |
| `CacheProtocol.FilesComplete` | runtime/overlays/b12x/b12x/cute/compiler.py:1897-1907 | object files are only ever complete dumps even if a writer dies midway; no process's table outgrows its bound |
| `CacheProtocol.OnlyHolderWrites` | runtime/overlays/b12x/b12x/cute/compiler.py:1866-1907 | only the thread holding a key's lock changes its temporary or object file, and no other thread holds it |
| `CacheProtocol.SearchStepOk` | runtime/overlays/b12x/b12x/cute/compiler.py:2003-2031 | each lookup, probe, read and lock step keeps the thread's and the key's invariant |
| `CacheProtocol.ResolveStepOk` | runtime/overlays/b12x/b12x/cute/compiler.py:2032-2096 | each second look, second load, freeze check and backend step under the lock keeps the invariant and the compile count |
| `ProtocolRuns.Finishes` | runtime/overlays/b12x/b12x/cute/compiler.py:2003-2096 | wherever it stands, a thread that no other keeps out and nothing fails finishes its call and gives the lock back |
| `ProtocolRuns.AnswersAlone` | runtime/overlays/b12x/b12x/cute/compiler.py:2003-2096 | exactly how a call ends that runs alone: outcome, memory, object file and counts |
| `ProtocolRuns.AloneIsSequential` | runtime/overlays/b12x/b12x/cute/compiler.py:2003-2134 | the protocol refines the sequential cache: such a call ends with the outcome, the memory and the object of one sequential call |
| `ProtocolRuns.CallsFinish` | runtime/overlays/b12x/b12x/cute/compiler.py:2003-2096 | from every reachable state a call finishes if its thread gets its turns and no other holds the lock of its key, and ends exactly as it would alone |
| `ProtocolRuns.FreshCallsFinish` | runtime/overlays/b12x/b12x/cute/compiler.py:2003-2096 | the same for a thread that is yet to be started, in any process |
| `ProtocolRuns.KilledAndCleared` | runtime/overlays/b12x/b12x/cute/compiler.py:1866-1958 | a dead thread stays dead and frees its lock; a cleared memory is empty and no other is touched |
| `ProtocolRuns.FrozenByLast` | runtime/overlays/b12x/b12x/cute/compiler.py:2073-2085 | a process is frozen exactly when its last freeze or thaw was a freeze |
| `ProtocolRuns.FreezeExact` | runtime/overlays/b12x/b12x/cute/compiler.py:2073-2085 | whatever is scheduled, a frozen process counts no compile until it is unfrozen, if and only if none of its threads is past the freeze check with something to compile |
| `ProtocolRuns.WritesPiecewise` | runtime/overlays/b12x/b12x/cute/compiler.py:1897-1907 | a writer cut short leaves exactly the first bytes of the dump it got to |
| `ProtocolRuns.RefusedWasFrozen` | runtime/overlays/b12x/b12x/cute/compiler.py:2073-2085 | in every run a call is refused for being frozen only in a process that was frozen |
| `FreezeGuard.GuardsHold` | runtime/overlays/vllm/vllm/compilation/b12x_capture.py:29-53 | on one thread, for every tree of nested guards that compile, raise or return: the frozen flag on exit is the flag on entry, guarded compiles are frozen throughout and reach no backend |
| `FreezeGuard.GuardIgnoresBackend` | runtime/overlays/vllm/vllm/compilation/b12x_capture.py:45-53 | everything that happens under an enabled guard, every outcome and all that is left in the caches, is the same with any other backend |
| `FreezeGuard.OverlapExact` | runtime/overlays/vllm/vllm/compilation/b12x_capture.py:45-53 | over every interleaving of entering, freezing, compiling and leaving by any number of threads: every guarded body finds the flag set to its end if and only if a guard that set the flag never closes while another is open |
| `FreezeGuard.BodyFrozenExact` | runtime/overlays/vllm/vllm/compilation/b12x_capture.py:45-53 | from any moment at which the flag is set it stays set through the following moves if and only if no guard that set it closes among them |
| `FreezeGuard.GuardedCompilesReachNoBackend` | runtime/overlays/vllm/vllm/compilation/b12x_capture.py:45-53 | where that rule is kept, a compile by any thread inside a guard reaches no backend: the caches alone decide whether it returns, and what |
| `FreezeGuard.BodiesIgnoreBackend` | runtime/overlays/vllm/vllm/compilation/b12x_capture.py:45-53 | on any number of threads, from any moment at which the flag is set until a guard that set it closes, everything is the same with any other backend |
| `FreezeGuard.OneThreadOutlives` | runtime/overlays/vllm/vllm/compilation/b12x_capture.py:45-53 | a single thread keeps the rule however its guards nest |
| `FreezeGuard.ThreadRunsBody` | runtime/overlays/vllm/vllm/compilation/b12x_capture.py:29-53 | a thread of a crew that runs a body alone leaves the caches the body means, its guards closed again |
| `FreezeGuard.OverlapThaws` | runtime/overlays/vllm/vllm/compilation/b12x_capture.py:45-53 | two overlapping guards after which the second body runs with the flag clear |
| `FreezeGuard.PrewarmedBodiesRun` | runtime/overlays/b12x/b12x/cute/compiler.py:2015-2031 | a guarded body that only compiles kernels already on disk never fails for being frozen, whatever memory has evicted |
| `FreezeGuard.PrewarmedAttempt` | runtime/overlays/b12x/b12x/cute/compiler.py:2015-2031 | the same for bodies that may raise: no backend call, nothing lost on disk |
| `FreezeGuard.PrewarmedCourse` | runtime/overlays/vllm/vllm/compilation/b12x_capture.py:29-53 | guards are invisible to a prewarmed body: it compiles what it would compile anyway, in that order, every compile returns, and it raises exactly when told to |
| `FreezeGuard.Execute` | runtime/overlays/vllm/vllm/compilation/b12x_capture.py:29-53 | running a body on the mutable compiler, guards closed even when it raises, equals its meaning |
| `JsonText.Utf16Exact` | runtime/overlays/b12x/b12x/cute/compiler.py:484-491 | a string survives ASCII escapes exactly when no lone high surrogate is directly followed by a lone low one |
| `JsonText.JoinedExact` | runtime/overlays/b12x/b12x/cute/compiler.py:484-491 | joining surrogate pairs keeps the escapes and changes exactly the strings that are not plain, so each of those shares its escapes with another string |
| `JsonText.SurrogatesCollide` | runtime/overlays/b12x/b12x/cute/compiler.py:484-491 | a concrete pair of different strings with one escaped form |
| `JsonText.EscapedText` | runtime/overlays/b12x/b12x/cute/compiler.py:484-491 | reading a quoted string undoes its escapes |
| `JsonText.IntRoundTrip` | runtime/overlays/b12x/b12x/cute/compiler.py:484-491 | decimal integers read back as themselves |
| `JsonText.DecimalForm` | runtime/overlays/b12x/b12x/cute/compiler.py:484-491 | a minus exactly before negative numbers, no leading zeros |
| `JsonText.RoundTrip` | runtime/overlays/b12x/b12x/cute/compiler.py:484-491 | a parser undoes the compact printer for every value, whatever text follows |
| `JsonText.PrintInjective` | runtime/overlays/b12x/b12x/cute/compiler.py:484-491 | two values share their text only when they are the same value |
| `JsonText.PrintAscii` | runtime/overlays/b12x/b12x/cute/compiler.py:484-491 | whatever a value holds, its text is printable ASCII |
| `CompileSpecs.PodExactlyWhenAccepted` | runtime/overlays/b12x/b12x/cute/compiler.py:420-481 | the plain-data check accepts exactly the values the normaliser does not reject |
| `CompileSpecs.CanonExact` | runtime/overlays/b12x/b12x/cute/compiler.py:484-491 | two normalised values have one key-sorted form if and only if they are equal as JSON values, dictionaries as mappings |
| `CompileSpecs.TagsSeparate` | runtime/overlays/b12x/b12x/cute/compiler.py:444-455 | dimensions and fields never share a normal form, and two of a kind do only with equal name and value |
| `CompileSpecs.TextExact` | runtime/overlays/b12x/b12x/cute/compiler.py:484-491 | two values share their JSON text exactly when their sorted, escaped forms agree, and the text parses back to that form |
| `CompileSpecs.TextExactByJoining` | runtime/overlays/b12x/b12x/cute/compiler.py:484-491 | whatever strings and dictionary keys hold, two values share their text exactly when they are the same once keys are sorted and surrogate pairs joined; with plain keys, exactly when the joined values are equal, dictionaries as mappings |
| `CompileSpecs.NotPlainCollides` | runtime/overlays/b12x/b12x/cute/compiler.py:484-491 | every value with a string that is not plain shares its text with a different value |
| `CompileSpecs.SplitPairsShareText` | runtime/overlays/b12x/b12x/cute/compiler.py:484-491 | a surrogate pair in two pieces and its character share their text without being equal |
| `CompileSpecs.SpecKeysExact` | runtime/overlays/b12x/b12x/cute/compiler.py:498-509 | whatever names, strings and dictionary keys hold: one JSON key exactly when versions agree, kernel names agree after joining surrogate pairs, and facts agree after sorting and joining; with plain dictionary keys, exactly when the joined facts are equal as JSON values |
| `FactMeaning.SameExact` | runtime/overlays/b12x/b12x/cute/compiler.py:439-481 | two facts have equal normal forms exactly when they are equal: tuples, lists and tagged triples item by item, dictionaries as mappings, scalars as they are |
| `FactMeaning.AlikeExact` | runtime/overlays/b12x/b12x/cute/compiler.py:439-491 | and one sorted, joined form exactly when they are spelled alike |
| `FactMeaning.SpecKeysMean` | runtime/overlays/b12x/b12x/cute/compiler.py:439-509 | two specs get one JSON key exactly when versions agree and kernel names and facts are spelled alike; without split surrogate pairs, exactly when names and facts are equal |
| `CompileSpecs.SplitSpecCollides` | runtime/overlays/b12x/b12x/cute/compiler.py:498-509 | a kernel name or string fact that is not plain always collides with a different spec |
| `ReprText.ReadsBack` | runtime/overlays/b12x/b12x/cute/compiler.py:122-130 | the printed representation of plain data can be read back, whatever follows it |
| `ReprText.ReprFaithful` | runtime/overlays/b12x/b12x/cute/compiler.py:122-130 | different plain data, different representations: the memo key preserves type distinctions |
| `SpecMemo.SameKeySameResult` | runtime/overlays/b12x/b12x/cute/compiler.py:115-133 | on plain data, equal memo keys mean equal unmemoised results |
| `SpecMemo.MemoKeysExact` | runtime/overlays/b12x/b12x/cute/compiler.py:115-133 | on plain data two calls share a memo key exactly when they are the same call |
| `SpecMemo.DirectExact` | runtime/overlays/b12x/b12x/cute/compiler.py:166-285 | how each constructor ends without a memo: refused labels, refused facts, a spec whose key is that of the facts the call stands for, or the fields kept as they are |
| `SpecMemo.CallsShareKeyExactly` | runtime/overlays/b12x/b12x/cute/compiler.py:166-285 | two plain-data calls of any kind get one key exactly when versions agree and kernels and the facts they stand for are spelled alike |
| `SpecMemo.MemoStepFaithful` | runtime/overlays/b12x/b12x/cute/compiler.py:188-285 | one memoised constructor call keeps the memo valid and, on plain data, returns the unmemoised result |
| `SpecMemo.MemoisedEqualsDirect` | runtime/overlays/b12x/b12x/cute/compiler.py:136-285 | over every sequence of constructor calls, through evictions, plain-data calls return the unmemoised spec and at most 8192 entries are kept |
| `SpecMemo.OtherDataExact` | runtime/overlays/b12x/b12x/cute/compiler.py:188-285 | a call on other data is answered as without the memo if and only if its key is not in the memo |
| `SpecMemo.LookAlikeIsNotRefused` | runtime/overlays/b12x/b12x/cute/compiler.py:115-133 | a value that is not plain data but prints like one gets the other's spec where the unmemoised constructor raises |
| `SpecMemo.SpecFactory.Construct` | runtime/overlays/b12x/b12x/cute/compiler.py:188-285 | the constructors over the mutable table equal the model step |
| `SpecMemo.SpecFactory.Clear` | runtime/overlays/b12x/b12x/cute/compiler.py:1952-1955 | memo emptied and its counters reset |
| `EvidenceGate.DerivationSupported` | scripts/gate_status.py:166-248 | a derived claim re-derives, with the same subject and receipts, from any pool between its own receipts and the original one, in any order |
| `EvidenceGate.ExactClaimStable` | scripts/gate_status.py:166-248 | for claims without a battery even the list of receipts is the same |
| `EvidenceGate.BenchmarkStable` | scripts/gate_status.py:138-163 | a benchmark claim depends on its battery receipts as a set, not on their order |
| `EvidenceGate.CollectEach` | scripts/gate_status.py:115-135 | the append loop collects one passing receipt per kind or fails, as the recursive definition says |
| `EvidenceGate.DigestPairUnique` | scripts/gate_status.py:190-198 | the sorted pair of build digests is determined by the receipts |
| `EvidenceMeaning.OnePassExact` | scripts/gate_status.py:56-62 | one passing receipt of a kind, exactly when the pool holds a single such receipt and it passed |
| `EvidenceMeaning.ChainExact` | scripts/gate_status.py:65-87 | a chain derives about a subject exactly when every wanted receipt is the only one of its kind, passed, and agrees with that subject |
| `EvidenceMeaning.CleanExact` | scripts/gate_status.py:106-112 | exactly which pools derive a clean build, and about which subject |
| `EvidenceMeaning.ModelExact` | scripts/gate_status.py:90-103 | exactly which pools license model and sidecar |
| `EvidenceMeaning.LiveExact` | scripts/gate_status.py:115-135 | exactly which pools derive a live launch of a profile |
| `EvidenceMeaning.BenchmarkExact` | scripts/gate_status.py:138-163 | exactly which pools derive a benchmark: distinct attempt numbers from one to five, all about the live subject, exactly three valid and past both thresholds |
| `EvidenceMeaning.AtMostFive` | scripts/gate_status.py:147-153 | distinct numbers from one to five already mean at most five attempts: the limit check adds nothing |
| `EvidenceMeaning.PublishedExact` | scripts/gate_status.py:227-240 | publication derives exactly from an attested clean build, a clearing registry licence and the publication of its very digest |
| `EvidenceMeaning.ReadbackExact` | scripts/gate_status.py:241-247 | readback derives exactly from publication and one more passing receipt about the same build |
| `EvidenceMeaning.AnonymousExact` | scripts/gate_status.py:220-226 | anonymous readback derives exactly from its own chain and a fast live launch of the same build |
| `EvidenceMeaning.ReproducibleExact` | scripts/gate_status.py:184-219 | bit reproducibility derives exactly from two full build chains about two images, one source and an equal comparison |
| `EvidenceClaims.SuiteExact` | scripts/gate_status.py:177-183 | the suite derives about a subject exactly when each profile has a reproduced benchmark that carries its identities |
| `EvidenceClaims.DeriveExact` | scripts/gate_status.py:166-248 | claim by claim: exactly the pools that derive it, and the subject it derives about |
| `EvidenceClaims.IdsExact` | scripts/gate_status.py:166-248 | claim by claim: exactly the receipts the derivation lists, in order, none left out and none besides |
| `StatusPromotion.ProfilesAgree` | scripts/gate_status.py:115-135 | two profiles derived from one pool agree on all build and model identities |
| `StatusPromotion.SuiteIsThreeBenchmarks` | scripts/gate_status.py:177-183 | the three-profile suite derives exactly when the three benchmarks do: its mismatch check cannot fire |
| `StatusPromotion.CleanExcludesBitReproducible` | scripts/gate_status.py:184-219 | no pool derives both a clean build and bit reproducibility |
| `StatusPromotion.DerivedFromPool` | scripts/gate_status.py:166-248 | a derivation lists only receipts of its pool |
| `StatusPromotion.RecheckExact` | scripts/gate_status.py:265-279 | the re-derivation accepts a passed entry exactly when the pool holds its receipts and they support it |
| `StatusPromotion.Promote` | scripts/gate_status.py:255-291 | the promotion loop equals the promotion function |
| `StatusPromotion.PromotionExact` | scripts/gate_status.py:255-291 | a promotion is accepted exactly when ids are unique, every passed entry re-derives, the claim derives and one entry is for it; then that entry alone changes: passed, no reason, the derived subject, each receipt once in order |
| `StatusPromotion.DeduplicateExact` | scripts/gate_status.py:280-291 | each receipt once, in the order of first occurrence |
| `StatusPromotion.UniqueExact` | scripts/gate_status.py:46-48 | receipt ids are unique exactly when there are as many ids as receipts |
| `StatusPromotion.RunPasses` | scripts/gate_status.py:255-291 | over a run a claim is passed exactly when it was at the start or an attempt at it was accepted; nothing undoes it |
| `StatusPromotion.PromotionCertifies` | scripts/gate_status.py:255-291 | whatever the status said, after a promotion every passed claim re-derives from exactly its own receipts |
| `StatusPromotion.NeverStale` | scripts/gate_status.py:265-279 | with genuine entries and their receipts present, a promotion succeeds exactly when its own claim derives and has one target |
| `StatusPromotion.RunCertified` | scripts/gate_status.py:255-291 | over every run with growing pools all passed claims stay certified |
| `StatusPromotion.EveryRunIsSelfCertifying` | scripts/gate_status.py:255-291 | after every such run the next promotion is never refused for a stale earlier claim |
| `TiledBmm.RowBlockCovers` | runtime/kernels/builda_bmm_v0.py:98-102 | the row block is a power of two and covers every row |
| `TiledBmm.OneTile` | runtime/kernels/builda_bmm_v0.py:83-102 | each output column lies in exactly one tile of the grid |
| `TiledBmm.OneWriter` | runtime/kernels/builda_bmm_v0.py:74-80 | each output element is written by exactly one program of the grid |
| `TiledBmm.DotExtendsSum` | runtime/kernels/builda_bmm_v0.py:62-72 | the dot product of two masked blocks is the next stretch of the inner product; the masked tail adds nothing |
| `TiledBmm.AdvanceKeepsPartial` | runtime/kernels/builda_bmm_v0.py:62-72 | one iteration of the K loop extends every accumulator entry from k0 terms to k0 + 64, capped at K |
| `TiledBmm.FinishedSurvives` | runtime/kernels/builda_bmm_v0.py:74-80 | a program's store leaves what another program has finished |
| `TiledBmm.StepKeepsInv` | runtime/kernels/builda_bmm_v0.py:52-80 | every step of every program keeps the grid invariant |
| `TiledBmm.AnyInterleavingIsBmm` | runtime/kernels/builda_bmm_v0.py:52-112 | however the programs interleave, nothing but output is ever written and, when all have stored, every output element is the full sum over k |
| `TiledBmm.NestedStridesAreInjective` | runtime/kernels/builda_bmm_v0.py:88-112 | nesting output strides, contiguous or transposed, give every element its own address |
| `TiledBmm.StoreTile` | runtime/kernels/builda_bmm_v0.py:74-80 | the masked store writes the accumulator to its own cells and changes nothing else |
| `TiledBmm.RunProgram` | runtime/kernels/builda_bmm_v0.py:52-80 | one program leaves the exact products of the original inputs in its cells and touches no other |
| `TiledBmm.Bmm` | runtime/kernels/builda_bmm_v0.py:88-112 | running the programs in any order computes the batched product in place |
| `MemoryCeiling.ComputeExact` | runtime/overlays/vllm/vllm/utils/mem_utils.py:415-489 | a ceiling is refused exactly for inadmissible inputs; the later consistency checks never fire |
| `MemoryCeiling.BudgetIsFloor` | runtime/overlays/vllm/vllm/utils/mem_utils.py:448-456 | an explicit budget only raises the ceiling, monotonically, never above total minus reserve |
| `MemoryCeiling.DocumentedExactly` | runtime/overlays/vllm/vllm/utils/mem_utils.py:380-395 | the docstring formula is followed without a budget, and with one only when it equals the allowance or both reach the hard cap |
| `MemoryCeiling.FullOnlyAtPoolCeiling` | runtime/overlays/vllm/vllm/utils/mem_utils.py:440-472 | the ceiling leaves room unless the baseline already equals total minus reserve |
| `MemoryCeiling.GrowthKeepsReserve` | runtime/overlays/vllm/vllm/utils/mem_utils.py:415-472 | with no budget, over any sequence of phases growth up to the applied ceiling never takes the reserve |
| `MemoryCeiling.BudgetExact` | runtime/overlays/vllm/vllm/utils/mem_utils.py:415-472 | every sequence of phases leaves the reserve if and only if the budget is unset, lies within the allowance, or the allowance already reaches total minus reserve |
| `MemoryCeiling.BudgetCanSpendReserve` | runtime/overlays/vllm/vllm/utils/mem_utils.py:448-456 | a budget beyond the allowance, in numbers |
| `MemoryCeiling.AppliedExact` | runtime/overlays/vllm/vllm/utils/mem_utils.py:504-512 | for pools up to 2^52 bytes and correctly rounded doubles the applied ceiling is the request or one byte less |
| `MemoryCeiling.RoundDown` | runtime/overlays/vllm/vllm/utils/mem_utils.py:504-512 | the lowering loop terminates at a double whose bytes do not exceed the request, and does nothing if the first one does not |
| `MemoryCeiling.Apply` | runtime/overlays/vllm/vllm/utils/mem_utils.py:492-520 | applied bytes between baseline and request; up to 2^52 bytes the loop never runs and failure needs a full ceiling; on failure the allocator is unchanged |
| `MemoryCeiling.ApplyFailsOnlyWhenFull` | runtime/overlays/vllm/vllm/utils/mem_utils.py:415-520 | from computation to application: failure only if the baseline equals total minus reserve |
| `MemoryCeiling.FullPoolFails` | runtime/overlays/vllm/vllm/utils/mem_utils.py:504-520 | and then it can: a 49-byte pool that every correctly rounding machine refuses |
| `Doubles.RelativeError` | runtime/overlays/vllm/vllm/utils/mem_utils.py:504-508 | a rounded quotient is within half a unit in the last place |
| `Doubles.OnGrid` | runtime/overlays/vllm/vllm/utils/mem_utils.py:509-511 | doubles above a power of two are multiples of its last place, which makes the lowering loop terminate |
| `VocabArgmax.FirstMax` | runtime/overlays/vllm/vllm/model_executor/layers/logits_processor.py:306-344 | first index of the maximum |
| `VocabArgmax.RankMaximaSuffice` | runtime/overlays/vllm/vllm/model_executor/layers/logits_processor.py:306-344 | the winner among the ranks' own maxima is the first argmax of the gathered, cut and transformed row |
| `VocabArgmax.TopToken` | runtime/overlays/vllm/vllm/model_executor/layers/logits_processor.py:294-344 | the vocab-parallel token is the argmax of what `forward` returns; a scale that is not positive is refused |
| `VocabArgmax.ForwardExact` | runtime/overlays/vllm/vllm/model_executor/layers/logits_processor.py:183-292 | column by column, `forward` returns the logit of the rank that holds the column, soft-capped first and scaled then |
| `VocabArgmax.Float32Exact` | runtime/overlays/vllm/vllm/model_executor/layers/logits_processor.py:270-344 | the single-precision number of an index: the nearest one held, ties to a multiple of four |
| `VocabArgmax.OddTokensLost` | runtime/overlays/vllm/vllm/model_executor/layers/logits_processor.py:325-344 | beyond 2^24 an index sent in single precision is wrong exactly for odd tokens |
| `LogitRescore.RescoreInPlace` | runtime/overlays/vllm/vllm/model_executor/layers/logits_processor.py:92-138 | every row is rescored once, only candidate columns change, same result for every chunk size |
| `LogitRescore.RescoredColumns` | runtime/overlays/vllm/vllm/model_executor/layers/logits_processor.py:92-138 | column by column: candidates get their exact logits, everything else stays; how many candidates there are and that none is beaten by a column left out |
| `LogitRescore.DotSplits` | runtime/overlays/vllm/vllm/model_executor/layers/logits_processor.py:92-138 | the exact logit sums every product once, wherever the vectors are cut |
| `LogitRescore.LeftOutIsLow` | runtime/overlays/vllm/vllm/model_executor/layers/logits_processor.py:110-136 | a column left out of the candidates can neither carry nor show the best logit |
| `LogitRescore.GreedyRestored` | runtime/overlays/vllm/vllm/model_executor/layers/logits_processor.py:92-138 | with quantised logits within e and at most M within 2e of the best, the rescored argmax is the exact one |
| `LogitRescore.OneMoreIsTooMany` | runtime/overlays/vllm/vllm/model_executor/layers/logits_processor.py:92-138 | with M + 1 within 2e the exact choice can be lost |
| `LogitRescore.FullCoverIsExact` | runtime/overlays/vllm/vllm/model_executor/layers/logits_processor.py:92-138 | when M covers the shard every logit becomes exact |
| `LogitRescore.ExactGreedyToken` | runtime/overlays/vllm/vllm/model_executor/layers/logits_processor.py:86-344 | after rescoring, the first argmax of the gathered row is the exact greedy token |
| `LogitRescore.GreedyToken` | runtime/overlays/vllm/vllm/model_executor/layers/logits_processor.py:86-344 | the reduction over the rescored ranks returns that token |
| `StagedChanges.SplitJoin` | scripts/register_provenance.py:128-132 | splitting undoes joining |
| `StagedChanges.NormalisedIsNormal` | scripts/register_provenance.py:83-87 | an accepted path is normalised once and for all |
| `StagedChanges.ReadChanges` | scripts/register_provenance.py:128-155 | the index loop terminates and equals the record grammar, error cases included |
| `StagedChanges.RoundTrip` | scripts/register_provenance.py:128-155 | every list of well-formed changes printed as NUL-terminated fields reads back, whatever the similarity scores |
| `StagedChanges.CutAnywhereExact` | scripts/register_provenance.py:128-155 | cut after any number of characters, the text is read exactly when the cut falls at the end of a record (as the records before it) or leaves a safe path of a record's last path (as the records before it and that one with the path left); an unsafe piece of it is refused as such, any other cut as malformed |
| `StagedChanges.CutInsidePathIsRead` | scripts/register_provenance.py:128-155 | an input of the second kind: a path cut short is read as the path |
| `ProvenanceLedger.LongestPrefixWins` | scripts/register_provenance.py:115-125 | a path's class is that of its one longest declared prefix |
| `ProvenanceLedger.ApplyExact` | scripts/register_provenance.py:382-417 | exactly which changes are accepted, and which fail for want of a policy |
| `ProvenanceLedger.ApplyResult` | scripts/register_provenance.py:382-417 | what an accepted change does to every path: carried records keep licence, notice and origin, new ones get those of their class, the rest stay |
| `ProvenanceLedger.ApplyAllExact` | scripts/register_provenance.py:382-417 | a list is accepted exactly when each change can be applied to what the ones before it leave |
| `ProvenanceLedger.DiffExact` | scripts/register_provenance.py:382-417 | a diff that brings and removes each path at most once, and none both, is accepted exactly when each change could be applied to the old ledger |
| `ProvenanceLedger.ApplyAllKeys` | scripts/register_provenance.py:382-417 | which paths are recorded after a diff |
| `ProvenanceLedger.CoverageExact` | scripts/register_provenance.py:382-417 | a ledger that covered the old tree covers the new one if and only if no change removes what an earlier change of the diff brought |
| `ProvenanceLedger.RemovedAreGone` | scripts/register_provenance.py:129-129 | where removed paths are gone from the new tree, as in what git reports here, coverage is always kept and no path is both removed and brought |
| `ProvenanceLedger.CheckExact` | scripts/register_provenance.py:323-351 | after an update the check passes every staged change if and only if no path is both removed and brought |
| `ProvenanceLedger.CheckMeans` | scripts/register_provenance.py:323-351 | for any ledger, what the check accepts path by path: no removed path recorded, every brought one with the staged hash and a class the map does not contradict |
| `ProvenanceLedger.SwapLosesARecord` | scripts/register_provenance.py:382-417 | the function's failing input: two renames that trade names lose one record |
| `ProvenanceLedger.ApplyLineage` | scripts/register_provenance.py:385-416 | where the record of a path comes from after one change |
| `ProvenanceLedger.DiffTraces` | scripts/register_provenance.py:382-417 | the same for one diff, for every recorded path |
| `ProvenanceLedger.OneDescendant` | scripts/register_provenance.py:385-416 | no two paths trace back to one: records are never duplicated by edits and renames |
| `ProvenanceLedger.EditedInPlace` | scripts/register_provenance.py:385-416 | a path neither removed nor renamed onto keeps class, licence, origin and, if unmodified upstream, its hash; unnamed paths keep their record |
| `ProvenanceLedger.AddedAreCurrent` | scripts/register_provenance.py:398-416 | after an update every brought path that is recorded has its declared class, the staged hash and, where required, the modifier |
| `ProvenanceLedger.RunsKeepLineage` | scripts/register_provenance.py:382-417 | across any sequence of updates every record, traced back through all renames, descends from the record at the traced path, with class, licence, origin and a fixed unmodified-upstream hash, or was made on the way and is of no pre-seed-only class |
| `ProvenanceLedger.FirstRunCovers` | scripts/register_provenance.py:371-382 | a first run covers every tracked path that is not exempt |
| `ProvenanceLedger.FirstRunExact` | scripts/register_provenance.py:371-417 | a first run with nothing staged is accepted exactly when every tracked path that is not exempt is in the index and has a class of which a record may be made |
| `ProvenanceLedger.PlannedExact` | scripts/register_provenance.py:371-381 | which changes an update applies, and that it is refused only for an unstaged path that is not valid |
| `ProvenanceLedger.PayloadReadsBack` | scripts/register_provenance.py:290-294 | the written file reads back as the records it was written from |
| `ProvenanceLedger.PayloadUnique` | scripts/register_provenance.py:290-294 | the sorted file depends on the records alone |
| `ProvenanceLedger.ProjectionExact` | scripts/register_provenance.py:283-300 | the projection is the one list that holds exactly the subject records, sorted by path |
| `ProvenanceLedger.VerifyExact` | scripts/register_provenance.py:309-362 | exactly what the whole check accepts: the staged changes path by path, and one projection |
| `ProvenanceLedger.Normalise` | scripts/register_provenance.py:290-294 | records written once each in increasing order of path |
| `ProvenanceLedger.UpdateLedger` | scripts/register_provenance.py:365-417 | the update loop equals the fold over the changes, is accepted exactly when each change can be applied, and writes a sorted, unique file |
| `ProvenanceLedger.UpdateThenCheck` | scripts/register_provenance.py:323-417 | for disjoint removed and brought paths the update covers the new tree, and the check then accepts exactly one projection on disk: the subject records, each once, sorted |
| `ScratchPlan.AlignUpExact` | runtime/overlays/b12x/b12x/integration/sparse_mla_scratch.py:320-364 | the least multiple of the alignment at or above the cursor |
| `ScratchPlan.PlanLayout` | runtime/overlays/b12x/b12x/integration/sparse_mla_scratch.py:308-375 | for all capacities and both modes: regions aligned, in order, as tight as alignment allows, inside the buffer, each as large as its view needs |
| `ScratchPlan.Plan` | runtime/overlays/b12x/b12x/integration/sparse_mla_scratch.py:59-104 | any requested integers give the layout of the clamped capacities |
| `ScratchPlan.ClampExact` | runtime/overlays/b12x/b12x/integration/sparse_mla_scratch.py:59-104 | every capacity is what was asked for, or one where less was asked; without a batch size there is one batch to a row |
| `ScratchPlan.PackedDisjoint` | runtime/overlays/b12x/b12x/integration/sparse_mla_scratch.py:308-375 | no two regions overlap |
| `ScratchPlan.OutputIsChunkZero` | runtime/overlays/b12x/b12x/integration/sparse_mla_scratch.py:329-332 | the decode output aliases chunk 0 of the partial outputs and no other element |
| `ScratchPlan.IndicesInjective` | runtime/overlays/b12x/b12x/integration/sparse_mla_scratch.py:308-375 | different partial outputs, partial sums and final sums have different elements |
| `ScratchPlan.BindExact` | runtime/overlays/b12x/b12x/integration/sparse_mla_scratch.py:196-292 | exactly which tensors are bound |
| `ScratchPlan.BoundStaysInside` | runtime/overlays/b12x/b12x/integration/sparse_mla_scratch.py:196-444 | for every accepted binding and chunk setting every addressed element lies in its own region |
| `ScratchPlan.JudgeExact` | runtime/overlays/b12x/b12x/integration/sparse_mla_scratch.py:144-158 | exactly which split settings are accepted, and which refusal comes first |
| `ScratchPlan.CellsHoldLastAccepted` | runtime/overlays/b12x/b12x/integration/sparse_mla_scratch.py:144-158 | after any sequence of calls on one view, writes skipped or not, the cells hold the last accepted values |
| `ScratchPlan.StaleExactly` | runtime/overlays/b12x/b12x/integration/sparse_mla_scratch.py:144-158 | after an accepted call, in any state of views and cells, a cell holds the value asked for exactly if the view remembers another one or the cell still holds it |
| `ScratchPlan.SharedCellsExact` | runtime/overlays/b12x/b12x/integration/sparse_mla_scratch.py:144-158 | over every interleaving of calls by any number of views, each with its own limit, on one memory, every accepted call leaves its values if and only if no view repeats its own last value after another view left a different one |
| `ScratchPlan.OneViewIsCurrent` | runtime/overlays/b12x/b12x/integration/sparse_mla_scratch.py:144-158 | one view alone never goes stale |
| `ScratchPlan.SharedCellsGoStale` | runtime/overlays/b12x/b12x/integration/sparse_mla_scratch.py:144-158 | two views that break that rule, and the values left behind |
| `ScratchPlan.SplitControl.SetSplitChunkConfig` | runtime/overlays/b12x/b12x/integration/sparse_mla_scratch.py:144-158 | acceptance, cells after an accepted call, and nothing changed by a refused one |
| `PromptSizing.SizingSound` | benchmarks/probe.py:444-502 | every prompt reported exact has exactly the target count, for any tokenizer |
| `PromptSizing.StartDecides` | benchmarks/probe.py:455-472 | the repetitions are the most that fit without making the base too long; without such a start nothing is reported, and an exact base is reported as it is |
| `PromptSizing.ExactStepsSuffice` | benchmarks/probe.py:473-489 | with one token to a filler and a base too short, the prompt with as many fillers as tokens are missing is found |
| `PromptSizing.UnitStepsSuffice` | benchmarks/probe.py:473-489 | with no or one token to a filler and a base too short, an exact prompt is found whenever some doubling of the first guess within the limit is long enough |
| `PromptSizing.ReachExact` | benchmarks/probe.py:475-479 | doubling ends with a bracket exactly when there is one, at the first |
| `PromptSizing.ScanDecides` | benchmarks/probe.py:490-494 | where the search ends without an exact size, a prompt is reported exactly when one of the sizes around its end is exact |
| `PromptSizing.Shrink` | benchmarks/probe.py:461-468 | the shortening loop equals its specification |
| `PromptSizing.Bracket` | benchmarks/probe.py:475-479 | the doubling loop terminates and equals its specification |
| `PromptSizing.Search` | benchmarks/probe.py:480-489 | the binary search equals its specification |
| `PromptSizing.Scan` | benchmarks/probe.py:490-493 | the scan equals its specification |
| `PromptSizing.SizePrompt` | benchmarks/probe.py:444-502 | the whole equals the specification the lemmas characterise; an estimate only where allowed and only for want of an exact prompt |
| `PromptSizing.EstimateExact` | benchmarks/probe.py:496-502 | the estimate has four characters to a token, the first of a long enough body, and ends in the suffix |
| `BatterySelection.OrderFree` | scripts/evaluate_battery.py:34-50 | the verdict is the same for every order the attempts are given in |
| `BatterySelection.LaterAttemptsChangeNothing` | scripts/evaluate_battery.py:64-91 | once enough attempts are valid, later well-formed ones change neither selection nor medians nor the threshold outcome |
| `BatterySelection.CompleteSelectsFirst` | scripts/evaluate_battery.py:66-66 | the selection is the required number of valid attempts, in order, none passed over for a later one |
| `BatterySelection.MediansMean` | scripts/evaluate_battery.py:71-85 | every reported median is that of the selected values and is not below its floor |
| `BatterySelection.ValuesMeans` | scripts/evaluate_battery.py:73-81 | every selected value is numeric and not below the individual floor |
| `BatterySelection.CompleteMeetsFloorsExactly` | scripts/evaluate_battery.py:71-91 | a complete verdict has every selected value and every median at its floor if and only if no selected metric is NaN |
| `BatterySelection.NaNVerdict` | scripts/evaluate_battery.py:76-84 | a metric that is NaN in every selected attempt gives a complete verdict whatever its floors |
| `BatterySelection.MedianIsMiddle` | scripts/evaluate_battery.py:82-85 | without NaN, at least half of the values lie on each side of the median |
| `BatterySelection.MedianExact` | scripts/evaluate_battery.py:82-85 | from any ascending listing of the values: the middle one, or half the sum of the middle two; infinities spelled out |
| `BatterySelection.Collect` | scripts/evaluate_battery.py:51-65 | the pass over the attempts collects hashes and valid attempts or finds the misfit |
| `BatterySelection.MeasureAll` | scripts/evaluate_battery.py:71-85 | the nested loops compute the medians or find the failed threshold |
| `BatterySelection.EvaluateAttempts` | scripts/evaluate_battery.py:30-91 | the evaluation equals its specification |
| `BatteryVerdict.FitsExact` | scripts/evaluate_battery.py:34-65 | a series passes the structural checks exactly when its attempts are numbered from one in the order they were created, against these baselines, each accounted for, of one subject and profile |
| `BatteryVerdict.MediansExact` | scripts/evaluate_battery.py:71-85 | the thresholds are met exactly when every selected attempt has every metric not below its floor and no median is below its own |
| `BatteryVerdict.VerdictExact` | scripts/evaluate_battery.py:30-91 | exactly when the verdict is incomplete, complete or an error, in terms of the attempts alone, with the count of valid ones and the hashes by number |

## Left out

- GPU execution, CUDA graph capture and bf16 rounding inside `tl.dot` and `torch.bmm`: arithmetic is exact.
- Logging, progress printing and counters of compile events in `compiler.py`; only LRU hits and misses are kept.
- Structural cache keys of arbitrary Python objects and legacy spec fields: they enter as opaque key texts.
- `str()` coercion of field names that are not strings, and the digit limit on printing huge integers.
- Filesystems without `flock`: `AtMostOneCompile` is about locks that exclude.
- `parse_classification_maps`, `load_ledger` and the git plumbing of `register_provenance.py`: straight-line parsing and subprocess calls.
- Receipt loading, JSON Schema validation and attestation checking: receipts are given, already verified.
- HTTP, timing and metrics of `probe.py`; the tokenizer is a function of the prompt.
- Dataclass checks on NVFP4 scale formats in the scratch capacities: one-branch validation.
- TiledBmm.Bmm: views are address functions, of which strided ones are an instance; 32-bit pointer offsets are not modelled.
- CompileCache.KernelCompiler.ClearCache: the spec memo is an object of its own here and is cleared by `SpecMemo.SpecFactory.Clear`; progress counters are not modelled.
- BatterySelection.EvaluateAttempts: all refusals are one error; which message is raised is not modelled.
