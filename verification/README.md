# Hippocrates: verified model of the persistent-memory bug fixer

Hippocrates takes a trace of persistent-memory events (STORE, FLUSH, FENCE) with reports of durability
bugs, decides which flushes and fences are missing, and rewrites the program. This project models that
pipeline in Dafny and proves what each stage guarantees, down to the bytes that survive a crash.

| File | What it models |
|---|---|
| `Persistence.dfy` | the machine: bytes are dirty, pending or persisted; what a crash keeps; inserting flushes and fences does no harm |
| `Addresses.dfy` | address ranges in wrapping 64-bit arithmetic and the running range of the scan |
| `Traces.dfy`, `Scan.dfy` | trace events, a reference scan over unions of bytes, and the fixer's backward scan |
| `Mapping.dfy` | ranges of instructions of a source line, grouped by basic block |
| `Fixes.dfy`, `Raising.dfy`, `BugFixer.dfy`, `Conservation.dfy`, `Clashes.dfy` | the fix map, the choice of the call-stack frame, repair steps 1 and 2 as methods over the map, what step 1 conserves, and exactly when the steps fail |
| `Stacks.dfy`, `LostStacks.dfy` | what raising conserves: types and places always, call stacks exactly under a condition, and two programs for which one is lost |
| `Repair.dfy`, `Counterexamples.dfy` | executions behind a trace, the repaired executions, when the repair of a bug works, and inputs on which it does not |
| `Reports.dfy`, `Reduction.dfy` | trace reduction, and the whole way from a raw trace to a persisted range |
| `Ir.dfy`, `Flushing.dfy`, `FixGenerator.dfy`, `Rewriting.dfy` | a small representation of programs with calls, its runs, the in-place rewriting, and what rewriting does to runs |
| `Chains.dfy`, `OverlappingFixes.dfy` | when the clones of a raised fix call each other, what a raised fix is then good for, and two fixes that undo each other |
| `TopLines.dfy`, `SharedLine.dfy` | which calls of the top line a raised fix fences, and a line with two calls of which one is not |
| `Application.dfy` | repair step 3 for fixes that stay at their stores, and the whole way from a run to the run of the repaired program |
| `Images.dfy`, `StepThree.dfy`, `Lasting.dfy`, `LateFix.dfy` | repair step 3 over whole maps: what each function and clone looks like in the end, that later entries do not undo a raised one, and an entry that comes too late |
| `Intrinsics.dfy` | the library of persistent memory routines, `clwb` build |
| `FlowAnalyzer.dfy` | the context graph between two events |
| `TraceAlias.dfy` | which functions keep their bodies for the restricted alias analysis |
| `Inputs.dfy`, `MixedStores.dfy` | small inputs with what the fixer and the reducer make of them |
| `Options.dfy` | the option type |

Results about the code that a reader of the source might not expect; each is a lemma below.

* A FLUSH_ONLY verdict can be wrong. The two flags of the scan are global to it, so a fence between two
  partial stores answers for both. `Repair.RepairIff` gives the exact condition: the repair works if and
  only if a fence follows the latest collected store. `Counterexamples.FlushOnlyIsNotEnough` is an input.
* A scan that runs off the start of the trace answers FENCE_ONLY for a store that was never flushed
  (`Counterexamples.RunningOffIsNoVerdict`). Its verdict repairs the bug if and only if the scan passed a
  fence and a fence follows the latest collected store (`Repair.RunOffIff`).
* A store behind which there is a flush of the range and then a fence fails an assertion of the fixer.
  `Scan.ScanFailsIff` says for all histories when one of the assertions of the scan fails.
* Among fixes that repair, the last `assert(false)` of `addFixToMapping` is reached by exactly two kinds of
  pairs (`Fixes.UnmergedPairs`); pairs with a removal of a different kind reach it too
  (`Fixes.AllUnmergedPairs`). Neither kind occurs when no call site on a stack of the trace is itself a
  single store instruction, and `Clashes.PlanIff` says for every program and trace when steps 1 and 2 run
  through. A call stack of one immutable frame is enough to fail (`Counterexamples.OneFrameClash`).
* The map has one call stack for each place, and only the functions on that stack are cloned. Step 2 loses
  the call stack of a fix, and with it the repair of its bug, exactly if a fix moves away from the place that
  it was raised to, or if it has no fence and a later one with a fence and another call stack moves there
  (`Stacks.RaisedFixLostIff`; `Stacks.StandingFixLostIff` for fixes that step 1 has raised;
  `Stacks.HolderStands` for step 1). Two stores below one call are enough (`LostStacks.SharedCallLosesStack`),
  and so is one store below two calls (`LostStacks.TwoCallersLoseStack`).
* Step 2 can raise a fix to the very place it came from and then erase it: the repair then does nothing
  (`Counterexamples.OneFrameLosesFix`).
* The clones of a raised fix call each other if and only if neither an earlier fix nor a lower level of the
  same one has redirected one of the calls on its lines (`Chains.ChainIff`). Fixes that share a call site can undo each other: in
  `OverlappingFixes.RaisedFixUndone` both are in the program, and a run leaves the store of the second one
  unflushed. In the other order the second fix finds no call at all, and the fixer then has no
  instruction to put its fence behind (`Chains.NoAnchorIff`). What comes after a raised fix in step 3 never
  undoes it (`Lasting.RaisedFixLasts`).
* A raised fix redirects every call at its top line and fences the last one only. With two calls on the line, a
  run through the first leaves the store unpersisted (`SharedLine.FirstCallNotFenced`).
* Step 3 depends on the order of the map. A fence at a store reaches every version of its function if and
  only if no earlier entry clones that function (`StepThree.InPlaceReachesAllIff`, `LateFix.LateFixMissed`).
* Reduction keeps one bug for each call stack. A dropped bug can be one that the kept one's fix does not
  repair (`Counterexamples.DedupLosesBug`). If its stores are at locations that are fixed anyway, it is
  repaired if and only if a fence follows the latest of them (`Reduction.DroppedBugIff`).
* Reduction drops FLUSH events. For a retained bug the verdict on the reduced trace is that on the full
  trace if and only if the full trace has no flush of the range that the stores behind it leave uncovered.
* `canAdd` refuses ranges that overlap or touch if and only if the lower one reaches the top of the address
  space, where its `end() + 1` wraps to 0.
* `flush_loop` covers its buffer if and only if `p % 64 + (n - 1) % 64 < 64`; otherwise the last line is
  not flushed. `memmove_naive` flushes nothing when source and destination are the same.
* The comment at tools/Reports.py:277-280 says that only the most recent of repeated stores is kept. The
  code keeps every store and drops the flushes (`Reports.BugReport.OptThroughIntervalTree`).
* The comment at src/FlowAnalyzer.cpp:515-525 also speaks of skipping calls without persistent values. The
  code skips only calls that are already on the stack, and the model follows the code.
* The context graph of a program that can only loop without reaching the end has no leaves, which fails the
  assertion behind its construction (`FlowAnalysis.LeavesExist`).
* A call that directly follows another one in a basic block, or that starts a basic block which is jumped to
  or a function, is never entered by the context graph (`FlowAnalysis.FirstCallNotEntered`).

Assumptions are stated as preconditions: address ranges have bytes and do not reach the end of the
address space, timestamps of a trace increase, and source locations are resolved. The results that no
two fixes clash also ask that the first range of a line is not a single store instruction if the line is a
caller's on the call stack of a traced store or flush (or the only frame of such a stack, in an immutable
function); the conditions in `Clashes.dfy` and the condition for lost call stacks do not. Scans are not assumed to succeed: a failed `assert` of the
fixer is an outcome of its own.

## Model

| member | source | states |
|---|---|---|
| Persistence.PersistedIff | src/BugFixer.cpp:131-143 | the byte states mean what they should: a byte is persisted exactly when every store to it was later flushed and that flush later fenced |
| Persistence.CrashKeepsPersisted | src/BugFixer.cpp:131-143 | after every run, a crash leaves each persisted byte with the value last written to it |
| Persistence.DoNoHarm | src/FixGenerator.cpp:429-494 | inserting flushes and fences anywhere leaves memory as it is and persists no byte less |
| Persistence.DoNoHarmThroughout | src/FixGenerator.cpp:429-494 | the same at every intermediate point of the run, each of which has its counterpart |
| Persistence.OnlyAddsTransitive | src/FixGenerator.cpp:429-494 | adding flushes and fences to operations that already had some added is adding to the original operations |
| Addresses.OverlapsIff | src/BugReports.cpp:32-34 | inclusive interval test holds exactly when some byte is in both ranges |
| Addresses.ContainsIff | src/BugReports.cpp:36-38 | containment test holds exactly when every byte of one range is in the other |
| Addresses.CanAddIff | src/BugReports.cpp:44-56 | two ranges within the address space can be merged exactly when they share or touch bytes and the lower one ends below its top, wrapping arithmetic included |
| Addresses.CanAddFailsAtTop | src/BugReports.cpp:44-56 | an input at the top of the address space where an overlap is missed |
| Addresses.EndExact | src/BugReports.hpp:24-54 | for the ranges of bug reports the wrapping end computations are exact |
| Addresses.SingleCacheLineIff | src/BugReports.cpp:25-30 | the test on both ends holds exactly when the machine keeps all bytes of the range in one line |
| Addresses.Accumulator.Add | src/BugReports.cpp:58-83 | the updated range holds the bytes of both ranges and no others |
| Traces.ScanBackHits | src/BugFixer.cpp:161-234 | the scan finds, latest first, exactly the stores into the range since it stopped and the flush it stopped at |
| Traces.ScanBackFence | src/BugFixer.cpp:161-234 | the fence flag is set exactly when a fence lies behind the event at which the scan stopped |
| Traces.ScanBackStops | src/BugFixer.cpp:208-217 | the scan completes as soon as, and only when, the stores since then cover the range |
| Traces.IntoIff | src/BugFixer.cpp:181-221 | an event stores or flushes into a range exactly if some byte of the range is among those it stores or flushes |
| Traces.StopIff | src/BugFixer.cpp:161-234 | from the history alone: the scan stops at the last flush of the range if the stores behind it leave bytes uncovered, completes if stores cover the range with no flush after them, and runs off otherwise |
| Scan.AccumulatorMaximal | src/BugFixer.cpp:187-206 | the running range is a maximal run of collected bytes around the latest store |
| Scan.AccumulatorComplete | src/BugFixer.cpp:208-217 | the running range contains the bug range exactly when the union of all collected stores covers it |
| Scan.Accumulate | src/BugFixer.cpp:187-206 | the retry loop ends, loses and invents no byte, and leaves no range aside that could be merged |
| Scan.Collect | src/BugFixer.cpp:181-217 | collecting one more store keeps that and answers "complete" exactly when the union covers the bug range |
| Scan.ScanBackwards | src/BugFixer.cpp:144-288 | the loop over one running range and a list set aside returns the verdict of the reference scan over unions, failed assertions included |
| Scan.ScanFailsIff | src/BugFixer.cpp:218-238 | an assertion of the scan fails exactly when nothing in the history touches the range, or when the flush that stops it has a fence behind it or spans several lines |
| Scan.VerdictIff | src/BugFixer.cpp:144-246 | both flags of a verdict from the history alone: a fence is missing exactly if none lies behind the event where the scan stopped, a flush exactly if the stores cover the range with no flush after them or a fence was passed; a scan that stops at a flush asks for a fence and no flush |
| Mapping.BugLocationMapper.constructor | src/BugReports.cpp:226-300 | each mapped line gets, for every basic block it reaches, the one smallest range that holds all its instructions there |
| Mapping.SpansMeaning | src/BugReports.cpp:226-300 | in terms of the code alone: each instruction of a line, variable declarations excepted, is in one of its ranges, and both ends of each range are such instructions |
| Mapping.BugLocationMapper.InsertMapping | src/BugReports.cpp:189-224 | one instruction is appended to the list of its line and no other list changes; the constructor builds on it that the lists hold exactly the instructions of each line |
| Mapping.GroupByBlock | src/BugReports.cpp:243-278 | grouping and widening by dominance gives one range a block whose ends are its first and last instruction |
| Mapping.FixLoc.InstsAreHeld | src/BugReports.cpp:149-157 | the instructions of a valid range are exactly those between its ends |
| Fixes.AddedIffTypeChanged | src/BugFixer.cpp:43-129 | the answer "added" means that a location is new or its type changed, and the entry has the duties of both fixes |
| Fixes.UnmergedPairs | src/BugFixer.cpp:103-126 | among the kinds of fixes that repair, exactly which pairs reach the last `assert(false)` |
| Fixes.AllUnmergedPairs | src/BugFixer.cpp:43-126 | among all kinds: the same pairs and those with a removal in them, unless both are of one kind |
| Fixes.AdditionFailsIff | src/BugFixer.cpp:43-126 | an addition fails, and leaves the map as it is, exactly if its range spans blocks, if there is nothing to fix, or if it meets such a pair |
| Fixes.PeacefulMerges | src/BugFixer.cpp:43-129 | no addition fails if no location receives fixes of both families, and entries keep to the families added there |
| Fixes.FixMapIsJoin | src/BugFixer.cpp:43-129 | after any list of additions the type at a location is the least one with the duties of all fixes added there |
| Fixes.OrderOfFixesIrrelevant | src/BugFixer.cpp:1017-1025 | any order and repetition of the same additions gives the same locations and types |
| Fixes.SecondStackReplacesFirst | src/BugFixer.cpp:113-117 | for every two fixes at one place: the second replaces the call stack of the first exactly if it is the first raised one with a fence |
| BugFixing.BugFixer.AddFixToMapping | src/BugFixer.cpp:43-129 | the case distinction computes the join of old and new fix, reports change, and fails exactly on pairs without a rule |
| Raising.FindBestFrame | src/BugFixer.cpp:780-796 | the heuristic index is the first maximum of the scores before the first alias-free frame |
| Raising.HeuristicFrameIff | src/BugFixer.cpp:775-800 | from the alias counts alone: the frame that the heuristic picks is the lowest mapped one, before the first mapped frame without aliases, at which persistent objects outnumber volatile ones the most |
| Raising.NoHeuristicFrameIff | src/BugFixer.cpp:775-800 | and it picks none exactly if no mapped frame comes before the first mapped one without aliases |
| Raising.ChooseFailsIff | src/BugFixer.cpp:780-853 | no frame takes a fix exactly when no frame has a score, or a frame on the way up fails an assertion, or no frame from there on is mapped |
| Raising.RaisingFailsIff | src/BugFixer.cpp:780-853 | the same from the mapping, the immutable functions and the alias counts alone |
| Raising.UsableFrameTakes | src/BugFixer.cpp:780-853 | a score and a usable frame above the best one, with no failing frame in between, suffice for a fix to be taken |
| Raising.LandIsLeast | src/BugFixer.cpp:811-844 | the walk up the stack stops at the least frame that is mapped and mutable, passing only skipped ones |
| Raising.FrameChoice | src/BugFixer.cpp:780-853 | a fix that is taken goes to the least usable frame at or above the best scored one, at the first range of its line, or without one to the last mapped frame |
| Raising.RaisedToCaller | src/BugFixer.cpp:808-853 | a raised fix goes to a caller's frame, unless the stack has one frame only |
| Raising.RaisedEntryTop | src/BugFixer.cpp:808-853 | a raised entry keeps the call stack of its fix and stands at the line of the frame that step 3 goes up to |
| Raising.RangeAddsMeaning | src/BugFixer.cpp:248-307 | the additions for a location are one for each store instruction in one of its ranges |
| Raising.OperationFailsIff | src/BugFixer.cpp:248-288 | for an operation on a mapped line no fix can be made exactly if the line has no range, or has a store while the operation spans more than one cache line |
| BugFixing.BugFixer.RaiseFixLocation | src/BugFixer.cpp:594-870 | raising changes the map by the one entry at the chosen frame, by nothing, or fails; which frame that is, is said by `Raising.HeuristicFrameIff` and `Raising.FrameChoice`, and when it fails by `Raising.RaisingFailsIff` |
| BugFixing.BugFixer.HandleAssertPersisted | src/BugFixer.cpp:144-317 | handling a bug adds the fixes of the operations that the reference scan finds; what they come to is said by `Conservation.BugsAreCharged` for mapped lines and by `Conservation.UnmappedBugsAreCharged` for others |
| BugFixing.BugFixer.ComputeAndAddFix | src/BugFixer.cpp:469-509 | one bug changes the map by its additions and nothing else, and answers whether the map changed |
| BugFixing.BugFixer.ComputeAllFixes | src/BugFixer.cpp:1012-1025 | step 1 leaves the map with the additions of all bugs in order |
| BugFixing.BugFixer.NextKey | src/BugFixer.cpp:877-878 | iteration visits the least key beyond the current one |
| BugFixing.BugFixer.RunFixMapOptimization | src/BugFixer.cpp:872-898 | for every map: the walk that inserts into the map it walks over ends, does what one pass over the primitive entries in order does, failures included, and leaves that pass's map without the entries that moved |
| BugFixing.BugFixer.PlanRepair | src/BugFixer.cpp:1012-1039 | steps 1 and 2 together, raising switched off or not, leave the planned fix map or fail where there is none |
| Conservation.StepOneNeverClashes | src/BugFixer.cpp:103-126 | in step 1, for every trace, each key only ever holds one family of types and the last `assert(false)` is unreachable |
| Conservation.StepTwoNeverClashes | src/BugFixer.cpp:847-898 | nor does step 2 reach it; it fails only where `Raising.ChooseFailsIff` says that no frame can take a fix |
| Clashes.AdditionsFailIff | src/BugFixer.cpp:43-129 | a list of additions fails exactly when two fixes of different families meet at one place in the wrong order |
| Clashes.StepOneFailsIff | src/BugFixer.cpp:1012-1025 | step 1 fails in merging, for every program and trace, exactly when two of the fixes clash so |
| Clashes.StepTwoFailsIff | src/BugFixer.cpp:847-898 | step 2 fails, for every map of step 1, exactly when some primitive fix that is still in place finds no frame or is sent onto another one without a fence |
| Clashes.PlanIff | src/BugFixer.cpp:1012-1039 | steps 1 and 2 run through exactly when the fixes of all bugs can be made, none clash, and none gets stuck or raising is off |
| Conservation.BugOrderIrrelevant | src/BugFixer.cpp:1017-1025 | any order of the same bugs gives the same locations and types |
| Conservation.BugsAreCharged | src/BugFixer.cpp:248-307 | every store instruction at an operation found for a bug ends up with a fix that has the duties of the verdict |
| Conservation.UnmappedBugsAreCharged | src/BugFixer.cpp:290-313 | if step 1 runs through, an operation found for a bug whose own line is not mapped has at the first range of one of its callers' lines an entry that clones, with the duties of the verdict: a fence whenever more than a flush is asked for |
| Stacks.HolderStands | src/BugFixer.cpp:43-129 | after any list of additions, the call stack at a place is that of the raised fix with a fence that took the place over, or of the first fix there if none did |
| Stacks.MovedIff | src/BugFixer.cpp:872-898 | which entries step 2 moves and erases, from the map it starts with: those raised to a place where their fence is news or, without a fence, where nothing has been put |
| Stacks.StackStandsIff | src/BugFixer.cpp:847-898 | which call stack stands where after step 2, from the map it starts with, erasure included |
| Stacks.RaisedFixLostIff | src/BugFixer.cpp:872-898 | the call stack of a fix that moves is lost exactly if a fix moves away from its new place, or if it has no fence and a later one with a fence and another call stack moves there |
| Stacks.StandingFixLostIff | src/BugFixer.cpp:872-898 | the same for a fix that step 1 has raised |
| Stacks.RaisingConserves | src/BugFixer.cpp:872-898 | after step 2 a primitive fix stands exactly if it does not move; else a raised fix with its duties stands at its new place, with its own call stack exactly if it has a fence or is not overtaken; raised fixes of step 1 likewise |
| Stacks.BugServedIff | src/BugFixer.cpp:1012-1039 | from bugs to map: a store found for a bug is served for the call stack it was found with exactly if its fix stays or that call stack is still in the map with the fence asked for |
| Stacks.PlannedStackIff | src/BugFixer.cpp:1012-1039 | for every program and trace, which call stack the map of step 3 has at a place |
| LostStacks.SharedCallLosesStack | src/BugFixer.cpp:113-117 | a trace with two stores below one call for which the plan has no entry with the call stack of the first |
| LostStacks.TwoCallersLoseStack | src/BugFixer.cpp:872-898 | a trace with one store below two calls for which the plan has no entry for the second |
| Repair.RepairedOnlyAdds | src/BugFixer.cpp:511-538 | the repaired execution only adds flushes and fences, reads the same memory and persists no byte less |
| Repair.RepairIff | src/BugFixer.cpp:161-288 | with flushes behind all collected stores, scans that run off included, the range is persisted exactly when a fence follows the latest of them |
| Repair.RunOffIff | src/BugFixer.cpp:161-288 | the verdict of a scan that ran off repairs the bug exactly when the scan passed a fence and a fence follows the latest collected store |
| Repair.RepairSound | src/BugFixer.cpp:161-288 | for all bugs together: a verdict asks for flushes unless the scan ran off without a fence, and if it does the range is persisted exactly when a fence follows, which is so under every verdict that also asks for a fence |
| Repair.SingleStoreSound | src/BugFixer.cpp:161-288 | a bug whose range one store covers is repaired whatever the verdict |
| Repair.StoreFixesArePrimitive | src/BugFixer.cpp:265-307 | the fix of a single store is never a raised one |
| Counterexamples.FlushOnlyIsNotEnough | src/BugFixer.cpp:161-288 | a history for which steps 1 and 2 plan a flush only, which leaves a byte unpersisted in every execution |
| Counterexamples.RunningOffIsNoVerdict | src/BugFixer.cpp:161-288 | a partial store for which steps 1 and 2 plan a fence only, which leaves it unflushed |
| Counterexamples.StoreBehindFlushAndFenceFails | src/BugFixer.cpp:218-234 | an ordinary history on which the scan fails an assertion; `Scan.ScanFailsIff` has all of them |
| Counterexamples.OneFrameClash | src/BugFixer.cpp:103-126 | a trace with one store, in an immutable function that is its whole stack, on which step 2 reaches the last `assert(false)` |
| Counterexamples.OneFrameLosesFix | src/BugFixer.cpp:872-898 | the same without a fence in the trace: the raised fix is erased in place of the primitive one and nothing is repaired |
| Counterexamples.DedupLosesBug | tools/Reports.py:186-215 | two bugs with one stack, of which the dropped one stays unrepaired by what steps 1 and 2 plan for the reduced trace |
| Reports.BugReport.OptRemoveRedtBugs | tools/Reports.py:186-215 | the set of stacks and the two loops keep, in order, all other events and the first bug of each stack, and every stack keeps one |
| Reports.BugOrOperation | tools/Reports.py:139-155 | assertions and required flushes are bugs, stores, flushes and fences are not, and there is nothing else |
| Reports.FirstOfStacksIff | tools/Reports.py:195-206 | the unique bugs are exactly those with no earlier bug of the same call stack |
| Reports.DedupedIff | tools/Reports.py:186-215 | an event stays exactly if it is no bug, or equals a bug with no earlier bug of the same call stack |
| Reports.EveryStackKept | tools/Reports.py:186-333 | for every bug of the trace, the first bug with its call stack is in the reduced trace |
| Reports.FirstOfBugs | tools/Reports.py:195-206 | looking for first bugs among the bugs or in the whole trace is the same |
| Reports.BugReport.CollectBugAddresses | tools/Reports.py:242-254 | the interval tree holds the half-open intervals of all remaining bugs |
| Reports.BugReport.OptRemoveIrrelevant | tools/Reports.py:259-274 | the reversed walk keeps, in order, all but the accesses that overlap no bug interval |
| Reports.OverlapAgrees | tools/Reports.py:265-268 | half-open overlap of the reducer is inclusive overlap of the fixer |
| Reports.BugReport.OptThroughIntervalTree | tools/Reports.py:282-313 | with increasing timestamps, the step through the interval tree returns the trace without its flushes, every store once and in order |
| Reports.ConservedSorts | tools/Reports.py:305-310 | events collected in whatever order and then sorted by time are the trace without flushes |
| Reports.SameSortedListing | tools/Reports.py:308-310 | a set of events has only one listing by strictly increasing time |
| Reports.BugReport.OptRemoveRepeatedFences | tools/Reports.py:315-332 | the last step drops exactly the fences behind a fence, bugs aside |
| Reports.BugReport.Optimize | tools/Reports.py:217-333 | the four steps together compute the reduced trace: fences aside, it has exactly the first bug of each stack and the stores that overlap one of these, and no fence follows another |
| Reports.OptimizedIff | tools/Reports.py:217-333 | fences aside, an event is in the reduced trace exactly if it is no flush and, for a bug, the first with its call stack, for a store, in the range of such a bug |
| Reports.NoFenceRepeated | tools/Reports.py:315-332 | in the reduced trace no fence follows another with nothing but bugs between them |
| Reduction.KeepSilent | tools/Reports.py:259-274 | events that the scan passes over can be dropped without any change of its finding |
| Reduction.DropFencesSame | tools/Reports.py:315-332 | dropping repeated fences changes no finding |
| Reduction.DropFlushesSame | tools/Reports.py:282-313 | dropping the flushes keeps a finding exactly when the scan does not stop at a flush |
| Reduction.ReducedAt | tools/Reports.py:217-333 | a retained bug stands in the reduced trace right behind its reduced history |
| Reduction.RetainedBugIff | tools/Reports.py:186-215 | the bugs that the following rows are about: those that equal a bug with no earlier bug of the same call stack |
| Reduction.VerdictPreserved | tools/Reports.py:217-333 | for a retained bug the reduced trace gives the same stores in the same order and the same flags if and only if the full trace has no flush of the range that the stores behind it leave uncovered |
| Reduction.VerdictPreservedWithFlushes | tools/Reports.py:186-274 | the steps that only drop bugs, irrelevant accesses and repeated fences never change a finding |
| Reduction.PipelineSound | src/BugFixer.cpp:987-1078 | from raw trace to repaired program: every execution that the full trace recorded has the bug range persisted at the bug, if stores cover it and the verdict has a fence, or if a fence follows the last store anyway |
| Reduction.DroppedBugIff | tools/Reports.py:186-215 | a bug that deduplication dropped, with its stores at locations fixed for treated bugs, is repaired exactly when a fence follows the latest of them |
| Ir.StepErases | src/FixGenerator.cpp:429-494 | a step of a rewritten program is an added instruction or the step of the original |
| Ir.RunErases | src/FixGenerator.cpp:171-336 | every run of a rewritten program is a run of the original with flushes and fences added |
| Ir.RunRefined | src/FixGenerator.cpp:171-336 | and every run of the original has one of the rewritten program |
| Ir.SameBehaviour | src/FixGenerator.cpp:171-182 | two programs with the same erasure do the same operations in the same functions in the same order |
| Ir.ProgramDoesNoHarm | src/FixGenerator.cpp:429-494 | a rewritten program gets where the original gets, with the same memory and no byte less persisted |
| Flushing.RunFlushes | src/FixGenerator.cpp:184-336 | in every run, each store of a clone to persistent memory is flushed right behind it |
| Flushing.FencePersists | src/FixGenerator.cpp:484-494 | after a fence every byte last stored by a clone is persisted |
| Flushing.ReturnsToFence | src/FixGenerator.cpp:598-665 | when a call that stands before a fence returns, whatever happened below, the fence is next |
| Flushing.SubprogramPersists | src/FixGenerator.cpp:598-665 | the fence behind a redirected call persists what clones stored last below it; that clones do store it is `Chains.RaisedStorePersists` |
| FixGeneration.FixGenerator.constructor | src/FixGenerator.cpp:171-182 | a program before any fix is its own implementation |
| FixGeneration.FixGenerator.InsertAtStore | src/FixGenerator.cpp:429-494 | a flush, then a fence, is put behind every copy of a store, and the program still implements the original |
| FixGeneration.FixStoreFixes | src/BugFixer.cpp:513-538 | behind each such store stand the flush of its own pointer and then the fence, as asked for |
| FixGeneration.FixGenerator.DuplicatePersistent | src/FixGenerator.cpp:171-336 | the new clone has the body of its function, with a flush right behind each store whose pointer is known, may point to persistent memory and is no stack variable, and none behind other stores; nothing else changes |
| FixGeneration.FixGenerator.FindCalls | src/FixGenerator.cpp:523-531 | the calls at given instructions, in order |
| FixGeneration.CallsAtMeaning | src/FixGenerator.cpp:624-650 | they are all the calls of the function at these instructions and no others |
| FixGeneration.FixGenerator.RedirectCalls | src/FixGenerator.cpp:624-650 | no call of the old function is left at the line, the last redirected one goes to the new function, and the program still implements the original |
| FixGeneration.FixGenerator.InsertFence | src/FixGenerator.cpp:484-494 | every copy of the call is followed by a fence, and the program still implements the original |
| FixGeneration.FixGenerator.CloneAndRedirect | src/FixGenerator.cpp:598-650 | one level: a fresh flushing clone, and only the calls in the next frame's line redirected to it |
| FixGeneration.FixGenerator.RedirectExternal | src/FixGenerator.cpp:512-596 | the one call of an external function at the line goes to its persistent version, exactly if there is one call and it can be looked up; otherwise nothing changes |
| FixGeneration.FixGenerator.InsertPersistentSubProgram | src/FixGenerator.cpp:496-665 | level by level: every mapped frame below the top gets one flushing clone, the calls of its function that are left at the next line go to that clone, the last call redirected is returned and, if asked for, fenced; it fails exactly when a frame above the lowest is not mapped, when the lowest is not and the call in the next line cannot be looked up, or when a fence is due and no level redirects a call |
| FixGeneration.ImplementsAfter | src/FixGenerator.cpp:171-336 | a change that erases to nothing keeps the program an implementation of the original |
| FixGeneration.FlushAllFlushes | src/FixGenerator.cpp:184-336 | making all stores of a body persistent puts a flush behind each store to persistent memory |
| FixGeneration.CodeCloned | src/FixGenerator.cpp:234-336 | from the pointer facts alone: behind the copy of a store in a clone stands an added flush that the original does not have exactly if the pointer is known, may point to persistent memory and is no stack variable; what was added before stays behind it |
| Rewriting.RewrittenDoesNoHarm | src/FixGenerator.cpp:496-665 | for whole runs from a start function: same place, same operations, same memory, no byte less persisted |
| Rewriting.RewrittenDoesNoMore | src/FixGenerator.cpp:496-665 | and a rewritten program does nothing that the original does not do, flushes and fences aside |
| Rewriting.RepairedCallPersists | src/FixGenerator.cpp:598-665 | in any run, when the fenced call returns, the next step leaves every byte persisted that a clone stored last |
| Chains.ChainIff | src/FixGenerator.cpp:598-650 | the calls at the line of a frame, in its clone and in the top function, go to the clone of the next lower frame if and only if no call there had been redirected by an earlier fix or another level |
| Chains.SubprogramLinkedIff | src/FixGenerator.cpp:496-665 | the same for the program that the rewriting leaves, fence included |
| Chains.LevelCallIff | src/FixGenerator.cpp:624-638 | a level redirects some call exactly when one at its line goes to the original function |
| Chains.NoAnchorIff | src/FixGenerator.cpp:652-664 | the rewriting finds no instruction to put its fence behind exactly when no call on its lines goes to the original function below |
| Chains.DescentEndsInClone | src/FixGenerator.cpp:598-650 | in any run that goes down the lines of a linked chain, the function reached is the lowest clone |
| Chains.LinkedStoreFlushed | src/FixGenerator.cpp:598-650 | in any run of a program whose clones call each other, a store of the lowest function that is reached down the lines is flushed and, unless overwritten, persisted at the next fence |
| Chains.RaisedStoreFlushed | src/FixGenerator.cpp:496-650 | so it is after a raised fix without a fence, or at any call of its top line, if its lines were free |
| Chains.RaisedStorePersists | src/FixGenerator.cpp:496-665 | a raised fix with a fence: in any run through the fenced call, if the lines were free, such a store is persisted one step after the call returns, unless overwritten |
| TopLines.FenceBehindOneCall | src/FixGenerator.cpp:624-664 | a raised fix fences the one call it is anchored at and no other |
| TopLines.TopLineFencedIff | src/FixGenerator.cpp:624-664 | every call at the top line is fenced exactly if each one but the last redirected was fenced before |
| TopLines.RaisedLinePersists | src/FixGenerator.cpp:496-665 | if there is one such call, a run through the top line needs no assumption on which call it takes |
| SharedLine.FirstCallNotFenced | src/FixGenerator.cpp:624-664 | a line with two calls, fixed as the fixer does it, and a run through the first that leaves the store unpersisted |
| OverlappingFixes.ChainBroken | src/FixGenerator.cpp:624-638 | after a fix at a shared call site, the clones of the next one do not call each other |
| OverlappingFixes.RaisedFixUndone | src/FixGenerator.cpp:496-665 | two raised fixes, both in place, and a run that leaves the store of the second one unpersisted behind its fence |
| OverlappingFixes.OtherOrderFindsNothing | src/FixGenerator.cpp:652-664 | in the other order, after the other fix has been applied to the program, the second fix has no call to put its fence behind |
| Rewriting.FixedStorePersists | src/BugFixer.cpp:529-538 | in any run of the rewritten program, two steps behind a store fixed with flush and fence its bytes are persisted |
| Application.FixBug | src/BugFixer.cpp:511-538 | one fix that stays in place puts its flush and fence behind its store and changes nothing else |
| Application.FixStores | src/BugFixer.cpp:1041-1053 | step 3 over such fixes leaves every store with its fix behind it, whatever the order, and nothing else changed |
| StepThree.ApplyFix | src/BugFixer.cpp:511-592 | one entry, in place or raised with its call stack and frame; it fails exactly if its frames cannot be gone up or a fence is due and no level redirects a call |
| StepThree.FixAll | src/BugFixer.cpp:1041-1053 | step 3 over a whole map in its order: each entry does its change to the program before it, in terms of the entry: in place, the flush and the fence that its type has; raised, a persistent subprogram over the frames of its call stack, with a fence exactly if its type has one; every program on the way implements the original |
| StepThree.EntriesDone | src/BugFixer.cpp:511-592 | so for every entry of the map, without the intermediate list of fixes |
| StepThree.SourceFencedIff | src/BugFixer.cpp:1041-1053 | in the end a store of a source function has a fence exactly if some entry asks for one there |
| StepThree.CloneFencedIff | src/BugFixer.cpp:1041-1053 | in a clone, exactly if such an entry comes before the raised one that makes the clone |
| StepThree.InPlaceReachesAllIff | src/BugFixer.cpp:1041-1053 | an entry with a fence reaches every clone of its function exactly if no earlier entry clones it |
| StepThree.InPlacePersists | src/BugFixer.cpp:1041-1053 | in any run of the final program, a store with flush and fence in place, done by its function or a clone made later, is persisted three or four steps on |
| Lasting.RaisedFixLasts | src/BugFixer.cpp:1041-1053 | if the lines of a raised entry are free when its turn comes, its clones call each other and its fence stands in the final program |
| Lasting.RaisedFlushLasts | src/BugFixer.cpp:1041-1053 | so in any run of the final program the stores reached down these lines are persisted at the next fence, unless overwritten |
| Lasting.RaisedFenceLasts | src/BugFixer.cpp:1041-1053 | and when the fenced call returns, one step later |
| Lasting.RaisedEntryLasts | src/BugFixer.cpp:539-551 | for a raised entry of the map, if the lines of its frames are free when its turn comes: its clones call each other in the final program, the call it is anchored at is fenced there if its type has a fence, and if not it fences nothing |
| Lasting.EntryFenceLasts | src/BugFixer.cpp:539-551 | every raised entry whose type has a fence has put it behind the call it is anchored at, whether its lowest frame is mapped or not, and there it is in the final program |
| Lasting.LibraryEntryDone | src/FixGenerator.cpp:512-596 | a raised entry for a store in a library: the one call in the caller's line goes to the persistent version, and is fenced if the type has a fence |
| Lasting.InPlaceEntryLasts | src/BugFixer.cpp:511-538 | an entry in place that is the only one for its store: in the final program exactly the flush and the fence of its type stand behind each copy of the store in its function |
| LateFix.StepThreeOfMap | src/BugFixer.cpp:1041-1053 | step 3 on a map whose raised entry comes before a fence in place in the function it clones |
| LateFix.LateFixMissed | src/BugFixer.cpp:1041-1053 | and a run of the final program that never comes to that fence |
| Inputs.RaisedToBestFrame | src/BugFixer.cpp:775-800 | a stack of two usable frames with the heuristic on: the fix leaves the lower one, which touches more volatile objects |
| Inputs.LibraryStorePlan | src/BugFixer.cpp:290-313 | a bug in a library whose line is not mapped: the plan is a raised fix with a fence at the caller |
| Inputs.BothStacksStay | tools/Reports.py:186-215 | a trace with two call stacks and bugs of all kinds: the first bug of each stack stays, with the stores of both |
| MixedStores.OneStoreFlushed | src/FixGenerator.cpp:234-336 | a function with stores to persistent, stack, volatile and unknown memory: its clone has a flush for the first only |
| Application.RunIsRepaired | src/BugFixer.cpp:511-538 | wherever the program gets, the fixed program gets too, and has then done exactly the repaired execution: the operations of the program with the fix of each store inserted behind it |
| Application.RepairedRunPersists | src/BugFixer.cpp:987-1078 | from a run, through its trace, reduction and fix map, to the run of the fixed program: at the bug its range is persisted |
| Intrinsics.Pm.FlushLoop | src/intrinsic/persistent_intrinsics.c:27-37 | the loop issues a flush at every 64th byte and touches nothing else |
| Intrinsics.LinesFlushed | src/intrinsic/persistent_intrinsics.c:27-37 | the lines flushed are exactly `ceil(n / 64)` lines from that of `p` on |
| Intrinsics.CoverageIff | src/intrinsic/persistent_intrinsics.c:27-37 | they cover the buffer if and only if `p % 64 + (n - 1) % 64 < 64` |
| Intrinsics.Pm.Memset | src/intrinsic/persistent_intrinsics.c:39-56 | the buffer is set and flushed, the rest of memory is untouched |
| Intrinsics.Pm.Memcpy | src/intrinsic/persistent_intrinsics.c:58-74 | the buffer is copied and flushed |
| Intrinsics.Pm.Memmove | src/intrinsic/persistent_intrinsics.c:76-129 | the buffer is moved and flushed, overlap or not |
| Intrinsics.Pm.Strncpy | src/intrinsic/persistent_intrinsics.c:135-162 | the string is copied up to its NUL, padded with NULs, and flushed |
| Intrinsics.Pm.MemsetNaive | src/intrinsic/persistent_intrinsics.c:171-184 | same contents as the bulk routine, stored, flushed and fenced byte by byte upwards |
| Intrinsics.Pm.MemcpyNaive | src/intrinsic/persistent_intrinsics.c:186-199 | for every overlap, memory ends up as copying upwards leaves it |
| Intrinsics.CopiedUpMeaning | src/intrinsic/persistent_intrinsics.c:186-199 | that is the source unless the destination starts within it; there the first bytes repeat periodically |
| Intrinsics.Pm.MemmoveNaive | src/intrinsic/persistent_intrinsics.c:201-252 | the source is moved correctly for every overlap and every length, truncation of `n` to `int` included |
| Intrinsics.MoveOutcome | src/intrinsic/persistent_intrinsics.c:201-252 | same memory as the bulk move, and the destination persisted if and only if it is not the source or was persisted before |
| Intrinsics.Pm.StrncpyNaive | src/intrinsic/persistent_intrinsics.c:258-287 | same contents as the bulk routine: stop at NUL, zero padding, byte by byte |
| Intrinsics.StringLengthMeaning | src/intrinsic/persistent_intrinsics.c:261-274 | the copied part is the longest one without a NUL within `n` bytes |
| Intrinsics.NaiveImageIsStore | src/intrinsic/persistent_intrinsics.c:171-287 | byte by byte, upwards or downwards, memory ends up as after one large store |
| Intrinsics.OneByteExposed | src/intrinsic/persistent_intrinsics.c:171-287 | at every intermediate point the only written byte that is not persisted is the current one |
| Intrinsics.BulkRefinesNaive | src/intrinsic/persistent_intrinsics.c:39-199 | bulk routine plus the caller's fence: same memory as the naive one; naive always persists its buffer, bulk if and only if the loop covers it |
| FlowAnalysis.Program.LastOfMeaning | src/FlowAnalyzer.cpp:242-274 | a stretch ends at the next call behind its first instruction or at the end of the block, so the `assert(false)` for other ends is unreachable |
| FlowAnalysis.ContextGraph.CreateBlock | src/FlowAnalyzer.cpp:242-274 | scrolling down finds that end |
| FlowAnalysis.ContextGraph.DoCall | src/FlowAnalyzer.cpp:179-190 | a call makes a fresh context whose parent is the caller's |
| FlowAnalysis.ContextGraph.Successors | src/FlowAnalyzer.cpp:488-561 | the successors are where control goes; a descent costs less than the node is worth |
| FlowAnalysis.ContextGraph.ConstructSuccessors | src/FlowAnalyzer.cpp:481-577 | the nodes returned, cached or new, stand for exactly the successors, and what is left to construct shrinks |
| FlowAnalysis.ContextGraph.Construct | src/FlowAnalyzer.cpp:578-655 | ends for every program; then every node is constructed, its children are where control goes, and the leaves are the end block and the childless nodes |
| FlowAnalysis.DescendedPotential | src/FlowAnalyzer.cpp:525-539 | entering a call that is not on the stack costs less than the entering node frees |
| FlowAnalysis.GraphIsReachable | src/FlowAnalyzer.cpp:578-655 | the nodes are exactly the stretches and call contexts that can be reached from the root without passing the end |
| FlowAnalysis.FirstCallNotEntered | src/FlowAnalyzer.cpp:252-266 | a stretch that starts with a call never enters that call, so a call right behind another one is skipped |
| FlowAnalysis.LeavesExist | src/FlowAnalyzer.cpp:680-688 | the assertion that there are leaves holds if and only if the end or a point without successors can be reached |
| FlowAnalysis.NoRecursion | src/FlowAnalyzer.hpp:141-146 | along every path no call site is on the stack twice |
| TraceAlias.Explore | src/BugFixer.cpp:1129-1151 | the first worklist ends with exactly what chains of calls lead to from the whitelist |
| TraceAlias.OnlyDefinitionsLead | src/BugFixer.cpp:1129-1151 | chains of calls lead from a definition to each callee, and from a declaration or an intrinsic nowhere else |
| TraceAlias.AddUsers | src/BugFixer.cpp:1156-1189 | the rounds end with exactly what chains of uses lead to from the kept functions |
| TraceAlias.StripUnused | src/BugFixer.cpp:1191-1206 | exactly the functions that no such chain leads to lose their bodies |
| TraceAlias.KeptIff | src/BugFixer.cpp:1106-1206 | the functions that keep their bodies, from the module alone: those of the trace, those that calls lead to from the whitelist, and those with an instruction that has a kept function among its operands |
| TraceAlias.CallersKeepBodies | src/BugFixer.cpp:1156-1206 | a function that uses a kept one is kept, so no caller of a traced function is stripped |

## Left out

- Repair.RepairSound: speaks of fixes that stay at their stores. Fixes that were raised are covered by `Stacks.BugServedIff` as entries of the map, and by `Lasting.dfy` on runs of the final program and not on recorded traces.
- Repair.SingleStoreSound: as above, for fixes that stay at their stores.
- Reduction.PipelineSound: as above; for a bug dropped by deduplication see `Reduction.DroppedBugIff`.
- Application.FixStores: fixes that stay at their stores only; `StepThree.FixAll` is for whole maps.
- Application.RepairedRunPersists: for maps without raised fixes; operations of external functions stand for no instruction of the program and have no fix in place.
- Fixes.FixMapIsJoin: states types and locations, not call stacks, since two fixes at one location keep only one stack.
- Intrinsics.Pm.Memset: the library routine counts as one store of the whole buffer; in which order it writes the bytes is left open, so nothing is said about crashes within it. The same holds for the other bulk routines.
- Intrinsics.Pm.FlushLoop: memory is taken as smaller than 2^63 bytes, so that `i += 64` does not wrap.
- Flushing.SubprogramPersists: covers bytes whose last store a clone did itself, within one cache line; functions that a clone calls and that are not on the call stack are not cloned by the source either.
- Chains.RaisedStorePersists: covers call stacks whose frames are all mapped; an external function at the bottom is redirected to its persistent version (`RedirectExternal`), whose body is not part of this model.
- The CLFLUSH and CLFLUSHOPT builds, the `MANUAL` branches (compiled out), `store_nt` and `valgrind_flush`.
- Non-temporal stores under `-use-nt`, and atomic compare-and-exchange as an instruction of its own; it is a store here.
- The alias analysis: which pointers may point to persistent memory is an input, and so are the alias counts behind the frame scores; the cache of heuristic results is not modelled.
- The order of instruction ranges is by block and position, where the source compares pointers.
- LLVM itself: IR builders, casts, metadata, the debug-location search in `modifyCall`, name demangling, function pointers.
- `resolveLocations` and partial file-name matching: locations are taken as resolved, with equality as identity.
- Reading and writing YAML, parsing logs, the summary file, option handling and all output.
- `handleAssertOrdered` (reports an error) and `handleRequiredFlush`, `removeFlush`, `removeFlushConditionally`, `createConditionalBlock`: performance fixes, which `fixBug` refuses; their types still occur in the fix map.
- `alwaysRedundant`, `redundantPaths` and `interpret`: not used by the repair.
- `PMTestFixGenerator`: its subprogram fix is not implemented in the source.
- `patchMemoryPrimitives`, the function cleaner and the flush remover: name matching, easy members.
- The flush at which a scan stops is part of the verdict, but the rewriting handles store instructions at its location only, as the source does.
- Propagation of persistent-memory facts between call contexts, and the matching of trace stacks to call sites that sets up the root and end blocks.
