/**
 A fix that stays at its store and comes too late (src/BugFixer.cpp:1041-1053): the map has a raised fix without a
 fence at a call, and behind it, in the order of the map, a flush and a fence at a store of the function called. The
 raised fix clones the function first, and the fence never reaches the clone, which is what runs.
 */
module LateFix {
  import P = Persistence
  import opened Options
  import T = Traces
  import opened Mapping
  import opened Fixes
  import B = BugFixing
  import opened Ir
  import opened FixGeneration
  import opened Rewriting
  import opened Chains
  import opened OverlappingFixes
  import opened StepThree

  const CALLING: Program := map[F0 := Fn([Store(1, 0)]), F1 := Fn([Call(10, F0)])]

  const LINE := FrameLoc(F1, [10], true)
  const C := Clone(F0, 0)

  const AFTER_RAISED := AfterLevel(CALLING, F0, LINE, C)
  const AFTER_BOTH: Program :=
    AFTER_RAISED[F0 := ExpandFunction(AFTER_RAISED[F0], FixStore(1, true, true))]

  const FIXES := [Raised([Some(LINE0), Some(LINE)], 1, false), InPlace(F0, 1, AddFlushAndFence)]
  const MADE := [Made(Inserted(F1, 10), [CALLING, AFTER_RAISED], [Some(C)]), Made(NotInserted, [], [])]

  // ----- The map --------------------------------------------------------------------------------------------

  /** The call is in an earlier block of the program than the store. */
  const AT_CALL := FixLoc(Inst(0, 0), Inst(0, 0))
  const AT_STORE := FixLoc(Inst(1, 0), Inst(1, 0))

  const LOC0 := T.Location("f0", "f.c", 1)
  const LOC1 := T.Location("f1", "f.c", 2)

  const MAPPER := Mapper((i: Inst) => if i.block == 0 then (F1, 10) else (F0, 1),
                         (l: T.Location) => if l == LOC0 then Some(LINE0) else if l == LOC1 then Some(LINE) else None)

  const FIX_MAP: FixMap := map[AT_CALL := Desc(AddPersistCallstackOptNoFence, [LOC0, LOC1], 1),
                               AT_STORE := Desc(AddFlushAndFence, [LOC0], 0)]

  lemma FixesOfMap()
    ensures B.InOrder([AT_CALL, AT_STORE]) && FIX_MAP.Keys == {AT_CALL, AT_STORE}
    ensures FixesOf(MAPPER, FIX_MAP, [AT_CALL, AT_STORE]) == FIXES
  {
    assert FramesOf(MAPPER, [LOC0, LOC1]) == [Some(LINE0), Some(LINE)];
  }

  // ----- Step 3 ---------------------------------------------------------------------------------------------

  lemma StepThreeOfMap()
    ensures Applied([CALLING, AFTER_RAISED, AFTER_BOTH], PM, FIXES, MADE)
  {
    hide FixStore, ExpandFunction, Subprogram, AfterLevel;
    RaisedMade();
    CodeAfterRaised();
    assert OneFix(CALLING, AFTER_RAISED, PM, FIXES[0], MADE[0]);
    assert OneFix(AFTER_RAISED, AFTER_BOTH, PM, FIXES[1], MADE[1]);
  }

  lemma RaisedMade()
    ensures Subprogram(CALLING, AFTER_RAISED, PM, [Some(LINE0), Some(LINE)], 1, false, Inserted(F1, 10),
                       [CALLING, AFTER_RAISED], [Some(C)])
  {
    hide OneLevel, AfterLevel, HasCall, LevelCall;
    AfterLevelIsLevel(CALLING, F0, LINE, C);
    CodeAfterRaised();
    var progs, stack := [CALLING, AFTER_RAISED], [Some(LINE0), Some(LINE)];
    LevelCallIff(CALLING, stack, 0);
    HasOnly(Call(10, F0), 10, F0);
    assert 10 in LINE.insts && LevelCall(progs[0], stack, 0) == Some(10);
  }

  lemma CodeAfterRaised()
    ensures AFTER_RAISED == map[F0 := Fn([Store(1, 0)]), F1 := Fn([Call(10, C)]),
                                C := Fn([Store(1, 0), Flush(0, true)])]
  {
    hide Expand;
    ExpandOne(Store(1, 0), FlushAll(PM, C));
    ExpandOne(Call(10, F0), Redirected([10], F0, C));
  }

  lemma CodeAfterBoth()
    ensures AFTER_BOTH == map[F0 := Fn([Store(1, 0), Flush(0, true), Fence(true)]), F1 := Fn([Call(10, C)]),
                              C := Fn([Store(1, 0), Flush(0, true)])]
  {
    hide Expand;
    CodeAfterRaised();
    ExpandOne(Store(1, 0), FixStore(1, true, true));
    assert [Store(1, 0)] + ([Flush(0, true)] + [Fence(true)]) == [Store(1, 0), Flush(0, true), Fence(true)];
  }

  /** The run of f1 in the final program: the clone stores and flushes, and no fence comes. */
  lemma LateFixMissed()
    ensures Defined(AFTER_BOTH, F1)
    ensures var s := Run(AFTER_BOTH, Start(AFTER_BOTH, F1, [ONE]), 5);
            && s.frames == [] && Ops(s.log) == [P.Store(0, [1]), P.Clwb(0)]
            && s.log[0].fn == C && !P.Run(Ops(s.log)).Persisted(0)
  {
    hide Step, P.Run;
    CodeAfterBoth();
    var q, start := AFTER_BOTH, Start(AFTER_BOTH, F1, [ONE]);
    assert [Call(10, C)] == [Call(10, C)] + [];
    assert start.frames == [] + [At(F1, [Call(10, C)] + [])];
    StepCall(q, [], F1, 10, C, [], [Store(1, 0), Flush(0, true)], [ONE], []);
    assert [Store(1, 0), Flush(0, true)] == [Store(1, 0)] + [Flush(0, true)] && [ONE] == [Choice(0, [1], [])] + [];
    var below := [] + [At(F1, [])];
    StepStore(q, below, C, 1, [Flush(0, true)], 1, [], []);
    assert [Flush(0, true)] == [Flush(0, true)] + [];
    StepFlush(q, below, C, [], [], [] + [Stored(1, C)]);
    var log := [] + [Stored(1, C)] + [Event(P.Clwb(0), C, 0, true)];
    StepReturn(q, below, C, [], log);
    StepReturn(q, [], F1, [], log);
    RunFive(q, start);
    var ops := [P.Store(0, [1]), P.Clwb(0)];
    assert Ops(log) == ops;
    assert ops[0].Writes(0) && !P.Secured(ops, 0, 0);
    P.PersistedIff(ops, 0);
  }
}
