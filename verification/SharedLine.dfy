/**
 A line with two calls of one function, one on each side of a branch, and a fix that is raised to this line
 (src/FixGenerator.cpp:624-665). Both calls go to the clone, but only the second is fenced: a run that takes the first
 leaves the store flushed and not persisted.
 */
module SharedLine {
  import P = Persistence
  import opened Options
  import opened Ir
  import opened FixGeneration
  import opened Rewriting
  import opened Chains
  import opened TopLines
  import opened OverlappingFixes

  const CALLER: Function :=
    Function([Block([], [1, 2]), Block([Call(10, F0)], []), Block([Call(11, F0)], [])])

  const BRANCHING: Program := map[F0 := Fn([Store(1, 0)]), F1 := CALLER]

  const LINE := FrameLoc(F1, [10, 11], true)
  const STACK: seq<Option<FrameLoc>> := [Some(LINE0), Some(LINE)]
  const C := Clone(F0, 0)

  const REDIRECTED := AfterLevel(BRANCHING, F0, LINE, C)
  const FIXED: Program := REDIRECTED[F1 := ExpandFunction(REDIRECTED[F1], FenceCall(11))]

  lemma ExpandSingle(i: Instr, change: Instr -> seq<Instr>)
    ensures Expand([i], change) == change(i) && Expand([], change) == []
  {
    assert [i][..0] == [];
    assert [] + change(i) == change(i);
  }

  lemma FixedCodes()
    ensures FIXED.Keys == {F0, F1, C} && FIXED[C] == Fn([Store(1, 0), Flush(0, true)])
    ensures FIXED[F1].blocks == [Block([], [1, 2]), Block([Call(10, C)], []), Block([Call(11, C), Fence(true)], [])]
  {
    hide Expand;
    ExpandOne(Store(1, 0), FlushAll(PM, C));
    ExpandSingle(Call(10, F0), Redirected([10, 11], F0, C));
    ExpandSingle(Call(11, F0), Redirected([10, 11], F0, C));
    ExpandSingle(Call(10, C), FenceCall(11));
    ExpandSingle(Call(11, C), FenceCall(11));
    assert REDIRECTED[F1].blocks == [Block([], [1, 2]), Block([Call(10, C)], []), Block([Call(11, C)], [])];
  }

  lemma CallsInSingle(i: Instr, id: nat)
    ensures CallsIn([], id) == [] && CallsIn([i], id) == if i.Call? && i.id == id then [i] else []
  {
    assert [i][..0] == [];
  }

  lemma CallsWithIdSnoc(front: seq<Block>, b: Block, id: nat)
    ensures CallsWithId([], id) == [] && CallsWithId(front + [b], id) == CallsWithId(front, id) + CallsIn(b.code, id)
  {
    assert (front + [b])[..|front|] == front;
  }

  lemma CallsAtSnoc(f: Function, front: seq<nat>, id: nat)
    ensures CallsAt(f, []) == [] && CallsAt(f, front + [id]) == CallsAt(f, front) + CallsWithId(f.blocks, id)
  {
    assert (front + [id])[..|front|] == front;
  }

  /** The calls `id` of the branching function. */
  lemma CallsOfCaller(id: nat)
    ensures CallsWithId(CALLER.blocks, id) == if id == 10 then [Call(10, F0)] else if id == 11 then [Call(11, F0)]
            else []
  {
    hide CallsWithId, CallsIn;
    var b0, b1, b2 := Block([], [1, 2]), Block([Call(10, F0)], []), Block([Call(11, F0)], []);
    CallsInSingle(Call(10, F0), id);
    CallsInSingle(Call(11, F0), id);
    CallsWithIdSnoc([], b0, id);
    CallsWithIdSnoc([b0], b1, id);
    CallsWithIdSnoc([b0, b1], b2, id);
    assert [] + [b0] == [b0] && [b0] + [b1] == [b0, b1] && [b0, b1] + [b2] == CALLER.blocks;
  }

  lemma CallsOfLine()
    ensures CallsAt(CALLER, [10, 11]) == [Call(10, F0), Call(11, F0)]
  {
    hide CallsAt, CallsWithId;
    CallsOfCaller(10);
    CallsOfCaller(11);
    CallsAtSnoc(CALLER, [], 10);
    CallsAtSnoc(CALLER, [10], 11);
    assert [] + [10] == [10] && [10] + [11] == [10, 11];
  }

  /** The fix, as the fixer makes it. */
  lemma FixOfLine()
    ensures Subprogram(BRANCHING, FIXED, PM, STACK, 1, true, Inserted(F1, 11), [BRANCHING, REDIRECTED], [Some(C)])
  {
    hide OneLevel, CallsAt, ExpandFunction;
    AfterLevelIsLevel(BRANCHING, F0, LINE, C);
    CallsOfLine();
    assert [Call(10, F0), Call(11, F0)][..1] == [Call(10, F0)];
    var progs := [BRANCHING, REDIRECTED];
    assert LevelCall(progs[0], STACK, 0) == Some(11);
  }

  /** Nothing stands in the way of the fix: no call has been redirected before. But there are two of them. */
  lemma TwoCallsAtTop()
    ensures AllMapped(STACK, 1) && Free(BRANCHING, Frames(STACK, 1), 0)
    ensures CallAtTop(BRANCHING, STACK, 1, 10, F0) && CallAtTop(BRANCHING, STACK, 1, 11, F0)
  {
    var blocks := CALLER.blocks;
    assert Call(10, F0) in blocks[1].code && Call(11, F0) in blocks[2].code;
    assert blocks[1] in blocks && blocks[2] in blocks;
    forall id, c: Name | HasCall(CALLER, id, c) ensures c == F0 {
      var b :| b in blocks && Call(id, c) in b.code;
    }
  }

  const BRANCH := Choice(0, [], [])

  /** The run that takes the first call: it enters the clone, which stores and flushes, and returns from it and from
      the caller with no fence on the way. */
  lemma FirstCallNotFenced()
    ensures Defined(FIXED, F1)
    ensures var s := Run(FIXED, Start(FIXED, F1, [BRANCH, ONE]), 6);
            && s.frames == [] && Ops(s.log) == [P.Store(0, [1]), P.Clwb(0)]
            && s.log[0].fn == C && !P.Run(Ops(s.log)).Persisted(0)
  {
    hide Step, AfterLevel, P.Run;
    FixedCodes();
    var q, start := FIXED, Start(FIXED, F1, [BRANCH, ONE]);
    JumpsToFirst();
    assert [Call(10, C)] == [Call(10, C)] + [];
    StepCall(q, [], F1, 10, C, [], [Store(1, 0), Flush(0, true)], [ONE], []);
    assert [Store(1, 0), Flush(0, true)] == [Store(1, 0)] + [Flush(0, true)] && [ONE] == [Choice(0, [1], [])] + [];
    var below := [] + [At(F1, [])];
    StepStore(q, below, C, 1, [Flush(0, true)], 1, [], []);
    assert [Flush(0, true)] == [Flush(0, true)] + [];
    StepFlush(q, below, C, [], [], [] + [Stored(1, C)]);
    var log := [] + [Stored(1, C)] + [Event(P.Clwb(0), C, 0, true)];
    StepReturn(q, below, C, [], log);
    StepReturn(q, [], F1, [], log);
    RunFive(q, start);
    assert Run(q, start, 6) == Step(q, Run(q, start, 5));
    var ops := [P.Store(0, [1]), P.Clwb(0)];
    assert Ops(log) == ops;
    assert ops[0].Writes(0) && !P.Secured(ops, 0, 0);
    P.PersistedIff(ops, 0);
  }

  lemma JumpsToFirst()
    ensures Defined(FIXED, F1)
    ensures Step(FIXED, Start(FIXED, F1, [BRANCH, ONE])) == State([] + [At(F1, [Call(10, C)])], [ONE], [])
  {
    hide AfterLevel;
    FixedCodes();
    var s := Start(FIXED, F1, [BRANCH, ONE]);
    assert s.frames == [Frame(F1, [], [1, 2], map[])] && s.frames[..0] == [] && s.input[1..] == [ONE];
  }
}
