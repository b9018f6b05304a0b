/**
 Two raised fixes that share a call site (src/FixGenerator.cpp:496-665): f3 calls f2, f2 calls f1, and f1 stores to
 persistent memory and calls f0, which stores there too. First the store of f1 is fixed at its call in f2, then that
 of f0 at the call of f2 in f3. Between them the clones do not call each other, and the store of f0 stays unflushed.
 */
module OverlappingFixes {
  import P = Persistence
  import opened Options
  import opened Ir
  import opened Flushing
  import opened FixGeneration
  import opened Rewriting
  import opened Chains

  const F0 := Source("f0")
  const F1 := Source("f1")
  const F2 := Source("f2")
  const F3 := Source("f3")

  const PM := PmDesc({}, {(F0, 0), (F1, 0)}, {(F0, 0), (F1, 0)})

  function Fn(code: seq<Instr>): Function {
    Function([Block(code, [])])
  }

  const PROGRAM: Program :=
    map[F0 := Fn([Store(1, 0)]), F1 := Fn([Store(2, 0), Call(10, F0)]), F2 := Fn([Call(20, F1)]),
        F3 := Fn([Call(30, F2)])]

  const LINE0 := FrameLoc(F0, [1], true)
  const LINE1 := FrameLoc(F1, [10], true)
  const LINE2 := FrameLoc(F2, [20], true)
  const LINE3 := FrameLoc(F3, [30], true)

  /** The call stacks of the two fixes, and the clones that they make. */
  const STACK_A: seq<Option<FrameLoc>> := [Some(FrameLoc(F1, [2], true)), Some(LINE2)]
  const STACK_B: seq<Option<FrameLoc>> := [Some(LINE0), Some(LINE1), Some(LINE2), Some(LINE3)]
  const A1 := Clone(F1, 0)
  const B0 := Clone(F0, 1)
  const B1 := Clone(F1, 2)
  const B2 := Clone(F2, 3)

  /** One level, as a function of the program. */
  function AfterLevel(p: Program, fn: Name, next: FrameLoc, clone: Name): Program
    requires fn in p && next.fn in p && next.fn != clone
  {
    p[clone := ExpandFunction(p[fn], FlushAll(PM, clone))]
     [next.fn := ExpandFunction(p[next.fn], Redirected(next.insts, fn, clone))]
  }

  lemma AfterLevelIsLevel(p: Program, fn: Name, next: FrameLoc, clone: Name)
    requires fn in p && next.fn in p && clone !in p && next.fn != clone && fn != clone
    ensures OneLevel(p, AfterLevel(p, fn, next, clone), PM, fn, next, clone)
  {
    hide Expand;
    var g := ExpandFunction(p[fn], FlushAll(PM, clone));
    forall b | b in g.blocks ensures FlushedCode(PM, clone, b.code) {
      var k :| 0 <= k < |g.blocks| && g.blocks[k] == b;
      FlushAllFlushes(PM, clone, p[fn].blocks[k].code);
    }
    RedirectedNoCalls(p[next.fn], next.insts, fn, clone);
  }

  lemma ExpandOne(i: Instr, change: Instr -> seq<Instr>)
    ensures ExpandFunction(Fn([i]), change) == Fn(change(i))
  {
    assert [i][..0] == [];
    assert Expand([i], change) == [] + change(i) == change(i);
  }

  lemma ExpandTwo(i: Instr, j: Instr, change: Instr -> seq<Instr>)
    ensures ExpandFunction(Fn([i, j]), change) == Fn(change(i) + change(j))
  {
    assert [i, j][..1] == [i];
    ExpandOne(i, change);
    assert ExpandFunction(Fn([i]), change).blocks[0].code == Expand([i], change);
  }

  const AFTER_A := AfterLevel(PROGRAM, F1, LINE2, A1)
  const AFTER_B0 := AfterLevel(AFTER_A, F0, LINE1, B0)
  const AFTER_B1 := AfterLevel(AFTER_B0, F1, LINE2, B1)
  const AFTER_B2 := AfterLevel(AFTER_B1, F2, LINE3, B2)
  const AFTER_B: Program := AFTER_B2[F3 := ExpandFunction(AFTER_B2[F3], FenceCall(30))]

  /** After the first fix: the clone of f1 flushes its own store and calls f0, and f2 calls the clone. */
  lemma CodeAfterA()
    ensures AFTER_A == PROGRAM[A1 := Fn([Store(2, 0), Flush(0, true), Call(10, F0)])][F2 := Fn([Call(20, A1)])]
  {
    ExpandTwo(Store(2, 0), Call(10, F0), FlushAll(PM, A1));
    assert [Store(2, 0), Flush(0, true)] + [Call(10, F0)] == [Store(2, 0), Flush(0, true), Call(10, F0)];
    ExpandOne(Call(20, F1), Redirected([20], F1, A1));
  }

  /** After the second fix: the clones of f0 and f1 that it made are there, but f2 and its clone go on calling the
      clone of the first fix. */
  lemma CodeAfterB()
    ensures AFTER_B.Keys == {F0, F1, F2, F3, A1, B0, B1, B2}
    ensures AFTER_B[F0] == Fn([Store(1, 0)]) && AFTER_B[A1] == Fn([Store(2, 0), Flush(0, true), Call(10, F0)])
    ensures AFTER_B[B2] == Fn([Call(20, A1)]) && AFTER_B[F2] == Fn([Call(20, A1)])
    ensures AFTER_B[F3] == Fn([Call(30, B2), Fence(true)])
  {
    hide Expand;
    CodeAfterA();
    ExpandOne(Call(20, A1), Redirected([20], F1, B1));
    ExpandOne(Call(20, A1), FlushAll(PM, B2));
    ExpandOne(Call(30, F2), Redirected([30], F2, B2));
    ExpandOne(Call(30, B2), FenceCall(30));
  }

  lemma HasOnly(i: Instr, id: nat, c: Name)
    ensures HasCall(Fn([i]), id, c) <==> i == Call(id, c)
  {
    var b := Block([i], []);
    assert Fn([i]).blocks == [b];
    if i == Call(id, c) {
      assert b in Fn([i]).blocks && Call(id, c) in b.code;
    }
  }

  /** The first fix is a persistent subprogram. */
  lemma FixA()
    ensures Subprogram(PROGRAM, AFTER_A, PM, STACK_A, 1, false, Inserted(F2, 20), [PROGRAM, AFTER_A], [Some(A1)])
  {
    hide OneLevel, AfterLevel, HasCall, LevelCall;
    AfterLevelIsLevel(PROGRAM, F1, LINE2, A1);
    CodeAfterA();
    var progs := [PROGRAM, AFTER_A];
    LevelCallIff(PROGRAM, STACK_A, 0);
    HasOnly(Call(20, F1), 20, F1);
    assert 20 in LINE2.insts && LevelCall(progs[0], STACK_A, 0) == Some(20);
  }

  /** So is the second one, with the fence behind the call in f3. */
  lemma FixB()
    ensures Subprogram(AFTER_A, AFTER_B, PM, STACK_B, 3, true, Inserted(F3, 30),
                       [AFTER_A, AFTER_B0, AFTER_B1, AFTER_B2], [Some(B0), Some(B1), Some(B2)])
  {
    hide OneLevel, HasCall, LevelCall, ExpandFunction;
    CodeAfterA();
    AfterLevelIsLevel(AFTER_A, F0, LINE1, B0);
    AfterLevelIsLevel(AFTER_B0, F1, LINE2, B1);
    AfterLevelIsLevel(AFTER_B1, F2, LINE3, B2);
    var progs, clones := [AFTER_A, AFTER_B0, AFTER_B1, AFTER_B2], [Some(B0), Some(B1), Some(B2)];
    forall i | 0 <= i < 3 ensures Level(progs[i], progs[i + 1], PM, STACK_B, i, clones[i]) {
    }
    LevelCallIff(AFTER_B1, STACK_B, 2);
    HasOnly(Call(30, F2), 30, F2);
    assert 30 in LINE3.insts && LevelCall(progs[2], STACK_B, 2) == Some(30);
  }

  /** The chain of the second fix is broken where the first one has redirected the call. */
  lemma ChainBroken()
    ensures var frames, names := [LINE0, LINE1, LINE2, LINE3], [B0, B1, B2];
            !Free(AFTER_A, frames, 1) && !Linked(AFTER_B, frames, names, 1)
  {
    hide HasCall;
    var frames, names := [LINE0, LINE1, LINE2, LINE3], [B0, B1, B2];
    CodeAfterA();
    CodeAfterB();
    HasOnly(Call(20, A1), 20, A1);
    assert Origin(A1) == F1 && 20 in LINE2.insts;
  }

  // ----- A run --------------------------------------------------------------------------------------------

  const ONE := Choice(0, [1], [])
  const TWO := Choice(0, [2], [])

  function At(fn: Name, code: seq<Instr>): Frame {
    Frame(fn, code, [], map[])
  }

  function Stored(v: P.byte, fn: Name): Event {
    Event(P.Store(0, [v]), fn, 0, false)
  }

  const FLUSHED := Event(P.Clwb(0), A1, 0, true)

  lemma StepCall(q: Program, below: seq<Frame>, fn: Name, id: nat, callee: Name, rest: seq<Instr>, code: seq<Instr>,
                 input: seq<Choice>, log: seq<Event>)
    requires callee in q && q[callee] == Fn(code)
    ensures Step(q, State(below + [At(fn, [Call(id, callee)] + rest)], input, log))
            == State(below + [At(fn, rest)] + [At(callee, code)], input, log)
  {
    var s := State(below + [At(fn, [Call(id, callee)] + rest)], input, log);
    assert s.frames[..|below|] == below && s.frames[|below|].code[1..] == rest;
    assert below + [At(fn, rest)] + [At(callee, code)] == below + [At(fn, rest), At(callee, code)];
  }

  lemma StepStore(q: Program, below: seq<Frame>, fn: Name, id: nat, rest: seq<Instr>, v: P.byte, input: seq<Choice>,
                  log: seq<Event>)
    ensures Step(q, State(below + [At(fn, [Store(id, 0)] + rest)], [Choice(0, [v], [])] + input, log))
            == State(below + [At(fn, rest)], input, log + [Stored(v, fn)])
  {
    var s := State(below + [At(fn, [Store(id, 0)] + rest)], [Choice(0, [v], [])] + input, log);
    assert s.frames[..|below|] == below && s.frames[|below|].code[1..] == rest && s.input[1..] == input;
  }

  lemma StepFlush(q: Program, below: seq<Frame>, fn: Name, rest: seq<Instr>, input: seq<Choice>, log: seq<Event>)
    ensures Step(q, State(below + [At(fn, [Flush(0, true)] + rest)], input, log))
            == State(below + [At(fn, rest)], input, log + [Event(P.Clwb(0), fn, 0, true)])
  {
    var s := State(below + [At(fn, [Flush(0, true)] + rest)], input, log);
    assert s.frames[..|below|] == below && s.frames[|below|].code[1..] == rest;
  }

  lemma StepFence(q: Program, below: seq<Frame>, fn: Name, rest: seq<Instr>, input: seq<Choice>, log: seq<Event>)
    ensures Step(q, State(below + [At(fn, [Fence(true)] + rest)], input, log))
            == State(below + [At(fn, rest)], input, log + [Event(P.Fence, fn, 0, true)])
  {
    var s := State(below + [At(fn, [Fence(true)] + rest)], input, log);
    assert s.frames[..|below|] == below && s.frames[|below|].code[1..] == rest;
  }

  lemma StepReturn(q: Program, below: seq<Frame>, fn: Name, input: seq<Choice>, log: seq<Event>)
    ensures Step(q, State(below + [At(fn, [])], input, log)) == State(below, input, log)
  {
    var s := State(below + [At(fn, [])], input, log);
    assert s.frames[..|below|] == below;
  }

  function Waiting(): seq<Frame> {
    [] + [At(F3, [Fence(true)])] + [At(B2, [])] + [At(A1, [])]
  }

  function Middle(): State {
    State(Waiting() + [At(F0, [Store(1, 0)])], [TWO], [] + [Stored(1, A1)] + [FLUSHED])
  }

  /** The run goes down to f0 through the clones of the two fixes. */
  lemma GoingDown()
    ensures Defined(AFTER_B, F3) && Run(AFTER_B, Start(AFTER_B, F3, [ONE, TWO]), 5) == Middle()
  {
    hide Step, AfterLevel;
    CodeAfterB();
    var q, f3, b2 := AFTER_B, [] + [At(F3, [Fence(true)])], [] + [At(F3, [Fence(true)])] + [At(B2, [])];
    var s0 := Start(q, F3, [ONE, TWO]);
    assert [Call(30, B2), Fence(true)] == [Call(30, B2)] + [Fence(true)];
    assert s0.frames == [] + [At(F3, [Call(30, B2)] + [Fence(true)])];
    StepCall(q, [], F3, 30, B2, [Fence(true)], [Call(20, A1)], [ONE, TWO], []);
    assert [Call(20, A1)] == [Call(20, A1)] + [];
    StepCall(q, f3, B2, 20, A1, [], [Store(2, 0), Flush(0, true), Call(10, F0)], [ONE, TWO], []);
    assert [Store(2, 0), Flush(0, true), Call(10, F0)] == [Store(2, 0)] + [Flush(0, true), Call(10, F0)];
    assert [ONE, TWO] == [Choice(0, [1], [])] + [TWO];
    StepStore(q, b2, A1, 2, [Flush(0, true), Call(10, F0)], 1, [TWO], []);
    assert [Flush(0, true), Call(10, F0)] == [Flush(0, true)] + [Call(10, F0)];
    StepFlush(q, b2, A1, [Call(10, F0)], [TWO], [] + [Stored(1, A1)]);
    assert [Call(10, F0)] == [Call(10, F0)] + [];
    StepCall(q, b2, A1, 10, F0, [], [Store(1, 0)], [TWO], [] + [Stored(1, A1)] + [FLUSHED]);
    RunFive(q, s0);
  }

  lemma RunFive(q: Program, s: State)
    ensures Run(q, s, 5) == Step(q, Step(q, Step(q, Step(q, Step(q, s)))))
  {
    hide Step;
    assert Run(q, s, 1) == Step(q, Run(q, s, 0));
    assert Run(q, s, 2) == Step(q, Run(q, s, 1));
    assert Run(q, s, 3) == Step(q, Run(q, s, 2));
    assert Run(q, s, 4) == Step(q, Run(q, s, 3));
    assert Run(q, s, 5) == Step(q, Run(q, s, 4));
  }

  /** And returns to the fence. */
  lemma ComingBack()
    ensures Run(AFTER_B, Middle(), 5).log
            == [] + [Stored(1, A1)] + [FLUSHED] + [Stored(2, F0)] + [Event(P.Fence, F3, 0, true)]
  {
    hide Step, AfterLevel;
    var q, f3, b2 := AFTER_B, [] + [At(F3, [Fence(true)])], [] + [At(F3, [Fence(true)])] + [At(B2, [])];
    var log := [] + [Stored(1, A1)] + [FLUSHED] + [Stored(2, F0)];
    assert [Store(1, 0)] == [Store(1, 0)] + [] && [TWO] == [Choice(0, [2], [])] + [];
    StepStore(q, Waiting(), F0, 1, [], 2, [], [] + [Stored(1, A1)] + [FLUSHED]);
    StepReturn(q, Waiting(), F0, [], log);
    StepReturn(q, b2, A1, [], log);
    StepReturn(q, f3, B2, [], log);
    assert [Fence(true)] == [Fence(true)] + [];
    StepFence(q, [], F3, [], [], log);
    RunFive(q, Middle());
  }

  /** Both fixes are in the program, each as the fixer makes it, and the second one was to flush and fence the store
      of f0 at the call in f3. In this run that store is done by f0 itself, and behind the fence its byte is not
      persisted. */
  lemma RaisedFixUndone()
    ensures Defined(AFTER_B, F3)
    ensures var log := Run(AFTER_B, Start(AFTER_B, F3, [ONE, TWO]), 10).log;
            && Ops(log) == [P.Store(0, [1]), P.Clwb(0), P.Store(0, [2]), P.Fence] && log[2].fn == F0
            && !P.Run(Ops(log)).Persisted(0)
  {
    hide Run, Step, P.Run;
    GoingDown();
    ComingBack();
    RunAdd(AFTER_B, Start(AFTER_B, F3, [ONE, TWO]), 5, 5);
    LastStoreExposed();
  }

  lemma LastStoreExposed()
    ensures !P.Run([P.Store(0, [1]), P.Clwb(0), P.Store(0, [2]), P.Fence]).Persisted(0)
  {
    hide P.Run;
    var ops := [P.Store(0, [1]), P.Clwb(0), P.Store(0, [2]), P.Fence];
    assert ops[2].Writes(0) && !P.WrittenBack(ops, 2, 0);
    assert !P.Secured(ops, 2, 0);
    P.PersistedIff(ops, 0);
  }

  // ----- The other order ----------------------------------------------------------------------------------

  const FIRST_B0 := AfterLevel(PROGRAM, F0, LINE1, B0)
  const FIRST_B1 := AfterLevel(FIRST_B0, F1, LINE2, B1)
  const FIRST_B2 := AfterLevel(FIRST_B1, F2, LINE3, B2)
  const FIRST_B: Program := FIRST_B2[F3 := ExpandFunction(FIRST_B2[F3], FenceCall(30))]

  /** The fix of f0, applied first: f2 and its clone then call the clone of f1 that it has made. */
  lemma FirstB()
    ensures Subprogram(PROGRAM, FIRST_B, PM, STACK_B, 3, true, Inserted(F3, 30),
                       [PROGRAM, FIRST_B0, FIRST_B1, FIRST_B2], [Some(B0), Some(B1), Some(B2)])
    ensures FIRST_B.Keys == {F0, F1, F2, F3, B0, B1, B2}
    ensures FIRST_B[F2] == Fn([Call(20, B1)]) && FIRST_B[B2] == Fn([Call(20, B1)])
  {
    hide OneLevel, HasCall, LevelCall, ExpandFunction;
    AfterLevelIsLevel(PROGRAM, F0, LINE1, B0);
    AfterLevelIsLevel(FIRST_B0, F1, LINE2, B1);
    AfterLevelIsLevel(FIRST_B1, F2, LINE3, B2);
    ExpandOne(Call(20, F1), Redirected([20], F1, B1));
    ExpandOne(Call(20, B1), FlushAll(PM, B2));
    var progs, clones := [PROGRAM, FIRST_B0, FIRST_B1, FIRST_B2], [Some(B0), Some(B1), Some(B2)];
    forall i | 0 <= i < 3 ensures Level(progs[i], progs[i + 1], PM, STACK_B, i, clones[i]) {
    }
    LevelCallIff(FIRST_B1, STACK_B, 2);
    HasOnly(Call(30, F2), 30, F2);
    assert 30 in LINE3.insts && LevelCall(progs[2], STACK_B, 2) == Some(30);
  }

  /** The fix of f1, when it comes second, finds nothing to redirect, whatever it makes of the program and whatever
      its clone is called: the fixer then has no instruction to put a fence behind. */
  lemma OtherOrderFindsNothing(q: Program, clones: seq<Option<Name>>)
    requires Levels([FIRST_B, q], PM, STACK_A, 1, clones)
    ensures Anchor([FIRST_B, q], STACK_A, 1).None?
  {
    hide HasCall, LevelCall, OneLevel, AfterLevel;
    FirstB();
    LevelCallIff(FIRST_B, STACK_A, 0);
    HasOnly(Call(20, B1), 20, F1);
    if LevelCall([FIRST_B, q][0], STACK_A, 0).Some? {
      HasOnly(Call(20, B1), LevelCall(FIRST_B, STACK_A, 0).value, F1);
    }
  }
}
