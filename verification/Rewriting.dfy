/**
 What the rewriting of src/FixGenerator.cpp does to runs of whole programs: a rewritten program does what
 the original does and harms nothing, and the fence behind a redirected call persists what the clones
 below it have stored.
 */
module Rewriting {
  import P = Persistence
  import opened Ir
  import opened Flushing
  import opened FixGeneration

  /** Execution starts at the entry of a function. */
  function Start(p: Program, main: Name, input: seq<Choice>): State
    requires Defined(p, main)
  {
    State([Entry(p, main)], input, [])
  }

  predicate PlainInput(input: seq<Choice>) {
    forall c | c in input :: forall e | e in c.effects :: !e.IsRepair()
  }

  lemma SourceImplements(p: Program)
    requires SourceProgram(p)
    ensures Implements(EraseProgram(p), p) && PlainProgram(p)
  {
    hide EraseFunction;
    forall n | n in p
      ensures !n.Persistent? && Origin(n) in EraseProgram(p) && EraseFunction(p[n]) == EraseProgram(p)[Origin(n)]
      ensures forall b | b in p[n].blocks :: CallsMatch(EraseProgram(p), p, b.code)
    {
      assert n.Source? && Origin(n) == n;
    }
  }

  lemma StartWellFormed(base: Program, p: Program, main: Name, input: seq<Choice>)
    requires Implements(base, p) && Defined(p, main)
    ensures WellFormedState(base, p, Start(p, main, input))
    ensures Defined(base, Origin(main))
    ensures EraseState(Start(p, main, input)) == State([Entry(base, Origin(main))], EraseInput(input), [])
  {
    hide EraseFunction, EraseInput, EraseFrame;
    assert p[main].blocks[0] in p[main].blocks;
    DefinedErased(base, p, main);
    EraseFramesSnoc([], Entry(p, main));
    assert [] + [Entry(p, main)] == [Entry(p, main)];
    assert EraseFrames([]) + [EraseFrame(Entry(p, main))] == [EraseFrame(Entry(p, main))];
  }

  /** A program rewritten in any number of steps does no harm. Wherever the original gets, the rewritten
      program gets, having done the same operations in the same functions with only flushes and fences
      added; it reads the same memory, and what was persisted still is. */
  lemma RewrittenDoesNoHarm(p: Program, q: Program, main: Name, input: seq<Choice>, n: nat) returns (n': nat)
    requires SourceProgram(p) && Implements(EraseProgram(p), q)
    requires Defined(p, main) && Defined(q, main) && PlainInput(input)
    ensures var s, t := Run(p, Start(p, main, input), n), Run(q, Start(q, main, input), n');
            && EraseState(t) == EraseState(s)
            && P.OnlyAdds(Ops(s.log), Ops(t.log))
            && P.Run(Ops(t.log)).image == P.Run(Ops(s.log)).image
            && forall b :: P.Run(Ops(s.log)).Persisted(b) ==> P.Run(Ops(t.log)).Persisted(b)
  {
    hide Implements, PlainProgram, WellFormedState, P.OnlyAdds, P.Run, EraseLog, Run, EraseState;
    SourceImplements(p);
    StartWellFormed(EraseProgram(p), p, main, input);
    StartWellFormed(EraseProgram(p), q, main, input);
    StartPlain(p, main, input);
    n' := ProgramDoesNoHarm(EraseProgram(p), p, q, Start(p, main, input), Start(q, main, input), n);
  }

  /** And the rewritten program does nothing else. */
  lemma RewrittenDoesNoMore(p: Program, q: Program, main: Name, input: seq<Choice>, n: nat) returns (n': nat)
    requires SourceProgram(p) && Implements(EraseProgram(p), q)
    requires Defined(p, main) && Defined(q, main)
    ensures var s, t := Run(p, Start(p, main, input), n'), Run(q, Start(q, main, input), n);
            EraseState(t) == EraseState(s) && EraseLog(t.log) == EraseLog(s.log)
  {
    hide Implements, PlainProgram, WellFormedState, EraseLog, Run, EraseState;
    SourceImplements(p);
    StartWellFormed(EraseProgram(p), p, main, input);
    StartWellFormed(EraseProgram(p), q, main, input);
    n' := SameBehaviour(EraseProgram(p), q, p, Start(q, main, input), Start(p, main, input), n);
  }

  lemma StartPlain(p: Program, main: Name, input: seq<Choice>)
    requires PlainProgram(p) && Defined(p, main) && PlainInput(input)
    ensures PlainState(Start(p, main, input))
  {
    assert p[main].blocks[0] in p[main].blocks;
  }

  // ----- What the code of a function keeps while it runs ---------------------------------------------------

  ghost predicate TailClosed(q: seq<Instr> -> bool) {
    forall code: seq<Instr> | code != [] && q(code) :: q(code[1..])
  }

  /** The code still ahead in every frame of a function has a property. */
  predicate FramesHave(s: State, fn: Name, q: seq<Instr> -> bool) {
    forall f | f in s.frames && f.fn == fn :: q(f.code)
  }

  predicate BlocksHave(f: Function, q: seq<Instr> -> bool) {
    forall b | b in f.blocks :: q(b.code)
  }

  lemma FramesHaveStep(p: Program, s: State, fn: Name, q: seq<Instr> -> bool)
    requires fn in p && BlocksHave(p[fn], q) && TailClosed(q) && FramesHave(s, fn, q)
    ensures FramesHave(Step(p, s), fn, q)
  {
    if s.frames != [] {
      var f := s.frames[|s.frames| - 1];
      assert f in s.frames;
      if f.fn == fn && f.code != [] {
        assert q(f.code[1..]);
      }
    }
  }

  lemma {:induction false} RunHave(p: Program, main: Name, input: seq<Choice>, fn: Name, q: seq<Instr> -> bool, n: nat)
    requires Defined(p, main) && fn in p && BlocksHave(p[fn], q) && TailClosed(q)
    ensures FramesHave(Run(p, Start(p, main, input), n), fn, q)
  {
    hide Step, BlocksHave, FramesHave, TailClosed;
    if n == 0 {
      StartHas(p, main, input, fn, q);
    } else {
      RunHave(p, main, input, fn, q, n - 1);
      FramesHaveStep(p, Run(p, Start(p, main, input), n - 1), fn, q);
    }
  }

  lemma StartHas(p: Program, main: Name, input: seq<Choice>, fn: Name, q: seq<Instr> -> bool)
    requires Defined(p, main) && fn in p && BlocksHave(p[fn], q)
    ensures FramesHave(Start(p, main, input), fn, q)
  {
    assert p[main].blocks[0] in p[main].blocks;
  }

  // ----- The redirected call and its fence ----------------------------------------------------------------

  function Fenced(id: nat): seq<Instr> -> bool {
    (code: seq<Instr>) => FencedCode(code, id)
  }

  lemma FencedTail(id: nat)
    ensures TailClosed(Fenced(id))
  {
    forall code: seq<Instr> | code != [] && FencedCode(code, id) ensures FencedCode(code[1..], id) {
      forall k | 0 <= k < |code[1..]| && code[1..][k].Call? && code[1..][k].id == id
        ensures k + 1 < |code[1..]| && code[1..][k + 1].Fence?
      {
        assert code[1..][k] == code[k + 1];
      }
    }
  }

  /** The run stands at call `id` of function `fn`, to a function of the program, and returns from it after
      `n` steps. */
  ghost predicate CallsAndReturns(p: Program, s: State, fn: Name, id: nat, n: nat) {
    && s.frames != []
    && (var top := s.frames[|s.frames| - 1];
        top.fn == fn && top.code != [] && top.code[0].Call? && top.code[0].id == id && Defined(p, top.code[0].callee))
    && 0 < n && |Run(p, s, n).frames| == |s.frames|
    && forall m | 0 < m < n :: |s.frames| < |Run(p, s, m).frames|
  }

  /** What a persistent subprogram is for. In a rewritten program whose call `id` of `fn` has been fenced,
      let a run from the start get to that call and return from it: the next step is the fence, and it
      leaves every byte persisted whose last store was made by the body of a clone. */
  lemma RepairedCallPersists(d: PmDesc, q: Program, main: Name, input: seq<Choice>, fn: Name, id: nat, k: nat, n: nat,
                             b: nat)
    requires ClonesFlush(d, q) && Defined(q, main) && fn in q && FencedCalls(q[fn], id)
    requires CallsAndReturns(q, Run(q, Start(q, main, input), k), fn, id, n)
    requires LastStoreDirect(d, Run(q, Start(q, main, input), k + n).log, b)
    ensures P.Run(Ops(Run(q, Start(q, main, input), k + n + 1).log)).Persisted(b)
  {
    hide Step, Run, ClonesFlush, LastStoreDirect, P.Run, FencedCalls;
    var start := Start(q, main, input);
    StartFlushes(d, q, main, input);
    FencedTail(id);
    FencedBlocks(q[fn], id);
    RunHave(q, main, input, fn, Fenced(id), k);
    var s := Run(q, start, k);
    var top := s.frames[|s.frames| - 1];
    assert top in s.frames && Fenced(id)(top.code);
    assert top.code[1].Fence?;
    SubprogramPersists(d, q, start, k, n, b);
  }

  lemma StartFlushes(d: PmDesc, q: Program, main: Name, input: seq<Choice>)
    requires ClonesFlush(d, q) && Defined(q, main)
    ensures Flushes(d, q, Start(q, main, input))
  {
    assert q[main].blocks[0] in q[main].blocks;
    if main.Clone? {
      assert FlushedFunction(d, main, q[main]);
    }
  }

  lemma FencedBlocks(f: Function, id: nat)
    requires FencedCalls(f, id)
    ensures BlocksHave(f, Fenced(id))
  {
  }

  // ----- The store and what is put behind it ----------------------------------------------------------------

  function FlushedAndFenced(id: nat): seq<Instr> -> bool {
    (code: seq<Instr>) => FixedCode(code, id, true, true)
  }

  lemma FixedTail(id: nat)
    ensures TailClosed(FlushedAndFenced(id))
  {
    forall code: seq<Instr> | code != [] && FixedCode(code, id, true, true)
      ensures FixedCode(code[1..], id, true, true) {
      forall k | 0 <= k < |code[1..]| && code[1..][k].Store? && code[1..][k].id == id
        ensures FixedAt(code[1..], k, true, true)
      {
        assert code[1..][k] == code[k + 1] && FixedAt(code, k + 1, true, true);
      }
    }
  }

  /** The run stands at store `id` of function `fn`, of some bytes within one cache line. */
  ghost predicate Stores(s: State, fn: Name, id: nat) {
    && s.frames != [] && s.input != []
    && var top := s.frames[|s.frames| - 1];
       && top.fn == fn && top.code != [] && top.code[0].Store? && top.code[0].id == id
       && var a, bytes := top.Addr(top.code[0].ptr), s.input[0].bytes;
          bytes != [] && P.Line(a) == P.Line(a + |bytes| - 1)
  }

  /** What a primitive fix with flush and fence is for: in every run of the rewritten program, two steps
      behind the store all that it has written is persisted. */
  lemma FixedStorePersists(q: Program, main: Name, input: seq<Choice>, fn: Name, id: nat, k: nat, b: nat)
    requires Defined(q, main) && fn in q && FixedStores(q[fn], id, true, true)
    requires Stores(Run(q, Start(q, main, input), k), fn, id)
    requires var s := Run(q, Start(q, main, input), k);
             var top := s.frames[|s.frames| - 1];
             var a := top.Addr(top.code[0].ptr);
             a <= b < a + |s.input[0].bytes|
    ensures P.Run(Ops(Run(q, Start(q, main, input), k + 3).log)).Persisted(b)
  {
    hide Run, Step, P.Run, P.RunFrom, FixedStores;
    var start := Start(q, main, input);
    FixedTail(id);
    FixedBlocks(q[fn], id);
    RunHave(q, main, input, fn, FlushedAndFenced(id), k);
    var s := Run(q, start, k);
    var top := s.frames[|s.frames| - 1];
    assert top in s.frames && FlushedAndFenced(id)(top.code);
    assert FixedAt(top.code, 0, true, true);
    var a := top.Addr(top.code[0].ptr);
    var more := [P.Store(a, s.input[0].bytes), P.Clwb(a), P.Fence];
    RunThree(q, s, start, k);
    StoreFlushFence(q, s);
    assert Ops(Run(q, start, k + 3).log) == Ops(s.log) + more;
    ThreePersist(Ops(s.log), more, b);
  }

  lemma FixedBlocks(f: Function, id: nat)
    requires FixedStores(f, id, true, true)
    ensures BlocksHave(f, FlushedAndFenced(id))
  {
  }

  lemma RunThree(q: Program, s: State, start: State, k: nat)
    requires s == Run(q, start, k)
    ensures Run(q, start, k + 3) == Step(q, Step(q, Step(q, s)))
  {
    hide Step;
    assert Run(q, start, k + 1) == Step(q, Run(q, start, k));
    assert Run(q, start, k + 2) == Step(q, Run(q, start, k + 1));
    assert Run(q, start, k + 3) == Step(q, Run(q, start, k + 2));
  }

  lemma StoreFlushFence(q: Program, s: State)
    requires s.frames != [] && s.input != []
    requires var code := s.frames[|s.frames| - 1].code;
             |code| > 2 && code[0].Store? && code[1] == Flush(code[0].ptr, true) && code[2] == Fence(true)
    ensures var top := s.frames[|s.frames| - 1];
            var a := top.Addr(top.code[0].ptr);
            Ops(Step(q, Step(q, Step(q, s))).log)
            == Ops(s.log) + [P.Store(a, s.input[0].bytes), P.Clwb(a), P.Fence]
  {
    var t := Step(q, s);
    var u := Step(q, t);
    var n := |s.frames| - 1;
    assert t.frames[n].code == s.frames[n].code[1..] && t.frames[n].regs == s.frames[n].regs;
    assert u.frames[n].code == s.frames[n].code[2..];
  }

  lemma ThreePersist(ops: seq<P.Op>, more: seq<P.Op>, b: nat)
    requires |more| == 3 && more[0].Writes(b) && more[1] == P.Clwb(more[0].address) && more[2] == P.Fence
    requires P.Line(more[0].address) == P.Line(b)
    ensures P.Run(ops + more).Persisted(b)
  {
    hide P.Run;
    var all, n := ops + more, |ops|;
    assert all[n] == more[0] && all[n + 1] == more[1] && all[n + 2] == more[2];
    forall i | 0 <= i < |all| && all[i].Writes(b) ensures P.Secured(all, i, b) {
      assert all[n + 1].WritesBack(b) && all[n + 2].Fence?;
      assert i <= n;
    }
    P.PersistedIff(all, b);
  }
}
