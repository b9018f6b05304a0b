/**
 What runs of a rewritten program persist (src/FixGenerator.cpp:184-336, src/FixGenerator.cpp:598-665):
 in clones every store to persistent memory is flushed at once, so the fence behind the top redirected
 call persists what the clones have stored.
 */
module Flushing {
  import P = Persistence
  import opened Ir

  /** What is known of the pointers of each function: the addresses of stack variables, the pointers
      that the alias analysis knows, and those that may point to persistent memory. */
  datatype PmDesc = PmDesc(allocas: set<(Name, nat)>, known: set<(Name, nat)>, pmPointers: set<(Name, nat)>)
  {
    /** A store through the pointer is to be flushed. */
    predicate IsFlushPoint(fn: Name, ptr: nat) {
      var v := (Origin(fn), ptr);
      v !in allocas && v in known && v in pmPointers
    }
  }

  /** Each flush point of the code has its flush right behind it. */
  predicate FlushedCode(d: PmDesc, fn: Name, code: seq<Instr>) {
    forall k | 0 <= k < |code| && code[k].Store? && d.IsFlushPoint(fn, code[k].ptr) ::
      k + 1 < |code| && code[k + 1].Flush? && code[k + 1].ptr == code[k].ptr
  }

  predicate FlushedFunction(d: PmDesc, fn: Name, f: Function) {
    forall b | b in f.blocks :: FlushedCode(d, fn, b.code)
  }

  predicate ClonesFlush(d: PmDesc, p: Program) {
    forall n | n in p && n.Clone? :: FlushedFunction(d, n, p[n])
  }

  predicate FramesFlush(d: PmDesc, s: State) {
    forall f | f in s.frames && f.fn.Clone? :: FlushedCode(d, f.fn, f.code)
  }

  /** A store to persistent memory that the body of a clone did itself. */
  predicate Direct(d: PmDesc, e: Event) {
    e.op.Store? && e.fn.Clone? && d.IsFlushPoint(e.fn, e.ptr)
  }

  /** The next step flushes the store. */
  predicate Pending(s: State, e: Event) {
    && s.frames != []
    && var top := s.frames[|s.frames| - 1];
       && top.code != [] && top.code[0].Flush? && top.code[0].ptr == e.ptr
       && e.op.Store? && top.Addr(e.ptr) == e.op.address
  }

  /** If event `k` is a store of a clone to persistent memory, it was flushed right away, or is about
      to be. */
  predicate FlushedAt(d: PmDesc, s: State, k: int)
    requires 0 <= k < |s.log|
  {
    Direct(d, s.log[k]) ==>
      if k + 1 < |s.log| then s.log[k + 1].op == P.Clwb(s.log[k].op.address) else Pending(s, s.log[k])
  }

  predicate LogFlushed(d: PmDesc, s: State) {
    forall k | 0 <= k < |s.log| :: FlushedAt(d, s, k)
  }

  ghost predicate Flushes(d: PmDesc, p: Program, s: State) {
    ClonesFlush(d, p) && FramesFlush(d, s) && LogFlushed(d, s)
  }

  lemma FlushedTail(d: PmDesc, fn: Name, code: seq<Instr>)
    requires FlushedCode(d, fn, code) && code != []
    ensures FlushedCode(d, fn, code[1..])
  {
    forall k | 0 <= k < |code[1..]| && code[1..][k].Store? && d.IsFlushPoint(fn, code[1..][k].ptr)
      ensures k + 1 < |code[1..]| && code[1..][k + 1].Flush? && code[1..][k + 1].ptr == code[1..][k].ptr
    {
      assert code[1..][k] == code[k + 1];
    }
  }

  lemma FramesFlushStep(d: PmDesc, p: Program, s: State)
    requires ClonesFlush(d, p) && FramesFlush(d, s)
    ensures FramesFlush(d, Step(p, s))
  {
    hide FlushedCode;
    if s.frames != [] {
      var f := s.frames[|s.frames| - 1];
      assert f in s.frames;
      if f.fn.Clone? && f.code != [] {
        FlushedTail(d, f.fn, f.code);
      }
      if f.fn in p && f.fn.Clone? {
        assert FlushedFunction(d, f.fn, p[f.fn]);
      }
    }
  }

  lemma LogFlushedStep(d: PmDesc, p: Program, s: State)
    requires FramesFlush(d, s) && LogFlushed(d, s)
    ensures LogFlushed(d, Step(p, s))
  {
    var t, n := Step(p, s), |s.log|;
    assert forall k | 0 <= k < n :: t.log[k] == s.log[k];
    forall k | 0 <= k < |t.log| ensures FlushedAt(d, t, k) {
      if k < n {
        assert FlushedAt(d, s, k);
      } else {
        var f := s.frames[|s.frames| - 1];
        assert f in s.frames;
        if Direct(d, t.log[k]) {
          assert f.code[0].Store? && f.code[1].Flush? && f.code[1].ptr == f.code[0].ptr;
        }
      }
    }
  }

  /** In every run of a program whose clones flush, every store of a clone to persistent memory is
      flushed right behind it. */
  lemma {:induction false} RunFlushes(d: PmDesc, p: Program, s: State, n: nat)
    requires Flushes(d, p, s)
    ensures Flushes(d, p, Run(p, s, n))
  {
    hide ClonesFlush, FramesFlush, LogFlushed, Step;
    if n > 0 {
      RunFlushes(d, p, s, n - 1);
      FramesFlushStep(d, p, Run(p, s, n - 1));
      LogFlushedStep(d, p, Run(p, s, n - 1));
    }
  }

  // ----- At a fence -------------------------------------------------------------------------------------------

  /** The last store to `b` was done by the body of a clone, to persistent memory, within one line. */
  predicate LastStoreDirect(d: PmDesc, log: seq<Event>, b: nat) {
    exists i ::
      && 0 <= i < |log| && log[i].op.Writes(b) && Direct(d, log[i])
      && P.Line(log[i].op.address) == P.Line(b)
      && forall j | i < j < |log| :: !log[j].op.Writes(b)
  }

  predicate AtFence(s: State) {
    s.frames != [] && s.frames[|s.frames| - 1].code != [] && s.frames[|s.frames| - 1].code[0].Fence?
  }

  /** After a fence, every byte last stored by a clone is persisted. */
  lemma FencePersists(d: PmDesc, p: Program, s: State, b: nat)
    requires LogFlushed(d, s) && AtFence(s) && LastStoreDirect(d, s.log, b)
    ensures P.Run(Ops(Step(p, s).log)).Persisted(b)
  {
    var log := Step(p, s).log;
    var ops := Ops(log);
    var n := |s.log|;
    assert log == s.log + [log[n]] && ops[n].Fence?;
    var i :| 0 <= i < n && s.log[i].op.Writes(b) && Direct(d, s.log[i])
             && P.Line(s.log[i].op.address) == P.Line(b) && forall j | i < j < n :: !s.log[j].op.Writes(b);
    assert FlushedAt(d, s, i);
    assert i + 1 < n && ops[i + 1] == s.log[i + 1].op == P.Clwb(s.log[i].op.address);
    assert ops[i + 1].WritesBack(b);
    forall k | 0 <= k < |ops| && ops[k].Writes(b) ensures P.Secured(ops, k, b) {
      assert k < n ==> ops[k] == s.log[k].op;
      assert k <= i;
      assert k < i + 1 < n < |ops| && ops[i + 1].WritesBack(b) && ops[n].Fence?;
    }
    P.PersistedIff(ops, b);
  }

  // ----- A call and its return ----------------------------------------------------------------------------------

  /** While a call is running, the frames below it stay as they are. */
  lemma {:induction false} FramesBelowStay(p: Program, s: State, n: nat, d: nat)
    requires 0 < d < |s.frames|
    requires forall m | 0 <= m < n :: d < |Run(p, s, m).frames|
    ensures d <= |Run(p, s, n).frames| && Run(p, s, n).frames[..d] == s.frames[..d]
  {
    hide Step;
    if n > 0 {
      FramesBelowStay(p, s, n - 1, d);
      assert d < |Run(p, s, n - 1).frames|;
      StepKeepsBelow(p, Run(p, s, n - 1), d);
    }
  }

  lemma StepKeepsBelow(p: Program, s: State, d: nat)
    requires d < |s.frames|
    ensures d <= |Step(p, s).frames| && Step(p, s).frames[..d] == s.frames[..d]
  {
    assert s.frames[..|s.frames| - 1][..d] == s.frames[..d];
  }

  /** When a call that stands in front of a fence returns, the fence is next. */
  lemma ReturnsToFence(p: Program, s: State, n: nat)
    requires s.frames != []
    requires var top := s.frames[|s.frames| - 1];
             |top.code| > 1 && top.code[0].Call? && top.code[1].Fence? && Defined(p, top.code[0].callee)
    requires 0 < n && |Run(p, s, n).frames| == |s.frames|
    requires forall m | 0 < m < n :: |s.frames| < |Run(p, s, m).frames|
    ensures AtFence(Run(p, s, n))
  {
    hide Step, Run;
    var d := |s.frames|;
    var top := s.frames[d - 1];
    var t := Step(p, s);
    RunFirst(p, s);
    CallPushes(p, s);
    assert |t.frames| == d + 1;
    assert n > 1;
    forall m: nat | 0 <= m < n - 1 ensures d < |Run(p, t, m).frames| {
      RunAdd(p, s, 1, m);
    }
    FramesBelowStay(p, t, n - 1, d);
    RunAdd(p, s, 1, n - 1);
    assert Run(p, t, n - 1).frames[..d][d - 1] == top.(code := top.code[1..]);
  }

  lemma CallPushes(p: Program, s: State)
    requires s.frames != []
    requires var top := s.frames[|s.frames| - 1]; top.code != [] && top.code[0].Call? && Defined(p, top.code[0].callee)
    ensures var n := |s.frames| - 1;
            Step(p, s).frames == s.frames[..n]
              + [s.frames[n].(code := s.frames[n].code[1..]), Entry(p, s.frames[n].code[0].callee)]
  {
  }

  /** The effect of a persistent subprogram: when the redirected call returns, the next step fences,
      and from then on every byte whose last store was made by a clone is persisted. */
  lemma SubprogramPersists(d: PmDesc, p: Program, start: State, k: nat, n: nat, b: nat)
    requires Flushes(d, p, start)
    requires var s := Run(p, start, k);
             && s.frames != []
             && (var top := s.frames[|s.frames| - 1];
                 |top.code| > 1 && top.code[0].Call? && top.code[1].Fence? && Defined(p, top.code[0].callee))
             && 0 < n && |Run(p, s, n).frames| == |s.frames|
             && forall m | 0 < m < n :: |s.frames| < |Run(p, s, m).frames|
    requires LastStoreDirect(d, Run(p, start, k + n).log, b)
    ensures P.Run(Ops(Run(p, start, k + n + 1).log)).Persisted(b)
  {
    hide Step, Flushes, LogFlushed, LastStoreDirect, AtFence, P.Run;
    var s := Run(p, start, k);
    ReturnsToFence(p, s, n);
    RunAdd(p, start, k, n);
    RunFlushes(d, p, start, k + n);
    FlushesLog(d, p, Run(p, start, k + n));
    FencePersists(d, p, Run(p, start, k + n), b);
    assert Run(p, start, k + n + 1) == Step(p, Run(p, start, k + n));
  }

  lemma FlushesLog(d: PmDesc, p: Program, s: State)
    requires Flushes(d, p, s)
    ensures LogFlushed(d, s)
  {
  }
}
