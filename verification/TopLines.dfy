/**
 The line at the top of a raised fix (src/FixGenerator.cpp:624-665). Every call of the function below at that line is
 redirected, but the fence goes behind one of them only, the last.
 */
module TopLines {
  import P = Persistence
  import opened Options
  import opened Ir
  import opened Flushing
  import opened FixGeneration
  import opened Rewriting
  import opened Chains

  // ----- Where the fence is ---------------------------------------------------------------------------------

  predicate IsCall(i: Instr, id: nat) {
    i.Call? && i.id == id
  }

  /** Every call `id` but one at the very end has its fence. */
  predicate FencedFront(code: seq<Instr>, id: nat) {
    forall k | 0 <= k < |code| - 1 && IsCall(code[k], id) :: code[k + 1].Fence?
  }

  predicate EndsInCall(code: seq<Instr>, id: nat) {
    code != [] && IsCall(code[|code| - 1], id)
  }

  lemma FencedIff(code: seq<Instr>, id: nat)
    ensures FencedCode(code, id) <==> FencedFront(code, id) && !EndsInCall(code, id)
  {
  }

  predicate NoCall(code: seq<Instr>, id: nat) {
    forall i | i in code :: !IsCall(i, id)
  }

  /** A change that leaves fences behind calls `id` where they are. */
  ghost predicate KeepsFences(change: Instr -> seq<Instr>, id: nat) {
    forall i ::
      && change(i) != []
      && (change(i)[0].Fence? <==> i.Fence?) && (IsCall(change(i)[0], id) <==> IsCall(i, id))
      && (1 < |change(i)| ==> NoCall(change(i), id))
  }

  lemma FencedFrontConcat(xs: seq<Instr>, ys: seq<Instr>, id: nat)
    requires ys != [] && (1 < |ys| ==> NoCall(ys, id))
    ensures FencedFront(xs + ys, id) <==> FencedFront(xs, id) && (EndsInCall(xs, id) ==> ys[0].Fence?)
    ensures EndsInCall(xs + ys, id) <==> IsCall(ys[0], id) && |ys| == 1
  {
    var all := xs + ys;
    assert all[|xs|] == ys[0] && all[|all| - 1] == ys[|ys| - 1];
    assert forall k | |xs| <= k < |all| :: all[k] == ys[k - |xs|];
    if FencedFront(xs, id) && (EndsInCall(xs, id) ==> ys[0].Fence?) {
      forall k | 0 <= k < |all| - 1 && IsCall(all[k], id) ensures all[k + 1].Fence? {
        if k < |xs| - 1 {
          assert all[k] == xs[k] && all[k + 1] == xs[k + 1];
        } else if k == |xs| - 1 {
          assert all[k] == xs[k] && all[k + 1] == ys[0];
        }
      }
    }
    if FencedFront(all, id) {
      forall k | 0 <= k < |xs| - 1 && IsCall(xs[k], id) ensures xs[k + 1].Fence? {
        assert IsCall(all[k], id) && all[k + 1] == xs[k + 1];
      }
      if EndsInCall(xs, id) {
        assert IsCall(all[|xs| - 1], id) && all[|xs|] == ys[0];
      }
    }
  }

  lemma {:induction false} ExpandKeepsFences(code: seq<Instr>, change: Instr -> seq<Instr>, id: nat)
    requires KeepsFences(change, id)
    ensures FencedFront(Expand(code, change), id) <==> FencedFront(code, id)
    ensures EndsInCall(Expand(code, change), id) <==> EndsInCall(code, id)
  {
    if code != [] {
      var front, i := code[..|code| - 1], code[|code| - 1];
      assert code == front + [i];
      ExpandKeepsFences(front, change, id);
      FencedFrontConcat(front, [i], id);
      FencedFrontConcat(Expand(front, change), change(i), id);
    }
  }

  lemma FunctionKeepsFences(f: Function, change: Instr -> seq<Instr>, id: nat)
    requires KeepsFences(change, id)
    ensures FencedCalls(ExpandFunction(f, change), id) <==> FencedCalls(f, id)
  {
    hide Expand, FencedCode;
    var g := ExpandFunction(f, change);
    forall k | 0 <= k < |f.blocks| ensures FencedCode(g.blocks[k].code, id) <==> FencedCode(f.blocks[k].code, id) {
      ExpandKeepsFences(f.blocks[k].code, change, id);
      FencedIff(f.blocks[k].code, id);
      FencedIff(g.blocks[k].code, id);
    }
    if FencedCalls(g, id) {
      forall b | b in f.blocks ensures FencedCode(b.code, id) {
        var k :| 0 <= k < |f.blocks| && f.blocks[k] == b;
        assert g.blocks[k] in g.blocks;
      }
    }
    if FencedCalls(f, id) {
      forall b | b in g.blocks ensures FencedCode(b.code, id) {
        var k :| 0 <= k < |g.blocks| && g.blocks[k] == b;
        assert f.blocks[k] in f.blocks;
      }
    }
  }

  lemma RedirectingKeepsFences(ids: seq<nat>, from: Name, to: Name, id: nat)
    ensures KeepsFences(Redirected(ids, from, to), id)
  {
  }

  lemma FencingKeepsFences(fenced: nat, id: nat)
    requires fenced != id
    ensures KeepsFences(FenceCall(fenced), id)
  {
  }

  lemma FenceCallFencesFunction(f: Function, id: nat)
    ensures FencedCalls(ExpandFunction(f, FenceCall(id)), id)
  {
    var g := ExpandFunction(f, FenceCall(id));
    forall b | b in g.blocks ensures FencedCode(b.code, id) {
      var k :| 0 <= k < |g.blocks| && g.blocks[k] == b;
      FenceCallFences(f.blocks[k].code, id);
    }
  }

  /** No level puts a fence behind a call or takes one away. */
  lemma {:induction false} ChainKeepsFences(progs: seq<Program>, pm: PmDesc, frames: seq<FrameLoc>, names: seq<Name>,
                                            k: nat, fn: Name, id: nat)
    requires Chain(progs, pm, frames, names) && k < |progs| && fn in progs[0] && fn.Source?
    ensures fn in progs[k] && (FencedCalls(progs[k][fn], id) <==> FencedCalls(progs[0][fn], id))
  {
    hide ChainLevel, ExpandFunction, FencedCalls;
    if k > 0 {
      var i := k - 1;
      ChainKeepsFences(progs, pm, frames, names, i, fn, id);
      assert ChainLevel(progs[i], progs[i + 1], pm, frames, names, i);
      LevelChanges(progs[i], progs[i + 1], pm, frames, names, i, fn);
      if fn == frames[k].fn {
        RedirectingKeepsFences(frames[k].insts, frames[i].fn, names[i], id);
        FunctionKeepsFences(progs[i][fn], Redirected(frames[k].insts, frames[i].fn, names[i]), id);
      }
    }
  }

  /** A raised fix fences the one call that it is anchored at, and no other. */
  lemma FenceBehindOneCall(p: Program, q: Program, d: PmDesc, stack: seq<Option<FrameLoc>>, idx: nat, addFence: bool,
                           r: Outcome, progs: seq<Program>, clones: seq<Option<Name>>, fn: Name, id: nat)
    requires SourceFrames(p, stack) && AllMapped(stack, idx) && fn in p && fn.Source?
    requires Subprogram(p, q, d, stack, idx, addFence, r, progs, clones)
    ensures fn in q
    ensures FencedCalls(q[fn], id) <==> FencedCalls(p[fn], id) || (addFence && r.Inserted? && r.fn == fn && r.id == id)
  {
    hide Levels, Anchor, Chain, ExpandFunction, FencedCalls;
    LevelsLength(progs, d, stack, idx, clones);
    ChainOfLevels(progs, d, stack, idx, clones);
    ChainKeepsFences(progs, d, Frames(stack, idx), Names(clones), idx, fn, id);
    if addFence && r.Inserted? && r.fn == fn {
      if r.id == id {
        FenceCallFencesFunction(progs[idx][fn], id);
      } else {
        FencingKeepsFences(r.id, id);
        FunctionKeepsFences(progs[idx][fn], FenceCall(r.id), id);
      }
    }
  }

  /** So every call of the function below at the top line is fenced exactly if each one that the fence does not go
      behind was fenced before. */
  lemma TopLineFencedIff(p: Program, q: Program, d: PmDesc, stack: seq<Option<FrameLoc>>, idx: nat,
                         r: Outcome, progs: seq<Program>, clones: seq<Option<Name>>)
    requires SourceFrames(p, stack) && AllMapped(stack, idx) && 0 < idx
    requires Subprogram(p, q, d, stack, idx, true, r, progs, clones)
    requires r.Inserted? && r.fn == stack[idx].value.fn && r.fn in p
    ensures r.fn in q
    ensures (forall id, c: Name | CallAtTop(p, stack, idx, id, c) :: FencedCalls(q[r.fn], id)) <==>
            (forall id, c: Name | CallAtTop(p, stack, idx, id, c) :: id == r.id || FencedCalls(p[r.fn], id))
  {
    hide Subprogram, FencedCalls, CallAtTop;
    assert r.fn.Source? by {
      assert stack[idx] in stack;
    }
    FenceBehindOneCall(p, q, d, stack, idx, true, r, progs, clones, r.fn, r.id);
    forall id ensures (FencedCalls(q[r.fn], id) <==> FencedCalls(p[r.fn], id) || r.id == id) {
      FenceBehindOneCall(p, q, d, stack, idx, true, r, progs, clones, r.fn, id);
    }
    assert forall id, c: Name | CallAtTop(p, stack, idx, id, c) ::
        FencedCalls(q[r.fn], id) <==> id == r.id || FencedCalls(p[r.fn], id);
  }

  /** A call at the line of frame `idx` of (a version of) the function of the frame below. */
  ghost predicate CallAtTop(p: Program, stack: seq<Option<FrameLoc>>, idx: nat, id: nat, c: Name)
    requires AllMapped(stack, idx) && 0 < idx
  {
    && stack[idx].value.fn in p && HasCall(p[stack[idx].value.fn], id, c)
    && id in stack[idx].value.insts && Origin(c) == stack[idx - 1].value.fn
  }

  // ----- Where there is one call ----------------------------------------------------------------------------

  /** A call of the rewritten program at the top line was one of the program before. */
  lemma CallWasThere(p: Program, q: Program, d: PmDesc, stack: seq<Option<FrameLoc>>, idx: nat, addFence: bool,
                     r: Outcome, progs: seq<Program>, clones: seq<Option<Name>>, id: nat, c: Name)
    requires SourceFrames(p, stack) && AllMapped(stack, idx) && 0 < idx
    requires Subprogram(p, q, d, stack, idx, addFence, r, progs, clones)
    requires stack[idx].value.fn in q && HasCall(q[stack[idx].value.fn], id, c)
    requires id in stack[idx].value.insts && Origin(c) == stack[idx - 1].value.fn
    ensures exists c0 :: CallAtTop(p, stack, idx, id, c0)
  {
    hide Levels, Anchor, Chain, ExpandFunction, HasCall, Origin, CalleeAfter;
    var fn, frames, names := stack[idx].value.fn, Frames(stack, idx), Names(clones);
    LevelsLength(progs, d, stack, idx, clones);
    ChainOfLevels(progs, d, stack, idx, clones);
    ChainNames(progs, d, frames, names);
    assert stack[idx] in stack;
    Tracked(progs, d, frames, names, idx, fn, id, c);
    if addFence && r.Inserted? && r.fn == fn {
      HasCallFenced(progs[idx][fn], r.id, id, c);
    }
    var c0 :| HasCall(p[fn], id, c0) && c == CalleeAfter(frames, names, idx, fn, id, c0);
    CalleeIs(frames, names, idx, fn, id, c0);
    assert CallAtTop(p, stack, idx, id, c0);
  }

  /** In this code, every call at the line of (a version of) `below` is call `id`. */
  function OnlyCall(ids: seq<nat>, below: Name, id: nat): seq<Instr> -> bool {
    (code: seq<Instr>) => forall i | i in code && i.Call? && i.id in ids && Origin(i.callee) == below :: i.id == id
  }

  lemma OnlyCallTail(ids: seq<nat>, below: Name, id: nat)
    ensures TailClosed(OnlyCall(ids, below, id))
  {
    hide Origin;
    forall code: seq<Instr> | code != [] && OnlyCall(ids, below, id)(code)
      ensures OnlyCall(ids, below, id)(code[1..]) {
      assert forall i | i in code[1..] :: i in code;
    }
  }

  lemma OnlyCallBlocks(f: Function, ids: seq<nat>, below: Name, id: nat)
    requires forall x, c: Name | HasCall(f, x, c) && x in ids && Origin(c) == below :: x == id
    ensures BlocksHave(f, OnlyCall(ids, below, id))
  {
    hide Origin;
    forall b | b in f.blocks ensures OnlyCall(ids, below, id)(b.code) {
      forall i | i in b.code && i.Call? && i.id in ids && Origin(i.callee) == below ensures i.id == id {
        assert Call(i.id, i.callee) in b.code;
        assert HasCall(f, i.id, i.callee);
      }
    }
  }

  lemma TopIsOnlyCall(s: State, line: FrameLoc, below: Name, id: nat)
    requires AtCall(s, line, below) && FramesHave(s, s.frames[|s.frames| - 1].fn, OnlyCall(line.insts, below, id))
    ensures s.frames[|s.frames| - 1].code[0].id == id
  {
    hide Origin;
    var top := s.frames[|s.frames| - 1];
    assert top in s.frames && OnlyCall(line.insts, below, id)(top.code);
    assert top.code[0] in top.code;
  }

  /** When a run is at a call at the top line, it is the fenced one if there is only one. */
  lemma AtFencedCall(p: Program, q: Program, d: PmDesc, stack: seq<Option<FrameLoc>>, idx: nat,
                     r: Outcome, progs: seq<Program>, clones: seq<Option<Name>>,
                     main: Name, input: seq<Choice>, k: nat)
    requires SourceFrames(p, stack) && AllMapped(stack, idx) && 0 < idx
    requires Subprogram(p, q, d, stack, idx, true, r, progs, clones)
    requires r.Inserted? && r.fn == stack[idx].value.fn && r.fn in p
    requires forall id, c: Name | CallAtTop(p, stack, idx, id, c) :: id == r.id
    requires Defined(q, main) && InTop(Run(q, Start(q, main, input), k), r.fn)
    requires AtCall(Run(q, Start(q, main, input), k), stack[idx].value, stack[idx - 1].value.fn)
    ensures r.fn in q && FencedCalls(q[r.fn], r.id)
    ensures var s := Run(q, Start(q, main, input), k); s.frames[|s.frames| - 1].code[0].id == r.id
  {
    hide Step, Run, Subprogram, FencedCalls, Origin, HasCall, FramesHave, BlocksHave, TailClosed, CallAtTop, OnlyCall;
    var line, below := stack[idx].value, stack[idx - 1].value.fn;
    assert stack[idx] in stack;
    FenceBehindOneCall(p, q, d, stack, idx, true, r, progs, clones, r.fn, r.id);
    forall x, c: Name | HasCall(q[r.fn], x, c) && x in line.insts && Origin(c) == below ensures x == r.id {
      CallWasThere(p, q, d, stack, idx, true, r, progs, clones, x, c);
    }
    OnlyCallTail(line.insts, below, r.id);
    OnlyCallBlocks(q[r.fn], line.insts, below, r.id);
    RunHave(q, main, input, r.fn, OnlyCall(line.insts, below, r.id), k);
    TopIsOnlyCall(Run(q, Start(q, main, input), k), line, below, r.id);
  }

  /** If the call that the fence goes behind is the only one of the function below at the top line, a raised fix with
      a fence works for every run that comes to that line: a store that is reached from there down the lines
      of the call stack is persisted when the call has returned, unless it has been overwritten. */
  lemma RaisedLinePersists(base: Program, p: Program, q: Program, d: PmDesc, stack: seq<Option<FrameLoc>>, idx: nat,
                           r: Outcome, progs: seq<Program>, clones: seq<Option<Name>>,
                           main: Name, input: seq<Choice>, id: nat, k: nat, n: nat, times: seq<nat>, b: nat)
    requires Implements(base, p) && SourceFrames(p, stack) && AllMapped(stack, idx) && 0 < idx
    requires Subprogram(p, q, d, stack, idx, true, r, progs, clones) && ClonesFlush(d, q)
    requires forall i | 0 <= i < idx :: Free(p, Frames(stack, idx), i)
    requires r.Inserted? && r.fn == stack[idx].value.fn && r.fn in p
    requires forall id, c: Name | CallAtTop(p, stack, idx, id, c) :: id == r.id
    requires Defined(q, main) && CallsAndReturns(q, Run(q, Start(q, main, input), k), r.fn, id, n)
    requires Descends(q, Run(q, Start(q, main, input), k), Frames(stack, idx), idx, times) && Sum(times) < n
    requires StoresLow(d, Run(q, Start(q, main, input), k + Sum(times)), Frames(stack, idx), b)
    requires NotOverwritten(q, Start(q, main, input), k + Sum(times), k + n, b)
    ensures P.Run(Ops(Run(q, Start(q, main, input), k + n + 1).log)).Persisted(b)
  {
    hide Step, Run, P.Run, Implements, Subprogram, ClonesFlush, Free, FencedCalls, StoresLow, NotOverwritten,
      CallsAndReturns, CallAtTop, AtCall;
    DescendsFromCall(q, Run(q, Start(q, main, input), k), Frames(stack, idx), idx, times);
    CallsFromTop(q, Run(q, Start(q, main, input), k), r.fn, id, n);
    AtFencedCall(p, q, d, stack, idx, r, progs, clones, main, input, k);
    RaisedStorePersists(base, p, q, d, stack, idx, r, progs, clones, main, input, k, n, times, b);
  }

  lemma CallsFromTop(q: Program, s: State, fn: Name, id: nat, n: nat)
    requires CallsAndReturns(q, s, fn, id, n)
    ensures InTop(s, fn) && s.frames[|s.frames| - 1].code != [] && s.frames[|s.frames| - 1].code[0].Call?
    ensures s.frames[|s.frames| - 1].code[0].id == id
  {
  }

  lemma DescendsFromCall(q: Program, s: State, frames: seq<FrameLoc>, j: nat, times: seq<nat>)
    requires 0 < j < |frames| && Descends(q, s, frames, j, times)
    ensures AtCall(s, frames[j], frames[j - 1].fn)
  {
  }
}
