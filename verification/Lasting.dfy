/**
 Step 3 of the repair (src/BugFixer.cpp:1041-1053): what comes after a raised fix in the map does not undo it. Its
 clones go on calling each other and its fence stays, so that it does in the final program what it is for. What
 came before it can stand in its way, as `Chains` and `OverlappingFixes` show.
 */
module Lasting {
  import P = Persistence
  import opened Options
  import opened Fixes
  import opened Ir
  import opened Flushing
  import opened FixGeneration
  import opened Rewriting
  import opened Application
  import opened Mapping
  import opened Chains
  import opened TopLines
  import opened Images
  import opened StepThree

  // ----- The calls at a line --------------------------------------------------------------------------------

  lemma {:induction false} FixStoreCalls(code: seq<Instr>, id: nat, flush: bool, fence: bool, j: Instr)
    requires j.Call?
    ensures j in Expand(code, FixStore(id, flush, fence)) <==> j in code
  {
    if code != [] {
      var front, i := code[..|code| - 1], code[|code| - 1];
      assert code == front + [i];
      FixStoreCalls(front, id, flush, fence, j);
      assert j in FixStore(id, flush, fence)(i) <==> j == i;
    }
  }

  lemma GoesToFixed(f: Function, id: nat, flush: bool, fence: bool, ids: seq<nat>, below: Name, target: Name)
    requires GoesTo(f, ids, below, target)
    ensures GoesTo(ExpandFunction(f, FixStore(id, flush, fence)), ids, below, target)
  {
    hide Expand, FixStore, HasCall;
    var g := ExpandFunction(f, FixStore(id, flush, fence));
    forall x, c: Name ensures HasCall(f, x, c) <==> HasCall(g, x, c) {
      HasCallIn(f, x, c);
      HasCallIn(g, x, c);
      forall k | 0 <= k < |f.blocks| ensures Call(x, c) in g.blocks[k].code <==> Call(x, c) in f.blocks[k].code {
        FixStoreCalls(f.blocks[k].code, id, flush, fence, Call(x, c));
      }
    }
    GoesToSame(f, g, ids, below, target);
  }

  lemma GoesToFenced(f: Function, id: nat, ids: seq<nat>, below: Name, target: Name)
    requires GoesTo(f, ids, below, target)
    ensures GoesTo(ExpandFunction(f, FenceCall(id)), ids, below, target)
  {
    hide ExpandFunction, HasCall;
    var g := ExpandFunction(f, FenceCall(id));
    forall x, c: Name ensures HasCall(f, x, c) <==> HasCall(g, x, c) {
      HasCallFenced(f, id, x, c);
    }
    GoesToSame(f, g, ids, below, target);
  }

  /** Redirecting calls of another function leaves the calls at a line where they go. */
  lemma GoesToRedirected(f: Function, more: seq<nat>, from: Name, to: Name, ids: seq<nat>, below: Name, target: Name)
    requires GoesTo(f, ids, below, target) && from != target && from != to && Origin(from) == Origin(to)
    ensures GoesTo(ExpandFunction(f, Redirected(more, from, to)), ids, below, target)
  {
    hide ExpandFunction, HasCall, Origin;
    var g := ExpandFunction(f, Redirected(more, from, to));
    forall x, c: Name | HasCall(g, x, c) && x in ids && Origin(c) == below ensures c == target {
      HasCallRedirected(f, more, from, to, x, c);
    }
  }

  lemma PersistentOrigin(n: Name)
    ensures Origin(Persistent(n)) == Origin(n) && Persistent(n) != n
  {
  }

  /** One level of a later fix. */
  lemma LevelKeepsGoing(p: Program, q: Program, pm: PmDesc, stack: seq<Option<FrameLoc>>, i: nat, clone: Option<Name>,
                        n: Name, ids: seq<nat>, below: Name, target: Name)
    requires Level(p, q, pm, stack, i, clone) && FramesSource(stack) && n in p && target in p && target.Clone?
    requires GoesTo(p[n], ids, below, target)
    ensures n in q && target in q && GoesTo(q[n], ids, below, target)
  {
    hide ExpandFunction, FlushedFunction, NoCalls, CallsAt, GoesTo;
    assert stack[i + 1] in stack;
    var next := stack[i + 1].value;
    if stack[i].None? {
      var c := CallsAt(p[next.fn], next.insts)[0];
      if n == next.fn && c.callee !in p {
        PersistentOrigin(c.callee);
        GoesToRedirected(p[n], [c.id], c.callee, Persistent(c.callee), ids, below, target);
      }
    } else {
      assert stack[i] in stack;
      var fn := stack[i].value.fn;
      OriginOfClone(clone.value);
      if n == next.fn {
        GoesToRedirected(p[n], next.insts, fn, clone.value, ids, below, target);
      }
    }
  }

  lemma {:induction false} LevelsKeepGoing(progs: seq<Program>, pm: PmDesc, stack: seq<Option<FrameLoc>>, idx: nat,
                                           clones: seq<Option<Name>>, k: nat, n: Name, ids: seq<nat>, below: Name,
                                           target: Name)
    requires Levels(progs, pm, stack, idx, clones) && FramesSource(stack) && k <= idx
    requires n in progs[0] && target in progs[0] && target.Clone? && GoesTo(progs[0][n], ids, below, target)
    ensures n in progs[k] && target in progs[k] && GoesTo(progs[k][n], ids, below, target)
    decreases k
  {
    hide Level, GoesTo;
    if k > 0 {
      var i := k - 1;
      LevelsKeepGoing(progs, pm, stack, idx, clones, i, n, ids, below, target);
      assert Level(progs[i], progs[i + 1], pm, stack, i, clones[i]);
      LevelKeepsGoing(progs[i], progs[k], pm, stack, i, clones[i], n, ids, below, target);
    }
  }

  lemma FixKeepsGoing(p: Program, q: Program, pm: PmDesc, fix: Fix, made: Made, n: Name, ids: seq<nat>, below: Name,
                      target: Name)
    requires Fits(p, fix) && OneFix(p, q, pm, fix, made) && n in p && target in p && target.Clone?
    requires GoesTo(p[n], ids, below, target)
    ensures n in q && target in q && GoesTo(q[n], ids, below, target)
  {
    hide ExpandFunction, Levels, Anchor, GoesTo, FixStore;
    match fix
    case InPlace(fn, id, kind) =>
      if n == fn {
        GoesToFixed(p[n], id, FlushDuty in Duties(kind), FenceDuty in Duties(kind), ids, below, target);
      }
    case Raised(stack, idx, fence) =>
      SubprogramStarts(p, q, pm, fix, made);
      LevelsLength(made.progs, pm, stack, idx, made.clones);
      LevelsKeepGoing(made.progs, pm, stack, idx, made.clones, idx, n, ids, below, target);
      if made.r.Inserted? && n == made.r.fn {
        GoesToFenced(made.progs[idx][n], made.r.id, ids, below, target);
      }
  }

  // ----- The fence behind a call ----------------------------------------------------------------------------

  lemma FixStoreKeepsFences(id: nat, flush: bool, fence: bool, call: nat)
    ensures KeepsFences(FixStore(id, flush, fence), call)
  {
  }

  lemma {:induction false} LevelsKeepFence(progs: seq<Program>, pm: PmDesc, stack: seq<Option<FrameLoc>>, idx: nat,
                                           clones: seq<Option<Name>>, k: nat, n: Name, id: nat)
    requires Levels(progs, pm, stack, idx, clones) && FramesSource(stack) && k <= idx
    requires n in progs[0] && n.Source? && FencedCalls(progs[0][n], id)
    ensures n in progs[k] && FencedCalls(progs[k][n], id)
    decreases k
  {
    hide ExpandFunction, FlushedFunction, NoCalls, CallsAt, FencedCalls;
    if k > 0 {
      var i := k - 1;
      LevelsKeepFence(progs, pm, stack, idx, clones, i, n, id);
      assert Level(progs[i], progs[i + 1], pm, stack, i, clones[i]) && stack[i + 1] in stack;
      var p, next := progs[i], stack[i + 1].value;
      if n == next.fn {
        if stack[i].None? {
          var c := CallsAt(p[next.fn], next.insts)[0];
          RedirectingKeepsFences([c.id], c.callee, Persistent(c.callee), id);
          FunctionKeepsFences(p[n], Redirected([c.id], c.callee, Persistent(c.callee)), id);
        } else {
          RedirectingKeepsFences(next.insts, stack[i].value.fn, clones[i].value, id);
          FunctionKeepsFences(p[n], Redirected(next.insts, stack[i].value.fn, clones[i].value), id);
        }
      }
    }
  }

  lemma FixKeepsFence(p: Program, q: Program, pm: PmDesc, fix: Fix, made: Made, n: Name, id: nat)
    requires Fits(p, fix) && OneFix(p, q, pm, fix, made) && n in p && n.Source? && FencedCalls(p[n], id)
    ensures n in q && FencedCalls(q[n], id)
  {
    hide ExpandFunction, Levels, Anchor, FencedCalls, FixStore;
    match fix
    case InPlace(fn, store, kind) =>
      if n == fn {
        var flush, fence := FlushDuty in Duties(kind), FenceDuty in Duties(kind);
        FixStoreKeepsFences(store, flush, fence, id);
        FunctionKeepsFences(p[n], FixStore(store, flush, fence), id);
      }
    case Raised(stack, idx, fence) =>
      SubprogramStarts(p, q, pm, fix, made);
      LevelsLength(made.progs, pm, stack, idx, made.clones);
      LevelsKeepFence(made.progs, pm, stack, idx, made.clones, idx, n, id);
      if made.r.Inserted? && n == made.r.fn {
        if made.r.id == id {
          FenceCallFencesFunction(made.progs[idx][n], id);
        } else {
          FencingKeepsFences(made.r.id, id);
          FunctionKeepsFences(made.progs[idx][n], FenceCall(made.r.id), id);
        }
      }
  }

  // ----- In the final program -------------------------------------------------------------------------------

  /** The functions of a chain are in the program: its clones and the function of the top line. */
  predicate ChainIn(p: Program, frames: seq<FrameLoc>, names: seq<Name>) {
    |frames| == |names| + 1 && frames[|names|].fn in p && forall i | 0 <= i < |names| :: names[i] in p
  }

  /** Linked clones stay linked. */
  lemma {:induction false} LinksLast(progs: seq<Program>, pm: PmDesc, fixes: seq<Fix>, made: seq<Made>,
                                     frames: seq<FrameLoc>, names: seq<Name>, i: nat, j: nat, k: nat)
    requires Applied(progs, pm, fixes, made) && j <= k <= |fixes|
    requires CloneNames(frames, names) && ChainIn(progs[j], frames, names) && i < |names|
    requires Linked(progs[j], frames, names, i)
    ensures ChainIn(progs[k], frames, names) && Linked(progs[k], frames, names, i)
    decreases k - j
  {
    hide OneFix, GoesTo, Fits;
    if j < k {
      var n := k - 1;
      LinksLast(progs, pm, fixes, made, frames, names, i, j, n);
      FitsThere(progs, pm, fixes, made, n);
      assert OneFix(progs[n], progs[n + 1], pm, fixes[n], made[n]);
      var holder := if i + 1 < |names| then names[i + 1] else frames[i + 1].fn;
      FixKeepsGoing(progs[n], progs[k], pm, fixes[n], made[n], holder, frames[i + 1].insts, frames[i].fn, names[i]);
      ChainStaysIn(progs[n], progs[k], pm, fixes[n], made[n], frames, names);
    }
  }

  lemma ChainStaysIn(p: Program, q: Program, pm: PmDesc, fix: Fix, made: Made, frames: seq<FrameLoc>, names: seq<Name>)
    requires Fits(p, fix) && OneFix(p, q, pm, fix, made) && ChainIn(p, frames, names)
    ensures ChainIn(q, frames, names)
  {
    hide OneFix, Fits, Image;
    forall n | n in p ensures n in q {
      ImageUnchanged(p[n]);
      OneFixImage(p, q, pm, fix, made, n, p[n], NOTHING);
    }
  }

  lemma {:induction false} FenceLasts(progs: seq<Program>, pm: PmDesc, fixes: seq<Fix>, made: seq<Made>, n: Name,
                                      id: nat, j: nat, k: nat)
    requires Applied(progs, pm, fixes, made) && j <= k <= |fixes|
    requires n in progs[j] && n.Source? && FencedCalls(progs[j][n], id)
    ensures n in progs[k] && FencedCalls(progs[k][n], id)
    decreases k - j
  {
    hide OneFix, FencedCalls, Fits;
    if j < k {
      var i := k - 1;
      FenceLasts(progs, pm, fixes, made, n, id, j, i);
      FitsThere(progs, pm, fixes, made, i);
      assert OneFix(progs[i], progs[i + 1], pm, fixes[i], made[i]);
      FixKeepsFence(progs[i], progs[k], pm, fixes[i], made[i], n, id);
    }
  }

  /** The lines of raised fix `j` are free when its turn comes. */
  ghost predicate FreeWhenDue(progs: seq<Program>, fixes: seq<Fix>, j: nat) {
    && j < |fixes| && j < |progs| && fixes[j].Raised? && 0 < fixes[j].idx && AllMapped(fixes[j].stack, fixes[j].idx)
    && forall i | 0 <= i < fixes[j].idx :: Free(progs[j], Frames(fixes[j].stack, fixes[j].idx), i)
  }

  /** Then its clones call each other in the final program. */
  lemma RaisedFixLasts(base: Program, progs: seq<Program>, pm: PmDesc, fixes: seq<Fix>, made: seq<Made>, j: nat)
    requires Applied(progs, pm, fixes, made) && FreeWhenDue(progs, fixes, j) && Implements(base, progs[j])
    ensures var frames, names := Frames(fixes[j].stack, fixes[j].idx), Names(made[j].clones);
            && CloneNames(frames, names) && |names| == fixes[j].idx
            && forall i | 0 <= i < |names| :: Linked(progs[|fixes|], frames, names, i)
    ensures var r := made[j].r;
            r.Inserted? && fixes[j].fence ==> r.fn in progs[|fixes|] && FencedCalls(progs[|fixes|][r.fn], r.id)
  {
    hide Implements, Free, Linked, FencedCalls, Subprogram, Fits;
    var fix, one := fixes[j], made[j];
    var frames, names := Frames(fix.stack, fix.idx), Names(one.clones);
    FitsThere(progs, pm, fixes, made, j);
    assert OneFix(progs[j], progs[j + 1], pm, fix, one);
    FitsFrames(progs[j], fix);
    SubprogramLinks(base, progs[j], progs[j + 1], pm, fix.stack, fix.idx, fix.fence, one.r, one.progs, one.clones);
    ChainIsIn(progs[j], progs[j + 1], pm, fix, one);
    forall i | 0 <= i < |names| ensures Linked(progs[|fixes|], frames, names, i) {
      LinksLast(progs, pm, fixes, made, frames, names, i, j + 1, |fixes|);
    }
    if one.r.Inserted? && fix.fence {
      AnchorFenced(progs[j], progs[j + 1], pm, fix, one);
      FenceLasts(progs, pm, fixes, made, one.r.fn, one.r.id, j + 1, |fixes|);
    }
  }

  lemma FitsFrames(p: Program, fix: Fix)
    requires Fits(p, fix) && fix.Raised?
    ensures SourceFrames(p, fix.stack)
  {
  }

  lemma AnchorFenced(p: Program, q: Program, pm: PmDesc, fix: Fix, made: Made)
    requires Fits(p, fix) && OneFix(p, q, pm, fix, made) && fix.Raised? && made.r.Inserted? && fix.fence
    ensures made.r.fn.Source? && made.r.fn in q && FencedCalls(q[made.r.fn], made.r.id)
  {
    hide Levels, Anchor, FencedCalls, ExpandFunction;
    SubprogramStarts(p, q, pm, fix, made);
    LevelsLength(made.progs, pm, fix.stack, fix.idx, made.clones);
    AnchorIsSource(made.progs, fix.stack, fix.idx);
    FenceCallFencesFunction(made.progs[fix.idx][made.r.fn], made.r.id);
  }

  lemma ChainIsIn(p: Program, q: Program, pm: PmDesc, fix: Fix, made: Made)
    requires Fits(p, fix) && OneFix(p, q, pm, fix, made) && fix.Raised? && AllMapped(fix.stack, fix.idx)
    ensures ChainIn(q, Frames(fix.stack, fix.idx), Names(made.clones))
  {
    hide Anchor, Image, ExpandFunction, Chain, ChainLevel;
    var progs, frames, names := made.progs, Frames(fix.stack, fix.idx), Names(made.clones);
    SubprogramStarts(p, q, pm, fix, made);
    LevelsLength(progs, pm, fix.stack, fix.idx, made.clones);
    assert fix.stack[fix.idx] in fix.stack;
    forall i | 0 <= i < |names| ensures names[i] in q {
      assert Level(progs[i], progs[i + 1], pm, fix.stack, i, made.clones[i]) && fix.stack[i].Some?;
      ImageUnchanged(progs[i + 1][names[i]]);
      SubprogramKeeps(p, q, pm, fix, made, i + 1, names[i], progs[i + 1][names[i]], NOTHING);
    }
    ImageUnchanged(p[frames[|names|].fn]);
    SubprogramKeeps(p, q, pm, fix, made, 0, frames[|names|].fn, p[frames[|names|].fn], NOTHING);
  }

  /** What a raised fix achieves, whatever else is in the map, if its lines are free when its turn comes: in every run
      of the final program, a store to persistent memory in the lowest function, reached from the top line down
      the lines of the call stack, is flushed, and the byte, unless it is overwritten before, is persisted at the
      next fence. */
  lemma RaisedFlushLasts(base: Program, progs: seq<Program>, pm: PmDesc, fixes: seq<Fix>, made: seq<Made>, j: nat,
                         main: Name, input: seq<Choice>, k: nat, n: nat, times: seq<nat>, b: nat)
    requires Applied(progs, pm, fixes, made) && FreeWhenDue(progs, fixes, j) && Implements(base, progs[j])
    requires ClonesFlush(pm, progs[|fixes|]) && Defined(progs[|fixes|], main)
    requires Reaches(pm, progs[|fixes|], Start(progs[|fixes|], main, input), Frames(fixes[j].stack, fixes[j].idx),
                     k, n, times, b)
    requires AtFence(Run(progs[|fixes|], Start(progs[|fixes|], main, input), k + n))
    ensures P.Run(Ops(Run(progs[|fixes|], Start(progs[|fixes|], main, input), k + n + 1).log)).Persisted(b)
  {
    hide OneFix, Fits, Free, Implements, ClonesFlush, Linked, Run, Step, P.Run, Descends, StoresLow, NotOverwritten,
      AtFence, FencedCalls;
    RaisedFixLasts(base, progs, pm, fixes, made, j);
    LinkedStoreFlushed(progs[|fixes|], pm, Frames(fixes[j].stack, fixes[j].idx), Names(made[j].clones),
                       main, input, k, n, times, b);
  }

  /** From step `k` the run goes down from the line of the top frame to a store that writes `b`, and `n` steps after
      `k` the byte is still what was stored. */
  ghost predicate Reaches(pm: PmDesc, q: Program, start: State, frames: seq<FrameLoc>, k: nat, n: nat, times: seq<nat>,
                          b: nat)
  {
    && frames != [] && InTop(Run(q, start, k), frames[|frames| - 1].fn)
    && Descends(q, Run(q, start, k), frames, |frames| - 1, times) && Sum(times) < n
    && StoresLow(pm, Run(q, start, k + Sum(times)), frames, b)
    && NotOverwritten(q, start, k + Sum(times), k + n, b)
  }

  /** And with a fence, when the run came to the fenced call, at once when this call has returned. */
  lemma RaisedFenceLasts(base: Program, progs: seq<Program>, pm: PmDesc, fixes: seq<Fix>, made: seq<Made>, j: nat,
                         main: Name, input: seq<Choice>, k: nat, n: nat, times: seq<nat>, b: nat)
    requires Applied(progs, pm, fixes, made) && FreeWhenDue(progs, fixes, j) && Implements(base, progs[j])
    requires ClonesFlush(pm, progs[|fixes|]) && Defined(progs[|fixes|], main)
    requires fixes[j].fence && made[j].r.Inserted?
    requires Reaches(pm, progs[|fixes|], Start(progs[|fixes|], main, input), Frames(fixes[j].stack, fixes[j].idx),
                     k, n, times, b)
    requires CallsAndReturns(progs[|fixes|], Run(progs[|fixes|], Start(progs[|fixes|], main, input), k),
                             made[j].r.fn, made[j].r.id, n)
    ensures P.Run(Ops(Run(progs[|fixes|], Start(progs[|fixes|], main, input), k + n + 1).log)).Persisted(b)
  {
    hide OneFix, Fits, Free, Implements, ClonesFlush, Linked, Run, Step, P.Run, Descends, StoresLow, NotOverwritten,
      AtFence, FencedCalls, LastStoreDirect, CallsAndReturns;
    var q := progs[|fixes|];
    RaisedFixLasts(base, progs, pm, fixes, made, j);
    LinkedStoreFlushed(q, pm, Frames(fixes[j].stack, fixes[j].idx), Names(made[j].clones), main, input, k, n, times, b);
    RepairedCallPersists(pm, q, main, input, made[j].r.fn, made[j].r.id, k, n, b);
  }

  // ----- In terms of the map --------------------------------------------------------------------------------

  /** These are the frames of the entry's call stack up to its own. */
  predicate FramesOfEntry(mapper: Mapper, desc: FixDesc, frames: seq<FrameLoc>) {
    && |frames| == desc.stackIdx + 1 <= |desc.dynStack|
    && forall n | 0 <= n < |frames| :: mapper.frameOf(desc.dynStack[n]) == Some(frames[n])
  }

  ghost predicate SameFences(f: Function, g: Function) {
    forall id: nat :: FencedCalls(g, id) <==> FencedCalls(f, id)
  }

  /** A raised entry of the map, if its lines are free when its turn comes: in the final program the clones of its
      frames' functions call each other, and the call that it is anchored at is fenced if its type has a fence. If
      its type has none, it fences nothing. */
  lemma RaisedEntryLasts(base: Program, progs: seq<Program>, pm: PmDesc, mapper: Mapper, m: FixMap, keys: seq<FixLoc>,
                         made: seq<Made>, i: nat, frames: seq<FrameLoc>)
    requires (forall fl | fl in keys :: fl in m) && Applied(progs, pm, FixesOf(mapper, m, keys), made) && i < |keys|
    requires m[keys[i]].kind == AddPersistCallstackOpt || m[keys[i]].kind == AddPersistCallstackOptNoFence
    requires 0 < m[keys[i]].stackIdx && FramesOfEntry(mapper, m[keys[i]], frames)
    requires Implements(base, progs[i]) && forall n | 0 <= n < |frames| - 1 :: Free(progs[i], frames, n)
    ensures exists names :: CloneNames(frames, names) &&
                            forall n | 0 <= n < |names| :: Linked(progs[|keys|], frames, names, n)
    ensures m[keys[i]].kind == AddPersistCallstackOpt ==>
              && made[i].r.Inserted? && made[i].r.fn in progs[|keys|]
              && FencedCalls(progs[|keys|][made[i].r.fn], made[i].r.id)
    ensures m[keys[i]].kind == AddPersistCallstackOptNoFence ==>
              forall fn | fn in progs[i] && fn.Source? ::
                fn in progs[i + 1] && SameFences(progs[i][fn], progs[i + 1][fn])
  {
    hide Fits, Free, Linked, Implements, Subprogram, FencedCalls;
    var fixes, desc := FixesOf(mapper, m, keys), m[keys[i]];
    var fix := fixes[i];
    assert OneFix(progs[i], progs[i + 1], pm, fix, made[i]);
    assert forall n | 0 <= n < |frames| :: fix.stack[n] == mapper.frameOf(desc.dynStack[n]);
    assert Frames(fix.stack, fix.idx) == frames;
    RaisedFixLasts(base, progs, pm, fixes, made, i);
    var names := Names(made[i].clones);
    assert CloneNames(frames, names);
    FitsThere(progs, pm, fixes, made, i);
    FitsFrames(progs[i], fix);
    if desc.kind == AddPersistCallstackOpt {
      FenceInserted(progs[i], progs[i + 1], pm, fix.stack, fix.idx, made[i]);
    } else {
      forall fn | fn in progs[i] && fn.Source?
        ensures fn in progs[i + 1] && SameFences(progs[i][fn], progs[i + 1][fn])
      {
        NoFenceAdded(progs[i], progs[i + 1], pm, fix.stack, fix.idx, made[i], fn);
      }
    }
  }

  lemma NoFenceAdded(p: Program, q: Program, pm: PmDesc, stack: seq<Option<FrameLoc>>, idx: nat, made: Made, fn: Name)
    requires SourceFrames(p, stack) && AllMapped(stack, idx) && fn in p && fn.Source?
    requires Subprogram(p, q, pm, stack, idx, false, made.r, made.progs, made.clones)
    ensures fn in q && SameFences(p[fn], q[fn])
  {
    hide SourceFrames, Subprogram, FencedCalls;
    forall id: nat ensures fn in q && (FencedCalls(q[fn], id) <==> FencedCalls(p[fn], id)) {
      FenceBehindOneCall(p, q, pm, stack, idx, false, made.r, made.progs, made.clones, fn, id);
    }
    FenceBehindOneCall(p, q, pm, stack, idx, false, made.r, made.progs, made.clones, fn, 0);
  }

  /** Every raised entry whose type has a fence puts one behind the call that it is anchored at, its lowest frame mapped
      or not, and it is there in the final program. */
  lemma EntryFenceLasts(progs: seq<Program>, pm: PmDesc, mapper: Mapper, m: FixMap, keys: seq<FixLoc>, made: seq<Made>,
                        i: nat)
    requires (forall fl | fl in keys :: fl in m) && Applied(progs, pm, FixesOf(mapper, m, keys), made) && i < |keys|
    requires m[keys[i]].kind == AddPersistCallstackOpt
    ensures made[i].r.Inserted? && made[i].r.fn in progs[|keys|]
    ensures FencedCalls(progs[|keys|][made[i].r.fn], made[i].r.id)
  {
    hide Fits, Subprogram, FencedCalls;
    var fixes := FixesOf(mapper, m, keys);
    var fix, one := fixes[i], made[i];
    assert OneFix(progs[i], progs[i + 1], pm, fix, one);
    FitsThere(progs, pm, fixes, made, i);
    FenceInserted(progs[i], progs[i + 1], pm, fix.stack, fix.idx, one);
    AnchorFenced(progs[i], progs[i + 1], pm, fix, one);
    FenceLasts(progs, pm, fixes, made, one.r.fn, one.r.id, i + 1, |fixes|);
  }

  /** A raised entry for a store in a library, at the call of a function that the program does not have: this call is
      what it is anchored at, and goes to the persistent version. */
  lemma LibraryEntryDone(p: Program, q: Program, pm: PmDesc, mapper: Mapper, fl: FixLoc, desc: FixDesc, made: Made,
                         line: FrameLoc, c: Instr)
    requires EntryDone(p, q, pm, mapper, fl, desc, made) && desc.kind.Subprogram()
    requires desc.stackIdx == 1 < |desc.dynStack|
    requires mapper.frameOf(desc.dynStack[0]) == None && mapper.frameOf(desc.dynStack[1]) == Some(line)
    requires line.fn in p && CallsAt(p[line.fn], line.insts) == [c] && c.Call? && c.callee !in p
    ensures made.r == Inserted(line.fn, c.id) && line.fn in q
    ensures HasCall(q[line.fn], c.id, Persistent(c.callee)) && !HasCall(q[line.fn], c.id, c.callee)
    ensures desc.kind == AddPersistCallstackOpt ==> FencedCalls(q[line.fn], c.id)
  {
    hide HasCall, CallsAt, FencedCalls, ExpandFunction, Redirected, FenceCall;
    var f := p[line.fn];
    LibraryCallRedirected(f, line.insts, c);
    var g := ExpandFunction(f, Redirected([c.id], c.callee, Persistent(c.callee)));
    HasCallFenced(g, c.id, c.id, c.callee);
    HasCallFenced(g, c.id, c.id, Persistent(c.callee));
    FenceCallFencesFunction(g, c.id);
    var progs := made.progs;
    assert Level(progs[0], progs[1], pm, [None, Some(line)], 0, made.clones[0]);
    assert progs[1] == p[line.fn := g];
  }

  lemma LibraryCallRedirected(f: Function, ids: seq<nat>, c: Instr)
    requires CallsAt(f, ids) == [c] && c.Call?
    ensures var g := ExpandFunction(f, Redirected([c.id], c.callee, Persistent(c.callee)));
            HasCall(g, c.id, Persistent(c.callee)) && !HasCall(g, c.id, c.callee)
  {
    hide CallsAt, ExpandFunction;
    assert c in CallsAt(f, ids);
    CallsAtMeaning(f, ids, c);
    assert HasCall(f, c.id, c.callee);
    PersistentOrigin(c.callee);
    HasCallRedirected(f, [c.id], c.callee, Persistent(c.callee), c.id, c.callee);
    HasCallRedirected(f, [c.id], c.callee, Persistent(c.callee), c.id, Persistent(c.callee));
  }

  lemma FenceInserted(p: Program, q: Program, pm: PmDesc, stack: seq<Option<FrameLoc>>, idx: nat, made: Made)
    requires Subprogram(p, q, pm, stack, idx, true, made.r, made.progs, made.clones)
    ensures made.r.Inserted?
  {
  }

  /** An entry that stays in place, if it is the only one for its store: behind each copy of the store that the function
      has in the final program stand the flush and the fence that its type has, and nothing else that was added. */
  lemma InPlaceEntryLasts(progs: seq<Program>, pm: PmDesc, mapper: Mapper, m: FixMap, keys: seq<FixLoc>,
                          made: seq<Made>, i: nat, fn: Name, id: nat)
    requires (forall fl | fl in keys :: fl in m) && Applied(progs, pm, FixesOf(mapper, m, keys), made) && i < |keys|
    requires m[keys[i]].kind.Primitive() && mapper.instOf(keys[i].first) == (fn, id)
    requires forall j | 0 <= j < |keys| && m[keys[j]].kind.Primitive() && mapper.instOf(keys[j].first) == (fn, id) ::
               j == i
    requires fn in progs[0] && PlainFunction(progs[0][fn])
    ensures fn in progs[|keys|]
    ensures forall b, k | b in progs[|keys|][fn].blocks && 0 <= k < |b.code| && IsStore(b.code[k], id) ::
              RepairRun(b.code[k + 1..])
              == (if FlushDuty in Duties(m[keys[i]].kind) then [Flush(b.code[k].ptr, true)] else [])
                 + (if FenceDuty in Duties(m[keys[i]].kind) then [Fence(true)] else [])
  {
    hide OneFix, Image, PutBehind, RepairRun;
    var fixes, kind := FixesOf(mapper, m, keys), m[keys[i]].kind;
    assert Fits(progs[0], fixes[i]);
    FitFixesPrimitive(progs, pm, fixes, made);
    SourceImage(progs, pm, fixes, made, |fixes|, fn);
    assert fixes[..|fixes|] == fixes;
    RunsOfStores(progs[0][fn], progs[|keys|][fn], PutIn(fixes, fn), id);
    forall j | 0 <= j < |fixes| && fixes[j].InPlace? && fixes[j].fn == fn && fixes[j].id == id ensures j == i {
      assert fixes[j].kind.Primitive();
    }
    forall b, k | b in progs[|keys|][fn].blocks && 0 <= k < |b.code| && IsStore(b.code[k], id)
      ensures RepairRun(b.code[k + 1..])
              == (if FlushDuty in Duties(kind) then [Flush(b.code[k].ptr, true)] else [])
                 + (if FenceDuty in Duties(kind) then [Fence(true)] else [])
    {
      assert RunsAre(b.code, id, PutIn(fixes, fn));
      PutOnce(fixes, i, fn, id, b.code[k].ptr);
      BehindIs(kind, b.code[k].ptr);
    }
  }

  lemma BehindIs(kind: FixType, ptr: nat)
    requires kind.Primitive()
    ensures Behind(kind, ptr) == (if FlushDuty in Duties(kind) then [Flush(ptr, true)] else [])
                                 + (if FenceDuty in Duties(kind) then [Fence(true)] else [])
  {
    assert [Flush(ptr, true)] + [] == [Flush(ptr, true)];
  }
}
