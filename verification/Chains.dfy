/**
 What a persistent subprogram achieves (src/FixGenerator.cpp:496-665): when the clones of a call stack call each
 other, and that a store reached through them is persisted behind the fence.
 */
module Chains {
  import P = Persistence
  import opened Options
  import opened Ir
  import opened Flushing
  import opened FixGeneration
  import opened Rewriting

  // ----- Calls before and after a change ------------------------------------------------------------------

  lemma {:induction false} RedirectedCode(code: seq<Instr>, ids: seq<nat>, from: Name, to: Name, id: nat, c: Name)
    requires from != to
    ensures Call(id, c) in Expand(code, Redirected(ids, from, to)) <==>
              || (Call(id, c) in code && !(c == from && id in ids))
              || (c == to && id in ids && Call(id, from) in code)
  {
    if code != [] {
      var front, i := code[..|code| - 1], code[|code| - 1];
      assert code == front + [i];
      RedirectedCode(front, ids, from, to, id, c);
    }
  }

  lemma HasCallIn(f: Function, id: nat, c: Name)
    ensures HasCall(f, id, c) <==> exists k :: 0 <= k < |f.blocks| && Call(id, c) in f.blocks[k].code
  {
    if HasCall(f, id, c) {
      var b :| b in f.blocks && Call(id, c) in b.code;
      var k :| 0 <= k < |f.blocks| && f.blocks[k] == b;
      assert Call(id, c) in f.blocks[k].code;
    }
  }

  lemma HasCallRedirected(f: Function, ids: seq<nat>, from: Name, to: Name, id: nat, c: Name)
    requires from != to
    ensures HasCall(ExpandFunction(f, Redirected(ids, from, to)), id, c) <==>
              || (HasCall(f, id, c) && !(c == from && id in ids))
              || (c == to && id in ids && HasCall(f, id, from))
  {
    hide HasCall, Expand;
    var g := ExpandFunction(f, Redirected(ids, from, to));
    HasCallIn(f, id, c);
    HasCallIn(f, id, from);
    HasCallIn(g, id, c);
    forall k | 0 <= k < |f.blocks|
      ensures Call(id, c) in g.blocks[k].code <==>
                || (Call(id, c) in f.blocks[k].code && !(c == from && id in ids))
                || (c == to && id in ids && Call(id, from) in f.blocks[k].code)
    {
      RedirectedCode(f.blocks[k].code, ids, from, to, id, c);
    }
  }

  lemma HasCallFlushed(f: Function, pm: PmDesc, fn: Name, id: nat, c: Name)
    ensures HasCall(ExpandFunction(f, FlushAll(pm, fn)), id, c) <==> HasCall(f, id, c)
  {
    hide HasCall, Expand;
    var g := ExpandFunction(f, FlushAll(pm, fn));
    HasCallIn(f, id, c);
    HasCallIn(g, id, c);
    forall k | 0 <= k < |f.blocks| ensures Call(id, c) in g.blocks[k].code <==> Call(id, c) in f.blocks[k].code {
      FlushAllKeepsCalls(f.blocks[k].code, pm, fn, Call(id, c));
    }
  }

  lemma HasCallFenced(f: Function, fenced: nat, id: nat, c: Name)
    ensures HasCall(ExpandFunction(f, FenceCall(fenced)), id, c) <==> HasCall(f, id, c)
  {
    hide HasCall, Expand;
    var g := ExpandFunction(f, FenceCall(fenced));
    HasCallIn(f, id, c);
    HasCallIn(g, id, c);
    forall k | 0 <= k < |f.blocks| ensures Call(id, c) in g.blocks[k].code <==> Call(id, c) in f.blocks[k].code {
      FenceCallKeepsCalls(f.blocks[k].code, fenced, Call(id, c));
    }
  }

  // ----- Levels over mapped frames ------------------------------------------------------------------------

  /** The levels of a call stack whose frames are all mapped: `names` are the clones, lowest first. */
  ghost predicate Chain(progs: seq<Program>, pm: PmDesc, frames: seq<FrameLoc>, names: seq<Name>) {
    && |progs| == |frames| == |names| + 1
    && (forall i | 0 <= i < |frames| :: frames[i].fn.Source? && frames[i].fn in progs[0])
    && forall i | 0 <= i < |names| :: ChainLevel(progs[i], progs[i + 1], pm, frames, names, i)
  }

  ghost predicate ChainLevel(p: Program, q: Program, pm: PmDesc, frames: seq<FrameLoc>, names: seq<Name>, i: nat)
    requires i < |names| && |frames| == |names| + 1
  {
    names[i].Clone? && names[i].base == frames[i].fn && OneLevel(p, q, pm, frames[i].fn, frames[i + 1], names[i])
  }

  function Frames(stack: seq<Option<FrameLoc>>, idx: nat): seq<FrameLoc>
    requires AllMapped(stack, idx)
  {
    seq(idx + 1, i requires 0 <= i <= idx => stack[i].value)
  }

  function Names(clones: seq<Option<Name>>): seq<Name> {
    seq(|clones|, i requires 0 <= i < |clones| => if clones[i].Some? then clones[i].value else Source(""))
  }

  lemma ChainOfLevels(progs: seq<Program>, pm: PmDesc, stack: seq<Option<FrameLoc>>, idx: nat,
                      clones: seq<Option<Name>>)
    requires Levels(progs, pm, stack, idx, clones) && AllMapped(stack, idx) && SourceFrames(progs[0], stack)
    ensures Chain(progs, pm, Frames(stack, idx), Names(clones))
  {
    hide OneLevel;
    var frames, names := Frames(stack, idx), Names(clones);
    forall i | 0 <= i < |frames| ensures frames[i].fn.Source? && frames[i].fn in progs[0] {
      assert stack[i] in stack;
    }
    forall i | 0 <= i < |names| ensures ChainLevel(progs[i], progs[i + 1], pm, frames, names, i) {
      assert Level(progs[i], progs[i + 1], pm, stack, i, clones[i]);
      assert stack[i + 1].Some?;
    }
  }

  // ----- Following one call through the levels ------------------------------------------------------------

  /** Level `j` redirects calls `id` of `callee` in `fn`. */
  predicate Redirects(frames: seq<FrameLoc>, j: nat, fn: Name, id: nat, callee: Name)
    requires j + 1 < |frames|
  {
    frames[j + 1].fn == fn && id in frames[j + 1].insts && callee == frames[j].fn
  }

  /** Where a call of a source function goes after `k` levels. */
  function CalleeAfter(frames: seq<FrameLoc>, names: seq<Name>, k: nat, fn: Name, id: nat, callee: Name): Name
    requires k <= |names| && |frames| == |names| + 1
  {
    if k == 0 then callee
    else
      var before := CalleeAfter(frames, names, k - 1, fn, id, callee);
      if Redirects(frames, k - 1, fn, id, before) then names[k - 1] else before
  }

  /** Some call `id` of `f` went to a callee that is `c` after `k` levels. */
  ghost predicate CameFrom(f: Function, frames: seq<FrameLoc>, names: seq<Name>, k: nat, fn: Name, id: nat, c: Name)
    requires k <= |names| && |frames| == |names| + 1
  {
    exists c0 :: HasCall(f, id, c0) && c == CalleeAfter(frames, names, k, fn, id, c0)
  }

  lemma LevelChanges(p: Program, q: Program, pm: PmDesc, frames: seq<FrameLoc>, names: seq<Name>, i: nat, fn: Name)
    requires i < |names| && |frames| == |names| + 1 && ChainLevel(p, q, pm, frames, names, i)
    requires frames[i].fn.Source? && frames[i + 1].fn.Source? && fn in p
    ensures fn in q && names[i] !in p && names[i] in q && frames[i].fn in p && frames[i + 1].fn in p
    ensures fn.Source? ==> q[fn] == if fn == frames[i + 1].fn
                                    then ExpandFunction(p[fn], Redirected(frames[i + 1].insts, frames[i].fn, names[i]))
                                    else p[fn]
    ensures !fn.Source? ==> q[fn] == p[fn]
    ensures q[names[i]] == ExpandFunction(p[frames[i].fn], FlushAll(pm, names[i]))
  {
    hide FlushedFunction, NoCalls, ExpandFunction;
  }

  lemma {:induction false} KeysGrow(progs: seq<Program>, pm: PmDesc, frames: seq<FrameLoc>, names: seq<Name>, j: nat,
                                    k: nat, fn: Name)
    requires Chain(progs, pm, frames, names) && j <= k < |progs| && fn in progs[j]
    ensures fn in progs[k] && (!fn.Source? ==> progs[k][fn] == progs[j][fn])
    decreases k - j
  {
    hide ChainLevel;
    if j < k {
      KeysGrow(progs, pm, frames, names, j, k - 1, fn);
      var i := k - 1;
      assert ChainLevel(progs[i], progs[i + 1], pm, frames, names, i);
      LevelChanges(progs[i], progs[i + 1], pm, frames, names, i, fn);
    }
  }

  /** The calls of a source function after `k` levels are its calls before, each redirected as it should. */
  lemma {:induction false} Tracked(progs: seq<Program>, pm: PmDesc, frames: seq<FrameLoc>, names: seq<Name>, k: nat,
                                   fn: Name, id: nat, c: Name)
    requires Chain(progs, pm, frames, names) && k < |progs| && fn in progs[0] && fn.Source?
    ensures fn in progs[k] && (HasCall(progs[k][fn], id, c) <==> CameFrom(progs[0][fn], frames, names, k, fn, id, c))
    decreases k
  {
    hide ChainLevel, HasCall, ExpandFunction, CameFrom;
    KeysGrow(progs, pm, frames, names, 0, k, fn);
    if k == 0 {
      CameFromStart(progs[0][fn], frames, names, fn, id, c);
    } else {
      var i := k - 1;
      var from, to := frames[i].fn, names[i];
      assert ChainLevel(progs[i], progs[i + 1], pm, frames, names, i);
      assert from != to by {
        assert from.Source?;
        CloneName(progs[i], progs[i + 1], pm, frames, names, i);
      }
      Tracked(progs, pm, frames, names, i, fn, id, c);
      Tracked(progs, pm, frames, names, i, fn, id, from);
      LevelChanges(progs[i], progs[i + 1], pm, frames, names, i, fn);
      CameFromNext(progs[0][fn], frames, names, i, fn, id, c);
      if fn == frames[k].fn {
        HasCallRedirected(progs[i][fn], frames[k].insts, from, to, id, c);
      }
    }
  }

  lemma CloneName(p: Program, q: Program, pm: PmDesc, frames: seq<FrameLoc>, names: seq<Name>, i: nat)
    requires i < |names| && |frames| == |names| + 1 && ChainLevel(p, q, pm, frames, names, i)
    ensures names[i].Clone? && names[i].base == frames[i].fn
  {
  }

  lemma CameFromStart(f: Function, frames: seq<FrameLoc>, names: seq<Name>, fn: Name, id: nat, c: Name)
    requires |frames| == |names| + 1
    ensures CameFrom(f, frames, names, 0, fn, id, c) <==> HasCall(f, id, c)
  {
    hide HasCall;
    if HasCall(f, id, c) {
      assert c == CalleeAfter(frames, names, 0, fn, id, c);
    }
  }

  lemma CameFromNext(f: Function, frames: seq<FrameLoc>, names: seq<Name>, i: nat, fn: Name, id: nat, c: Name)
    requires i < |names| && |frames| == |names| + 1
    ensures CameFrom(f, frames, names, i + 1, fn, id, c) <==>
              || (CameFrom(f, frames, names, i, fn, id, c) && !Redirects(frames, i, fn, id, c))
              || (c == names[i] && Redirects(frames, i, fn, id, frames[i].fn)
                && CameFrom(f, frames, names, i, fn, id, frames[i].fn))
  {
    hide HasCall;
    if CameFrom(f, frames, names, i + 1, fn, id, c) {
      var c0 :| HasCall(f, id, c0) && c == CalleeAfter(frames, names, i + 1, fn, id, c0);
      var before := CalleeAfter(frames, names, i, fn, id, c0);
      assert CameFrom(f, frames, names, i, fn, id, before);
    }
    if CameFrom(f, frames, names, i, fn, id, c) && !Redirects(frames, i, fn, id, c) {
      var c0 :| HasCall(f, id, c0) && c == CalleeAfter(frames, names, i, fn, id, c0);
      assert c == CalleeAfter(frames, names, i + 1, fn, id, c0);
    }
    if c == names[i] && Redirects(frames, i, fn, id, frames[i].fn)
      && CameFrom(f, frames, names, i, fn, id, frames[i].fn) {
      var c0 :| HasCall(f, id, c0) && frames[i].fn == CalleeAfter(frames, names, i, fn, id, c0);
      assert c == CalleeAfter(frames, names, i + 1, fn, id, c0);
    }
  }

  // ----- When the chain holds -----------------------------------------------------------------------------

  /** Every call in `f` at the given instructions of (a version of) `below` goes to `target`. */
  ghost predicate GoesTo(f: Function, ids: seq<nat>, below: Name, target: Name) {
    forall id, c: Name | HasCall(f, id, c) && id in ids && Origin(c) == below :: c == target
  }

  /** Where the calls at the line of frame `i + 1` end up: in the clone of its function or, at the top, in the
      function itself. */
  ghost predicate Linked(q: Program, frames: seq<FrameLoc>, names: seq<Name>, i: nat)
    requires i < |names| && |frames| == |names| + 1
  {
    var holder := if i + 1 < |names| then names[i + 1] else frames[i + 1].fn;
    holder in q && GoesTo(q[holder], frames[i + 1].insts, frames[i].fn, names[i])
  }

  /** When the fix starts, the calls at the line of frame `i + 1` of the function of frame `i` go to that function
      itself and not to a clone, and no lower level redirects them. */
  ghost predicate Free(p: Program, frames: seq<FrameLoc>, i: nat)
    requires i + 1 < |frames|
  {
    var fn := frames[i + 1].fn;
    fn in p && forall id, c: Name | HasCall(p[fn], id, c) && id in frames[i + 1].insts && Origin(c) == frames[i].fn ::
      c == frames[i].fn && !TakenBelow(frames, i, fn, id, c)
  }

  ghost predicate TakenBelow(frames: seq<FrameLoc>, i: nat, fn: Name, id: nat, c: Name)
    requires i < |frames|
  {
    exists j :: 0 <= j < i && Redirects(frames, j, fn, id, c)
  }

  /** A call goes where it went, or, if a level redirects it, to the clone of the first such level. */
  lemma {:induction false} CalleeIs(frames: seq<FrameLoc>, names: seq<Name>, k: nat, fn: Name, id: nat, c: Name)
    requires k <= |names| && |frames| == |names| + 1
    requires forall i | 0 <= i < |frames| :: frames[i].fn.Source?
    requires forall i | 0 <= i < |names| :: names[i].Clone? && names[i].base == frames[i].fn
    ensures var e := CalleeAfter(frames, names, k, fn, id, c);
            && Origin(e) == Origin(c)
            && (TakenBelow(frames, k, fn, id, c) ==> exists j :: 0 <= j < k && e == names[j])
            && (!TakenBelow(frames, k, fn, id, c) ==> e == c)
  {
    hide Origin;
    if k != 0 {
      CalleeIs(frames, names, k - 1, fn, id, c);
      TakenNext(frames, k - 1, fn, id, c);
      OriginOfClone(names[k - 1]);
      OriginOfSource(frames[k - 1].fn);
    }
  }

  lemma TakenNext(frames: seq<FrameLoc>, i: nat, fn: Name, id: nat, c: Name)
    requires i + 1 < |frames|
    ensures TakenBelow(frames, i + 1, fn, id, c)
            <==> TakenBelow(frames, i, fn, id, c) || Redirects(frames, i, fn, id, c)
  {
    hide Redirects;
  }

  lemma OriginOfClone(n: Name)
    requires n.Clone?
    ensures Origin(n) == Origin(n.base)
  {
  }

  lemma OriginOfSource(n: Name)
    requires n.Source?
    ensures Origin(n) == n
  {
  }

  /** Clones are new, and no two are the same. */
  lemma NamesDistinct(progs: seq<Program>, pm: PmDesc, frames: seq<FrameLoc>, names: seq<Name>, j: nat, i: nat)
    requires Chain(progs, pm, frames, names) && j <= i < |names|
    ensures names[i] !in progs[j] && (j < i ==> names[j] != names[i])
  {
    hide ChainLevel;
    assert ChainLevel(progs[i], progs[i + 1], pm, frames, names, i)
      && ChainLevel(progs[j], progs[j + 1], pm, frames, names, j);
    LevelChanges(progs[i], progs[i + 1], pm, frames, names, i, frames[i].fn) by {
      KeysGrow(progs, pm, frames, names, 0, i, frames[i].fn);
    }
    LevelChanges(progs[j], progs[j + 1], pm, frames, names, j, frames[j].fn) by {
      KeysGrow(progs, pm, frames, names, 0, j, frames[j].fn);
    }
    if names[i] in progs[j] {
      KeysGrow(progs, pm, frames, names, j, i, names[i]);
    }
    if j < i && names[j] == names[i] {
      KeysGrow(progs, pm, frames, names, j + 1, i, names[j]);
    }
  }

  lemma CalleeKnown(base: Program, p: Program, fn: Name, id: nat, c: Name)
    requires Implements(base, p) && fn in p && HasCall(p[fn], id, c) && Origin(c) in p && Origin(c).Source?
    ensures c in p
  {
    var b :| b in p[fn].blocks && Call(id, c) in b.code;
    assert CallsMatch(base, p, b.code);
    OriginOfSource(Origin(c));
  }

  lemma ChainNames(progs: seq<Program>, pm: PmDesc, frames: seq<FrameLoc>, names: seq<Name>)
    requires Chain(progs, pm, frames, names)
    ensures forall i | 0 <= i < |frames| :: frames[i].fn.Source? && frames[i].fn in progs[0]
    ensures forall i | 0 <= i < |names| :: names[i].Clone? && names[i].base == frames[i].fn
  {
    forall i | 0 <= i < |names| ensures names[i].Clone? && names[i].base == frames[i].fn {
      assert ChainLevel(progs[i], progs[i + 1], pm, frames, names, i);
    }
  }

  /** One call at the line: level `i` sends it to its clone exactly when nothing has redirected it before. */
  lemma CallLinkedIff(base: Program, progs: seq<Program>, pm: PmDesc, frames: seq<FrameLoc>, names: seq<Name>, i: nat,
                      id: nat, c: Name)
    requires Chain(progs, pm, frames, names) && Implements(base, progs[0]) && i < |names|
    requires frames[i + 1].fn in progs[0] && HasCall(progs[0][frames[i + 1].fn], id, c)
    requires id in frames[i + 1].insts && Origin(c) == frames[i].fn
    ensures CalleeAfter(frames, names, i + 1, frames[i + 1].fn, id, c) == names[i]
            <==> c == frames[i].fn && !TakenBelow(frames, i, frames[i + 1].fn, id, c)
  {
    hide Chain, Implements, HasCall, TakenBelow, Origin;
    ChainLength(progs, pm, frames, names);
    var fn := frames[i + 1].fn;
    ChainNames(progs, pm, frames, names);
    CalleeIs(frames, names, i, fn, id, c);
    var e := CalleeAfter(frames, names, i, fn, id, c);
    if TakenBelow(frames, i, fn, id, c) {
      var j :| 0 <= j < i && e == names[j];
      NamesDistinct(progs, pm, frames, names, j, i);
    } else if c != frames[i].fn {
      CalleeKnown(base, progs[0], fn, id, c);
      NamesDistinct(progs, pm, frames, names, 0, i);
    }
  }

  lemma LineIff(base: Program, progs: seq<Program>, pm: PmDesc, frames: seq<FrameLoc>, names: seq<Name>, i: nat)
    requires Chain(progs, pm, frames, names) && Implements(base, progs[0]) && i < |names|
    ensures frames[i + 1].fn in progs[0] && frames[i + 1].fn in progs[i + 1]
    ensures GoesTo(progs[i + 1][frames[i + 1].fn], frames[i + 1].insts, frames[i].fn, names[i])
            <==> Free(progs[0], frames, i)
  {
    hide Chain, Implements, HasCall, TakenBelow, Origin, CalleeAfter;
    ChainLength(progs, pm, frames, names);
    var fn, ids, below, k := frames[i + 1].fn, frames[i + 1].insts, frames[i].fn, i + 1;
    ChainNames(progs, pm, frames, names);
    KeysGrow(progs, pm, frames, names, 0, k, fn);
    var start, after := progs[0][fn], progs[k][fn];
    forall id, c: Name ensures HasCall(after, id, c) <==> CameFrom(start, frames, names, k, fn, id, c) {
      Tracked(progs, pm, frames, names, k, fn, id, c);
    }
    forall id, c: Name | HasCall(start, id, c)
      ensures Origin(CalleeAfter(frames, names, k, fn, id, c)) == Origin(c)
      ensures CameFrom(start, frames, names, k, fn, id, CalleeAfter(frames, names, k, fn, id, c))
      ensures id in ids && Origin(c) == below ==>
                (CalleeAfter(frames, names, k, fn, id, c) == names[i] <==>
                 c == below && !TakenBelow(frames, i, fn, id, c))
    {
      CalleeIs(frames, names, k, fn, id, c);
      if id in ids && Origin(c) == below {
        CallLinkedIff(base, progs, pm, frames, names, i, id, c);
      }
    }
    if Free(progs[0], frames, i) {
      forall id, c: Name | HasCall(after, id, c) && id in ids && Origin(c) == below ensures c == names[i] {
        var c0 :| HasCall(start, id, c0) && c == CalleeAfter(frames, names, k, fn, id, c0);
      }
    }
    if GoesTo(after, ids, below, names[i]) {
      forall id, c: Name | HasCall(start, id, c) && id in ids && Origin(c) == below
        ensures c == below && !TakenBelow(frames, i, fn, id, c)
      {
        assert HasCall(after, id, CalleeAfter(frames, names, k, fn, id, c));
      }
    }
  }

  /** What stands in the clone of level `i`, for good: the function as it was at that level, flushing. */
  lemma CloneStands(progs: seq<Program>, pm: PmDesc, frames: seq<FrameLoc>, names: seq<Name>, i: nat, k: nat, id: nat,
                    c: Name)
    requires Chain(progs, pm, frames, names) && i < |names| && i < k < |progs|
    ensures frames[i].fn in progs[i] && names[i] in progs[k]
    ensures HasCall(progs[k][names[i]], id, c) <==> HasCall(progs[i][frames[i].fn], id, c)
  {
    hide HasCall, ExpandFunction, ChainLevel;
    assert ChainLevel(progs[i], progs[i + 1], pm, frames, names, i);
    CloneName(progs[i], progs[i + 1], pm, frames, names, i);
    KeysGrow(progs, pm, frames, names, 0, i, frames[i].fn);
    LevelChanges(progs[i], progs[i + 1], pm, frames, names, i, frames[i].fn);
    KeysGrow(progs, pm, frames, names, i + 1, k, names[i]);
    HasCallFlushed(progs[i][frames[i].fn], pm, names[i], id, c);
  }

  /** When the clones of a call stack call each other: each call at the line of a frame goes to the clone of the
      next lower frame exactly when, at the start, it goes to no clone yet, and no lower level of the same
      fix takes it. */
  lemma ChainIff(base: Program, progs: seq<Program>, pm: PmDesc, frames: seq<FrameLoc>, names: seq<Name>, i: nat)
    requires Chain(progs, pm, frames, names) && Implements(base, progs[0]) && i < |names|
    ensures |progs| == |frames| == |names| + 1
    ensures Linked(progs[|names|], frames, names, i) <==> Free(progs[0], frames, i)
  {
    hide Chain, Implements, HasCall, Free, GoesTo;
    ChainLength(progs, pm, frames, names);
    LineIff(base, progs, pm, frames, names, i);
    var k, n := i + 1, |names|;
    if k < n {
      CloneStands(progs, pm, frames, names, k, n, 0, Source(""));
      var f, g := progs[k][frames[k].fn], progs[n][names[k]];
      forall id, c: Name ensures HasCall(f, id, c) <==> HasCall(g, id, c) {
        CloneStands(progs, pm, frames, names, k, n, id, c);
      }
      GoesToSame(f, g, frames[k].insts, frames[i].fn, names[i]);
    }
  }

  lemma ChainLength(progs: seq<Program>, pm: PmDesc, frames: seq<FrameLoc>, names: seq<Name>)
    requires Chain(progs, pm, frames, names)
    ensures |progs| == |frames| == |names| + 1
  {
  }

  lemma GoesToSame(f: Function, g: Function, ids: seq<nat>, below: Name, target: Name)
    requires forall id, c: Name :: HasCall(f, id, c) <==> HasCall(g, id, c)
    ensures GoesTo(f, ids, below, target) <==> GoesTo(g, ids, below, target)
  {
    hide HasCall, Origin;
  }

  /** The fence of the fix leaves the chain as it is. */
  lemma FenceKeepsLinked(p: Program, frames: seq<FrameLoc>, names: seq<Name>, i: nat, fn: Name, fenced: nat)
    requires i < |names| && |frames| == |names| + 1 && fn in p
    ensures Linked(p[fn := ExpandFunction(p[fn], FenceCall(fenced))], frames, names, i) <==> Linked(p, frames, names, i)
  {
    hide HasCall, ExpandFunction, GoesTo;
    forall id, c: Name ensures HasCall(ExpandFunction(p[fn], FenceCall(fenced)), id, c) <==> HasCall(p[fn], id, c) {
      HasCallFenced(p[fn], fenced, id, c);
    }
    GoesToSame(ExpandFunction(p[fn], FenceCall(fenced)), p[fn], frames[i + 1].insts, frames[i].fn, names[i]);
  }

  /** The same for the outcome of the rewriting as a whole. */
  lemma SubprogramLinkedIff(base: Program, p: Program, q: Program, pm: PmDesc, stack: seq<Option<FrameLoc>>, idx: nat,
                            addFence: bool, r: Outcome, progs: seq<Program>, clones: seq<Option<Name>>, i: nat)
    requires Implements(base, p) && SourceFrames(p, stack) && AllMapped(stack, idx) && i < idx
    requires Subprogram(p, q, pm, stack, idx, addFence, r, progs, clones)
    ensures |Names(clones)| == idx
    ensures Linked(q, Frames(stack, idx), Names(clones), i) <==> Free(p, Frames(stack, idx), i)
  {
    hide Implements, Levels, Anchor, Linked, Free, Chain;
    LevelsLength(progs, pm, stack, idx, clones);
    ChainOfLevels(progs, pm, stack, idx, clones);
    ChainIff(base, progs, pm, Frames(stack, idx), Names(clones), i);
    if addFence && r.Inserted? {
      FenceKeepsLinked(progs[idx], Frames(stack, idx), Names(clones), i, r.fn, r.id);
    }
  }

  lemma LevelsLength(progs: seq<Program>, pm: PmDesc, stack: seq<Option<FrameLoc>>, n: nat, clones: seq<Option<Name>>)
    requires Levels(progs, pm, stack, n, clones)
    ensures |progs| == n + 1 && |clones| == n
  {
  }

  // ----- Which call the fence goes behind -------------------------------------------------------------------

  lemma CallsAtHas(f: Function, ids: seq<nat>, id: nat, c: Name)
    ensures Call(id, c) in CallsAt(f, ids) <==> id in ids && HasCall(f, id, c)
  {
    CallsAtMeaning(f, ids, Call(id, c));
  }

  /** A level redirects a call exactly when some call at its line goes to the function itself. */
  lemma LevelCallIff(p: Program, stack: seq<Option<FrameLoc>>, i: nat)
    requires i + 1 < |stack| && stack[i].Some? && stack[i + 1].Some? && stack[i + 1].value.fn in p
    ensures var f, ids, below := p[stack[i + 1].value.fn], stack[i + 1].value.insts, stack[i].value.fn;
            && (LevelCall(p, stack, i).Some?
              ==> LevelCall(p, stack, i).value in ids && HasCall(f, LevelCall(p, stack, i).value, below))
            && (LevelCall(p, stack, i).Some? <==> exists id :: id in ids && HasCall(f, id, below))
  {
    hide CallsAt, HasCall, LastCall;
    var f, ids, below := p[stack[i + 1].value.fn], stack[i + 1].value.insts, stack[i].value.fn;
    var calls := CallsAt(f, ids);
    if LevelCall(p, stack, i).Some? {
      LastCallIn(calls, below);
      CallsAtHas(f, ids, LevelCall(p, stack, i).value, below);
    }
    if id :| id in ids && HasCall(f, id, below) {
      CallsAtHas(f, ids, id, below);
      LastCallFound(calls, Call(id, below));
    }
  }

  lemma {:induction false} AnchorStays(progs: seq<Program>, stack: seq<Option<FrameLoc>>, j: nat, n: nat)
    requires j <= n <= |progs| && Anchor(progs, stack, j).Some?
    ensures Anchor(progs, stack, n).Some?
    decreases n - j
  {
    hide LevelCall;
    if j < n {
      AnchorStays(progs, stack, j, n - 1);
    }
  }

  /** Some call at the line of frame `i + 1` goes to the function of frame `i` itself when the fix starts. */
  ghost predicate CallsDirectly(p: Program, frames: seq<FrameLoc>, i: nat)
    requires i + 1 < |frames|
  {
    frames[i + 1].fn in p && HasCallAmong(p[frames[i + 1].fn], frames[i + 1].insts, frames[i].fn)
  }

  ghost predicate HasCallAmong(f: Function, ids: seq<nat>, c: Name) {
    exists id :: id in ids && HasCall(f, id, c)
  }

  lemma {:induction false} DirectCallIsAnchored(progs: seq<Program>, pm: PmDesc, stack: seq<Option<FrameLoc>>, idx: nat,
                                                names: seq<Name>, i: nat, id: nat)
    requires AllMapped(stack, idx) && Chain(progs, pm, Frames(stack, idx), names) && i < idx
    requires var frames := Frames(stack, idx);
             id in frames[i + 1].insts && frames[i + 1].fn in progs[0]
               && HasCall(progs[0][frames[i + 1].fn], id, frames[i].fn)
    ensures Anchor(progs, stack, idx).Some?
    decreases i
  {
    hide Chain, HasCall, LevelCall, CalleeAfter, Redirects;
    var frames := Frames(stack, idx);
    ChainLength(progs, pm, frames, names);
    ChainNames(progs, pm, frames, names);
    var fn, below := frames[i + 1].fn, frames[i].fn;
    if TakenBelow(frames, i, fn, id, below) {
      var j :| 0 <= j < i && Redirects(frames, j, fn, id, below);
      RedirectsMeans(frames, j, fn, id, below);
      DirectCallIsAnchored(progs, pm, stack, idx, names, j, id);
    } else {
      CalleeIs(frames, names, i, fn, id, below);
      Tracked(progs, pm, frames, names, i, fn, id, below);
      LevelCallIff(progs[i], stack, i);
      AnchorStays(progs, stack, i + 1, idx);
    }
  }

  lemma RedirectsMeans(frames: seq<FrameLoc>, j: nat, fn: Name, id: nat, callee: Name)
    requires j + 1 < |frames| && Redirects(frames, j, fn, id, callee)
    ensures frames[j + 1].fn == fn && id in frames[j + 1].insts && callee == frames[j].fn
  {
  }

  lemma {:induction false} NoAnchorBelow(progs: seq<Program>, pm: PmDesc, stack: seq<Option<FrameLoc>>, idx: nat,
                                         names: seq<Name>, k: nat)
    requires AllMapped(stack, idx) && Chain(progs, pm, Frames(stack, idx), names) && k <= idx
    requires forall i | 0 <= i < idx :: !CallsDirectly(progs[0], Frames(stack, idx), i)
    ensures Anchor(progs, stack, k).None?
    decreases k
  {
    hide Chain, HasCall, LevelCall, CalleeAfter;
    var frames := Frames(stack, idx);
    ChainLength(progs, pm, frames, names);
    ChainNames(progs, pm, frames, names);
    if k != 0 {
      NoAnchorBelow(progs, pm, stack, idx, names, k - 1);
      var i := k - 1;
      var fn, below := frames[k].fn, frames[i].fn;
      Tracked(progs, pm, frames, names, i, fn, 0, below);
      LevelCallIff(progs[i], stack, i);
      assert !CallsDirectly(progs[0], frames, i);
      if id :| id in frames[k].insts && HasCall(progs[i][fn], id, below) {
        Tracked(progs, pm, frames, names, i, fn, id, below);
        var c0 :| HasCall(progs[0][fn], id, c0) && below == CalleeAfter(frames, names, i, fn, id, c0);
        CalleeIs(frames, names, i, fn, id, c0);
      }
    }
  }

  /** The fix redirects nothing, so that there is no instruction to put the fence behind, exactly when no call on
      its lines goes to the function below itself: a fix whose lines earlier ones have redirected finds none. */
  lemma NoAnchorIff(progs: seq<Program>, pm: PmDesc, stack: seq<Option<FrameLoc>>, idx: nat, names: seq<Name>)
    requires AllMapped(stack, idx) && Chain(progs, pm, Frames(stack, idx), names)
    ensures |progs| == idx + 1
    ensures Anchor(progs, stack, idx).None?
            <==> forall i | 0 <= i < idx :: !CallsDirectly(progs[0], Frames(stack, idx), i)
  {
    hide Chain, HasCall, Anchor;
    var frames := Frames(stack, idx);
    ChainLength(progs, pm, frames, names);
    if i :| 0 <= i < idx && CallsDirectly(progs[0], frames, i) {
      var id :| id in frames[i + 1].insts && HasCall(progs[0][frames[i + 1].fn], id, frames[i].fn);
      DirectCallIsAnchored(progs, pm, stack, idx, names, i, id);
    } else {
      NoAnchorBelow(progs, pm, stack, idx, names, idx);
    }
  }

  // ----- Runs down the chain ------------------------------------------------------------------------------

  /** In this code, the calls at the given instructions of `below` go to `target`. */
  function Going(ids: seq<nat>, below: Name, target: Name): seq<Instr> -> bool {
    (code: seq<Instr>) => forall i | i in code && i.Call? && i.id in ids && Origin(i.callee) == below ::
      i.callee == target
  }

  lemma GoingTail(ids: seq<nat>, below: Name, target: Name)
    ensures TailClosed(Going(ids, below, target))
  {
    hide Origin;
    forall code: seq<Instr> | code != [] && Going(ids, below, target)(code)
      ensures Going(ids, below, target)(code[1..]) {
      assert forall i | i in code[1..] :: i in code;
    }
  }

  lemma GoingBlocks(f: Function, ids: seq<nat>, below: Name, target: Name)
    requires GoesTo(f, ids, below, target)
    ensures BlocksHave(f, Going(ids, below, target))
  {
    hide Origin;
    forall b | b in f.blocks ensures Going(ids, below, target)(b.code) {
      forall i | i in b.code && i.Call? && i.id in ids && Origin(i.callee) == below ensures i.callee == target {
        assert Call(i.id, i.callee) in b.code;
        assert HasCall(f, i.id, i.callee);
      }
    }
  }

  /** The run stands at a call of (a version of) `below`, at the line. */
  predicate AtCall(s: State, line: FrameLoc, below: Name) {
    && s.frames != []
    && var top := s.frames[|s.frames| - 1];
       top.code != [] && top.code[0].Call? && top.code[0].id in line.insts && Origin(top.code[0].callee) == below
  }

  /** From a call at the line of frame `j` the run goes down the lines of the call stack: it enters the callee, comes
      in it to the call at the next lower line, and so on, until it has entered the function of frame 0. */
  ghost predicate Descends(q: Program, s: State, frames: seq<FrameLoc>, j: nat, times: seq<nat>)
    requires j < |frames|
    decreases j
  {
    if j == 0 then times == []
    else
      && AtCall(s, frames[j], frames[j - 1].fn)
      && times != [] && 0 < times[0] && |Run(q, s, times[0]).frames| == |s.frames| + 1
      && (forall m | 0 < m <= times[0] :: |s.frames| < |Run(q, s, m).frames|)
      && Descends(q, Run(q, s, times[0]), frames, j - 1, times[1..])
  }

  function Sum(times: seq<nat>): nat {
    if times == [] then 0 else times[0] + Sum(times[1..])
  }

  lemma StepKeepsFunction(p: Program, s: State, d: nat)
    requires 0 < d <= |s.frames| && d <= |Step(p, s).frames|
    ensures Step(p, s).frames[d - 1].fn == s.frames[d - 1].fn
  {
  }

  /** As long as a frame is not left, it is of the same function. */
  lemma {:induction false} FunctionStays(p: Program, s: State, n: nat, d: nat)
    requires 0 < d && forall m | 0 <= m <= n :: d <= |Run(p, s, m).frames|
    ensures d <= |s.frames| && d <= |Run(p, s, n).frames| && Run(p, s, n).frames[d - 1].fn == s.frames[d - 1].fn
  {
    hide Step;
    assert d <= |Run(p, s, 0).frames|;
    if n > 0 {
      FunctionStays(p, s, n - 1, d);
      assert d <= |Run(p, s, n).frames|;
      StepKeepsFunction(p, Run(p, s, n - 1), d);
    }
  }

  lemma CallEnters(p: Program, s: State, line: FrameLoc, below: Name)
    requires AtCall(s, line, below) && |s.frames| < |Step(p, s).frames|
    ensures var n := |s.frames|;
            |Step(p, s).frames| == n + 1 && Step(p, s).frames[n].fn == s.frames[n - 1].code[0].callee
  {
  }

  /** What a call at a line leads to: the clone that it goes to. */
  lemma CallLeadsTo(q: Program, s: State, line: FrameLoc, below: Name, target: Name, n: nat)
    requires AtCall(s, line, below) && 0 < n && |Run(q, s, n).frames| == |s.frames| + 1
    requires forall m | 0 < m <= n :: |s.frames| < |Run(q, s, m).frames|
    requires s.frames[|s.frames| - 1].code[0].callee == target
    ensures Run(q, s, n).frames[|s.frames|].fn == target
  {
    hide Step, Run, Origin;
    RunFirst(q, s);
    assert |s.frames| < |Run(q, s, 1).frames|;
    CallEnters(q, s, line, below);
    var t, d := Step(q, s), |s.frames| + 1;
    forall m: nat | m <= n - 1 ensures d <= |Run(q, t, m).frames| {
      RunAdd(q, s, 1, m);
    }
    FunctionStays(q, t, n - 1, d);
    RunAdd(q, s, 1, n - 1);
  }

  /** Going down a chain, the run ends in the lowest clone. */
  lemma {:induction false} DescentEndsInClone(q: Program, main: Name, input: seq<Choice>, frames: seq<FrameLoc>,
                                              names: seq<Name>, k: nat, j: nat, times: seq<nat>)
    requires Defined(q, main) && |frames| == |names| + 1 && 0 < j <= |names|
    requires forall i | 0 <= i < |names| :: Linked(q, frames, names, i)
    requires Descends(q, Run(q, Start(q, main, input), k), frames, j, times)
    requires var s := Run(q, Start(q, main, input), k);
             s.frames[|s.frames| - 1].fn == if j < |names| then names[j] else frames[j].fn
    ensures var s := Run(q, Start(q, main, input), k + Sum(times));
            s.frames != [] && s.frames[|s.frames| - 1].fn == names[0]
    decreases j
  {
    hide Step, Run, GoesTo, Origin, FramesHave, BlocksHave, TailClosed;
    var start, line, below, target := Start(q, main, input), frames[j], frames[j - 1].fn, names[j - 1];
    var s := Run(q, start, k);
    var holder := s.frames[|s.frames| - 1].fn;
    assert Linked(q, frames, names, j - 1);
    GoingTail(line.insts, below, target);
    GoingBlocks(q[holder], line.insts, below, target);
    RunHave(q, main, input, holder, Going(line.insts, below, target), k);
    TopGoes(s, line, below, target);
    CallLeadsTo(q, s, line, below, target, times[0]);
    RunAdd(q, start, k, times[0]);
    if j == 1 {
      assert Sum(times[1..]) == 0;
    } else {
      DescentEndsInClone(q, main, input, frames, names, k + times[0], j - 1, times[1..]);
    }
  }

  lemma TopGoes(s: State, line: FrameLoc, below: Name, target: Name)
    requires AtCall(s, line, below)
    requires FramesHave(s, s.frames[|s.frames| - 1].fn, Going(line.insts, below, target))
    ensures s.frames[|s.frames| - 1].code[0].callee == target
  {
    hide Origin;
    var top := s.frames[|s.frames| - 1];
    assert top in s.frames && Going(line.insts, below, target)(top.code);
    assert top.code[0] in top.code;
  }

  lemma {:induction false} LogGrows(p: Program, s: State, n: nat)
    ensures s.log <= Run(p, s, n).log
  {
    hide Step;
    if n > 0 {
      LogGrows(p, s, n - 1);
      StepLogs(p, Run(p, s, n - 1));
    }
  }

  lemma StepLogs(p: Program, s: State)
    ensures s.log <= Step(p, s).log
  {
  }

  /** The run stands at a store to persistent memory, in the lowest frame, of bytes within one line. */
  ghost predicate StoresLow(d: PmDesc, s: State, frames: seq<FrameLoc>, b: nat)
    requires frames != []
  {
    && s.frames != [] && s.input != []
    && var top := s.frames[|s.frames| - 1];
       && top.code != [] && top.code[0].Store? && d.IsFlushPoint(frames[0].fn, top.code[0].ptr)
       && var a := top.Addr(top.code[0].ptr);
          a <= b < a + |s.input[0].bytes| && P.Line(a) == P.Line(b)
  }

  /** Such a store, in the lowest clone, counts as one of that clone. */
  lemma StoreIsDirect(d: PmDesc, p: Program, s: State, frames: seq<FrameLoc>, name: Name, b: nat)
    requires frames != [] && StoresLow(d, s, frames, b) && name.Clone? && name.base == frames[0].fn
    requires s.frames[|s.frames| - 1].fn == name
    ensures var log := Step(p, s).log;
            && |log| == |s.log| + 1 && log[|s.log|].op.Writes(b) && Direct(d, log[|s.log|])
            && P.Line(log[|s.log|].op.address) == P.Line(b)
  {
    OriginOfClone(name);
  }

  /** The clones of the functions of a call stack, lowest first. */
  predicate CloneNames(frames: seq<FrameLoc>, names: seq<Name>) {
    && |frames| == |names| + 1 && names != []
    && forall i | 0 <= i < |names| :: names[i].Clone? && names[i].base == frames[i].fn
  }

  /** Let the clones of a call stack call each other. Then in every run: when the run comes to any call at the top
      line, and goes down the lines of the call stack to a store to persistent memory in the lowest function, the
      store is flushed, and when it has not been overwritten until the next fence, wherever that is, the stored
      byte is persisted there. */
  lemma LinkedStoreFlushed(q: Program, d: PmDesc, frames: seq<FrameLoc>, names: seq<Name>,
                           main: Name, input: seq<Choice>, k: nat, n: nat, times: seq<nat>, b: nat)
    requires CloneNames(frames, names) && ClonesFlush(d, q)
    requires forall i | 0 <= i < |names| :: Linked(q, frames, names, i)
    requires Defined(q, main) && InTop(Run(q, Start(q, main, input), k), frames[|names|].fn)
    requires Descends(q, Run(q, Start(q, main, input), k), frames, |names|, times) && Sum(times) < n
    requires StoresLow(d, Run(q, Start(q, main, input), k + Sum(times)), frames, b)
    requires NotOverwritten(q, Start(q, main, input), k + Sum(times), k + n, b)
    ensures LastStoreDirect(d, Run(q, Start(q, main, input), k + n).log, b)
    ensures AtFence(Run(q, Start(q, main, input), k + n)) ==>
              P.Run(Ops(Run(q, Start(q, main, input), k + n + 1).log)).Persisted(b)
  {
    hide Step, Run, P.Run, ClonesFlush, Descends, Linked, StoresLow, Direct, LogFlushed, Flushes, AtFence,
      LastStoreDirect;
    var start := Start(q, main, input);
    DescentEndsInClone(q, main, input, frames, names, k, |names|, times);
    var u := Run(q, start, k + Sum(times));
    StoreIsDirect(d, q, u, frames, names[0], b);
    var after := k + Sum(times) + 1;
    RunFirst(q, u);
    RunAdd(q, start, k + Sum(times), 1);
    RunAdd(q, start, after, k + n - after);
    LogGrows(q, Run(q, start, after), k + n - after);
    LastIs(d, Run(q, start, k + n).log, |u.log|, b, Step(q, u).log[|u.log|]);
    StartFlushes(d, q, main, input);
    RunFlushes(d, q, start, k + n);
    FlushesLog(d, q, Run(q, start, k + n));
    assert Run(q, start, k + n + 1) == Step(q, Run(q, start, k + n)) by {
      RunAdd(q, start, k + n, 1);
      RunFirst(q, Run(q, start, k + n));
    }
    if AtFence(Run(q, start, k + n)) {
      FencePersists(d, q, Run(q, start, k + n), b);
    }
  }

  /** What a raised fix is for, with a fence or without: if the calls on the lines of its call stack are free when it
      starts, all this holds in the rewritten program. */
  lemma RaisedStoreFlushed(base: Program, p: Program, q: Program, d: PmDesc, stack: seq<Option<FrameLoc>>, idx: nat,
                           addFence: bool, r: Outcome, progs: seq<Program>, clones: seq<Option<Name>>,
                           main: Name, input: seq<Choice>, k: nat, n: nat, times: seq<nat>, b: nat)
    requires Implements(base, p) && SourceFrames(p, stack) && AllMapped(stack, idx) && 0 < idx
    requires Subprogram(p, q, d, stack, idx, addFence, r, progs, clones) && ClonesFlush(d, q)
    requires forall i | 0 <= i < idx :: Free(p, Frames(stack, idx), i)
    requires Defined(q, main) && InTop(Run(q, Start(q, main, input), k), Frames(stack, idx)[idx].fn)
    requires Descends(q, Run(q, Start(q, main, input), k), Frames(stack, idx), idx, times) && Sum(times) < n
    requires StoresLow(d, Run(q, Start(q, main, input), k + Sum(times)), Frames(stack, idx), b)
    requires NotOverwritten(q, Start(q, main, input), k + Sum(times), k + n, b)
    ensures LastStoreDirect(d, Run(q, Start(q, main, input), k + n).log, b)
    ensures AtFence(Run(q, Start(q, main, input), k + n)) ==>
              P.Run(Ops(Run(q, Start(q, main, input), k + n + 1).log)).Persisted(b)
  {
    hide Step, Run, P.Run, Implements, Subprogram, ClonesFlush, Free, Descends, Linked, StoresLow, AtFence,
      LastStoreDirect, NotOverwritten;
    SubprogramLinks(base, p, q, d, stack, idx, addFence, r, progs, clones);
    LinkedStoreFlushed(q, d, Frames(stack, idx), Names(clones), main, input, k, n, times, b);
  }

  /** A raised fix whose lines are free links its clones. */
  lemma SubprogramLinks(base: Program, p: Program, q: Program, d: PmDesc, stack: seq<Option<FrameLoc>>, idx: nat,
                        addFence: bool, r: Outcome, progs: seq<Program>, clones: seq<Option<Name>>)
    requires Implements(base, p) && SourceFrames(p, stack) && AllMapped(stack, idx) && 0 < idx
    requires Subprogram(p, q, d, stack, idx, addFence, r, progs, clones)
    requires forall i | 0 <= i < idx :: Free(p, Frames(stack, idx), i)
    ensures CloneNames(Frames(stack, idx), Names(clones)) && |Names(clones)| == idx
    ensures forall i | 0 <= i < idx :: Linked(q, Frames(stack, idx), Names(clones), i)
  {
    hide Implements, Subprogram, Free, Linked;
    SubprogramNames(p, q, d, stack, idx, addFence, r, progs, clones);
    forall i | 0 <= i < idx ensures Linked(q, Frames(stack, idx), Names(clones), i) {
      SubprogramLinkedIff(base, p, q, d, stack, idx, addFence, r, progs, clones, i);
    }
  }

  predicate InTop(s: State, fn: Name) {
    s.frames != [] && s.frames[|s.frames| - 1].fn == fn
  }

  /** The next step after `m` may write `b`; until step `n` nothing else does. */
  ghost predicate NotOverwritten(q: Program, start: State, m: nat, n: nat, b: nat) {
    var log := Run(q, start, n).log;
    forall j | |Run(q, start, m).log| < j < |log| :: !log[j].op.Writes(b)
  }

  /** What a raised fix with a fence is for: if the call that the run comes to is the fenced one, and the run later
      returns from it, the next step is the fence, and the stored byte, if it has not been overwritten meanwhile, is
      persisted. */
  lemma RaisedStorePersists(base: Program, p: Program, q: Program, d: PmDesc, stack: seq<Option<FrameLoc>>, idx: nat,
                            r: Outcome, progs: seq<Program>, clones: seq<Option<Name>>,
                            main: Name, input: seq<Choice>, k: nat, n: nat, times: seq<nat>, b: nat)
    requires Implements(base, p) && SourceFrames(p, stack) && AllMapped(stack, idx) && 0 < idx
    requires Subprogram(p, q, d, stack, idx, true, r, progs, clones) && ClonesFlush(d, q)
    requires forall i | 0 <= i < idx :: Free(p, Frames(stack, idx), i)
    requires r.Inserted? && r.fn == Frames(stack, idx)[idx].fn && r.fn in q && FencedCalls(q[r.fn], r.id)
    requires Defined(q, main) && CallsAndReturns(q, Run(q, Start(q, main, input), k), r.fn, r.id, n)
    requires Descends(q, Run(q, Start(q, main, input), k), Frames(stack, idx), idx, times) && Sum(times) < n
    requires StoresLow(d, Run(q, Start(q, main, input), k + Sum(times)), Frames(stack, idx), b)
    requires NotOverwritten(q, Start(q, main, input), k + Sum(times), k + n, b)
    ensures P.Run(Ops(Run(q, Start(q, main, input), k + n + 1).log)).Persisted(b)
  {
    hide Step, Run, P.Run, Implements, Subprogram, ClonesFlush, Free, FencedCalls, Descends, StoresLow, LastStoreDirect,
      NotOverwritten;
    RaisedStoreFlushed(base, p, q, d, stack, idx, true, r, progs, clones, main, input, k, n, times, b);
    RepairedCallPersists(d, q, main, input, r.fn, r.id, k, n, b);
  }

  lemma SubprogramNames(p: Program, q: Program, d: PmDesc, stack: seq<Option<FrameLoc>>, idx: nat,
                        addFence: bool, r: Outcome, progs: seq<Program>, clones: seq<Option<Name>>)
    requires SourceFrames(p, stack) && AllMapped(stack, idx)
    requires Subprogram(p, q, d, stack, idx, addFence, r, progs, clones)
    ensures |Names(clones)| == idx
    ensures forall i | 0 <= i < idx :: Names(clones)[i].Clone? && Names(clones)[i].base == Frames(stack, idx)[i].fn
  {
    LevelsLength(progs, d, stack, idx, clones);
    ChainOfLevels(progs, d, stack, idx, clones);
    ChainNames(progs, d, Frames(stack, idx), Names(clones));
  }

  lemma LastIs(d: PmDesc, log: seq<Event>, i: nat, b: nat, e: Event)
    requires i < |log| && log[i] == e && e.op.Writes(b) && Direct(d, e) && P.Line(e.op.address) == P.Line(b)
    requires forall j | i < j < |log| :: !log[j].op.Writes(b)
    ensures LastStoreDirect(d, log, b)
  {
  }
}
