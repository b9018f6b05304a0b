/**
 The fixer's own state, the fix map, and the steps that fill it: collecting the fixes of all bugs and
 raising them up the call stacks (src/BugFixer.cpp:43-129, src/BugFixer.cpp:144-317,
 src/BugFixer.cpp:469-509, src/BugFixer.cpp:594-898, src/BugFixer.cpp:987-1039).
 */
module BugFixing {
  import opened Options
  import opened Addresses
  import opened Traces
  import opened Scan
  import opened Mapping
  import opened Fixes
  import opened Raising

  /** `Failed` is a failed `assert`, which ends the fixer. */
  datatype Outcome = Done(added: bool) | Failed

  // ----- What the methods compute, as functions of the fix map --------------------------------------

  predicate AnyAdded(m: FixMap, adds: seq<Add>) {
    adds != [] &&
    var front, last := adds[..|adds| - 1], adds[|adds| - 1];
    AnyAdded(m, front) || ResultOfAdd(AddAll(m, front), last.loc, last.desc).Added?
  }

  /** The additions of one bug: those of the operations that the scan of its history finds. */
  ghost function BugAdds(env: Env, bugIndex: nat): Option<seq<Add>>
    requires bugIndex < |env.trace| && WellFormedTrace(env.trace)
  {
    var bug := env.trace[bugIndex];
    if !bug.kind.AssertPersisted? then Some([])
    else
      var f := ScanBack(env.trace[..bugIndex], bug.kind.range, []);
      match Judge(f)
      case ScanFails => None
      case Verdict(_, flush, fence) =>
        ScanBackEvents(env.trace[..bugIndex], bug.kind.range);
        EventsAdds(env, f.events, KindFor(flush, fence))
  }

  lemma ScanBackEvents(hist: seq<TraceEvent>, r: AddressInfo)
    requires WellFormedTrace(hist)
    ensures var f := ScanBack(hist, r, []);
            |f.hits| == |f.events| && Found(f.events)
            && forall e | e in f.events :: e in hist
  {
    ScanBackHits(hist, r, []);
    var f := ScanBack(hist, r, []);
    forall k | 0 <= k < |f.events| ensures f.events[k] in hist && f.events[k].WellFormed() {
      assert hist[f.hits[k]] == f.events[k];
    }
  }

  /** The additions of several bugs, in order. */
  ghost function BugsAdds(env: Env, bugs: seq<nat>): Option<seq<Add>>
    requires WellFormedTrace(env.trace) && forall k | 0 <= k < |bugs| :: bugs[k] < |env.trace|
  {
    if bugs == [] then Some([])
    else
      var before := BugsAdds(env, bugs[..|bugs| - 1]);
      var here := BugAdds(env, bugs[|bugs| - 1]);
      if before.None? || here.None? then None else Some(before.value + here.value)
  }

  /** The map while primitive fixes are raised one after the other, and which of them have moved. A fix that
      a raised one has replaced meanwhile is passed over. */
  datatype Pass = Pass(fixMap: FixMap, moved: seq<FixLoc>, ok: bool)

  ghost function RaisePass(env: Env, m: FixMap, keys: seq<FixLoc>): Pass {
    if keys == [] then Pass(m, [], true)
    else RaiseNext(env, RaisePass(env, m, keys[..|keys| - 1]), keys[|keys| - 1])
  }

  ghost function RaiseNext(env: Env, p: Pass, fl: FixLoc): Pass {
    if !p.ok || fl !in p.fixMap || !p.fixMap[fl].kind.Primitive() then p
    else
      match RaiseAdds(env, p.fixMap[fl], true)
      case None => p.(ok := false)
      case Some(adds) =>
        if !AllMerge(p.fixMap, adds) then p.(ok := false)
        else Pass(AddAll(p.fixMap, adds), if AnyAdded(p.fixMap, adds) then p.moved + [fl] else p.moved, true)
  }

  function Erase(m: FixMap, keys: seq<FixLoc>): FixMap {
    map fl | fl in m && fl !in keys :: m[fl]
  }

  /** Raised fixes of the trace go to other places than the primitive fixes of the map. */
  ghost predicate Separated(env: Env, m: FixMap) {
    forall fl | fl in m && m[fl].kind.Primitive() :: !CallSite(env, fl)
  }

  /** Each entry has the call stack of a store or flush of the trace. */
  ghost predicate AllFromTrace(env: Env, m: FixMap) {
    forall fl | fl in m :: FromTrace(env, m[fl].dynStack)
  }

  /** `keys` lists the primitive entries of `m` in the order of the map. */
  ghost predicate PrimitiveKeys(m: FixMap, keys: seq<FixLoc>) {
    && (forall fl :: fl in keys <==> fl in m && m[fl].kind.Primitive())
    && InOrder(keys)
  }

  predicate InOrder(keys: seq<FixLoc>) {
    forall i, j | 0 <= i < j < |keys| :: keys[i].Less(keys[j])
  }

  lemma {:induction false} LeastExists(s: set<FixLoc>) returns (least: FixLoc)
    requires s != {}
    ensures least in s && forall fl | fl in s :: fl == least || least.Less(fl)
    decreases s
  {
    var x :| x in s;
    if s == {x} {
      least := x;
    } else {
      var rest := LeastExists(s - {x});
      least := if x.Less(rest) then x else rest;
      forall fl | fl in s ensures fl == least || least.Less(fl) {
        assert fl == x || fl in s - {x};
      }
    }
  }

  /** A set of places, in order. */
  ghost function Sorted(s: set<FixLoc>): (keys: seq<FixLoc>)
    ensures InOrder(keys) && forall fl :: fl in keys <==> fl in s
    decreases s
  {
    if s == {} then []
    else
      assert exists fl :: IsLeast(s, fl) by {
        var least := LeastExists(s);
        assert IsLeast(s, least);
      }
      var fl :| IsLeast(s, fl);
      SortedStep(fl, s, Sorted(s - {fl}));
      [fl] + Sorted(s - {fl})
  }

  predicate IsLeast(s: set<FixLoc>, least: FixLoc) {
    least in s && forall fl | fl in s :: fl == least || least.Less(fl)
  }

  lemma SortedStep(fl: FixLoc, s: set<FixLoc>, rest: seq<FixLoc>)
    requires IsLeast(s, fl) && InOrder(rest) && forall x :: x in rest <==> x in s - {fl}
    ensures InOrder([fl] + rest) && forall x :: x in [fl] + rest <==> x in s
  {
    forall j | 0 <= j < |rest| ensures fl.Less(rest[j]) {
      assert rest[j] in rest;
    }
  }

  /** The primitive entries of a map, in its order. */
  ghost function PrimitivesOf(m: FixMap): (keys: seq<FixLoc>)
    ensures PrimitiveKeys(m, keys)
  {
    Sorted(set fl | fl in m && m[fl].kind.Primitive())
  }

  // ----- Lemmas on sequences of additions -----------------------------------------------------------

  lemma {:induction false} AddAllConcat(m: FixMap, xs: seq<Add>, ys: seq<Add>)
    ensures AddAll(m, xs + ys) == AddAll(AddAll(m, xs), ys)
    ensures AllMerge(m, xs + ys) <==> AllMerge(m, xs) && AllMerge(AddAll(m, xs), ys)
    ensures AnyAdded(m, xs + ys) <==> AnyAdded(m, xs) || AnyAdded(AddAll(m, xs), ys)
  {
    if ys == [] {
      assert xs + ys == xs;
    } else {
      var n := |ys| - 1;
      assert (xs + ys)[..|xs + ys| - 1] == xs + ys[..n];
      AddAllConcat(m, xs, ys[..n]);
    }
  }

  lemma AddAllOne(m: FixMap, a: Add)
    ensures AddAll(m, [a]) == MapAfterAdd(m, a.loc, a.desc)
    ensures AllMerge(m, [a]) <==> !ResultOfAdd(m, a.loc, a.desc).AssertFails?
    ensures AnyAdded(m, [a]) <==> ResultOfAdd(m, a.loc, a.desc).Added?
  {
    assert [a][..0] == [];
  }

  lemma StoreAddsPrefix(env: Env, insts: seq<Inst>, n: nat, desc: FixDesc)
    requires n <= |insts|
    ensures StoreAdds(env, insts[..n], desc) <= StoreAdds(env, insts, desc)
    decreases |insts|
  {
    if n < |insts| {
      assert insts[..|insts| - 1][..n] == insts[..n];
      StoreAddsPrefix(env, insts[..|insts| - 1], n, desc);
    } else {
      assert insts[..n] == insts;
    }
  }

  lemma RangeAddsPrefix(env: Env, locs: seq<FixLoc>, k: nat, desc: FixDesc)
    requires k <= |locs|
    ensures RangeAdds(env, locs[..k], desc) <= RangeAdds(env, locs, desc)
    decreases |locs|
  {
    if k < |locs| {
      assert locs[..|locs| - 1][..k] == locs[..k];
      RangeAddsPrefix(env, locs[..|locs| - 1], k, desc);
    } else {
      assert locs[..k] == locs;
    }
  }

  /** The outcome of adding some fixes to `m`, of which those that were tried lead to `m'`. */
  ghost predicate Adds(m: FixMap, adds: Option<seq<Add>>, r: Outcome, m': FixMap) {
    if adds.None? || !AllMerge(m, adds.value) then r == Failed
    else r == Done(AnyAdded(m, adds.value)) && m' == AddAll(m, adds.value)
  }

  /** What a loop over additions has done after those in `done`. */
  ghost predicate SoFar(m: FixMap, done: seq<Add>, added: bool, m': FixMap) {
    AllMerge(m, done) && m' == AddAll(m, done) && added == AnyAdded(m, done)
  }

  lemma AddsFinish(m: FixMap, done: seq<Add>, added: bool, m': FixMap)
    requires SoFar(m, done, added, m')
    ensures Adds(m, Some(done), Done(added), m')
  {
  }

  lemma AddsNothing(m: FixMap, m': FixMap)
    ensures Adds(m, None, Failed, m')
  {
  }

  lemma SoFarNothing(m: FixMap)
    ensures SoFar(m, [], false, m)
  {
  }

  /** A loop over additions goes on after one more part succeeds, and fails as a whole, with all its
      additions, if a part fails. */
  lemma AddsStep(m: FixMap, done: seq<Add>, added: bool, m': FixMap, next: Option<seq<Add>>, r: Outcome, m'': FixMap,
                 all: Option<seq<Add>>)
    requires SoFar(m, done, added, m') && Adds(m', next, r, m'')
    requires all.Some? ==> next.Some? && done + next.value <= all.value
    ensures r.Done? ==> next.Some? && SoFar(m, done + next.value, added || r.added, m'')
    ensures r.Failed? ==> Adds(m, all, Failed, m'')
  {
    if next.Some? {
      AddAllConcat(m, done, next.value);
      if all.Some? {
        var n := |done + next.value|;
        assert all.value == done + next.value + all.value[n..];
        AddAllConcat(m, done + next.value, all.value[n..]);
      }
    }
  }

  lemma {:induction false} EventsAddsPrefix(env: Env, events: seq<TraceEvent>, k: nat, kind: FixType)
    requires Found(events)
    requires k <= |events|
    ensures var all, some := EventsAdds(env, events, kind), EventsAdds(env, events[..k], kind);
            all.Some? ==> some.Some? && some.value <= all.value
    decreases |events|
  {
    if k < |events| {
      assert events[..|events| - 1][..k] == events[..k];
      EventsAddsPrefix(env, events[..|events| - 1], k, kind);
    } else {
      assert events[..k] == events;
    }
  }

  lemma RangeAddsOfNothing(env: Env, desc: FixDesc)
    ensures RangeAdds(env, [], desc) == []
  {
  }

  lemma RangeAddsStep(env: Env, locs: seq<FixLoc>, k: nat, desc: FixDesc)
    requires k < |locs|
    ensures RangeAdds(env, locs[..k + 1], desc)
            == RangeAdds(env, locs[..k], desc) + StoreAdds(env, locs[k].Insts(), desc)
  {
    assert locs[..k + 1][..k] == locs[..k];
  }

  lemma EventsAddsOfNothing(env: Env, kind: FixType)
    ensures EventsAdds(env, [], kind) == Some([])
  {
  }

  lemma EventsAddsStep(env: Env, events: seq<TraceEvent>, k: nat, kind: FixType)
    requires Found(events) && k < |events|
    ensures var before, here := EventsAdds(env, events[..k], kind), EventAdds(env, events[k], kind);
            EventsAdds(env, events[..k + 1], kind)
            == if before.None? || here.None? then None else Some(before.value + here.value)
  {
    assert events[..k + 1][..k] == events[..k];
  }

  lemma {:induction false} BugsAddsPrefix(env: Env, bugs: seq<nat>, k: nat)
    requires WellFormedTrace(env.trace) && forall k | 0 <= k < |bugs| :: bugs[k] < |env.trace|
    requires k <= |bugs|
    ensures var all, some := BugsAdds(env, bugs), BugsAdds(env, bugs[..k]);
            all.Some? ==> some.Some? && some.value <= all.value
    decreases |bugs|
  {
    if k < |bugs| {
      assert bugs[..|bugs| - 1][..k] == bugs[..k];
      BugsAddsPrefix(env, bugs[..|bugs| - 1], k);
    } else {
      assert bugs[..k] == bugs;
    }
  }

  // ----- Walking over the map while it grows --------------------------------------------------------

  predicate Beyond(after: Option<FixLoc>, fl: FixLoc) {
    after.None? || after.value.Less(fl)
  }

  /** The places where raised fixes can be put. */
  ghost function Fronts(env: Env): set<FixLoc> {
    set l | l in env.fixLocs && env.fixLocs[l] != [] :: env.fixLocs[l][0]
  }

  ghost function Remaining(universe: set<FixLoc>, last: Option<FixLoc>): set<FixLoc> {
    set fl | fl in universe && Beyond(last, fl)
  }

  lemma RemainingShrinks(universe: set<FixLoc>, last: Option<FixLoc>, fl: FixLoc)
    requires fl in universe && Beyond(last, fl)
    ensures Remaining(universe, Some(fl)) < Remaining(universe, last)
  {
    assert fl in Remaining(universe, last) && fl !in Remaining(universe, Some(fl));
  }

  lemma RaiseAddsAreFronts(env: Env, desc: FixDesc, located: bool)
    ensures var adds := RaiseAdds(env, desc, located);
            adds.Some? ==>
              |adds.value| <= 1 && forall a | a in adds.value ::
                IsFront(env, a.loc) && a.loc in Fronts(env) && a.desc.Repairing()
                  && a.desc.kind == RaisedKind(desc.kind)
                && exists l :: l in desc.dynStack && IsFrontOf(env, l, a.loc)
  {
    if ChooseFrame(env, desc.dynStack, located).RaisedTo? {
      FrameChoice(env, desc.dynStack, located);
    }
  }

  /** A raised fix goes to a call site of the trace, and takes its stack along. */
  lemma RaiseAddsAtCallSites(env: Env, desc: FixDesc, located: bool)
    requires FromTrace(env, desc.dynStack) && (located || (desc.dynStack != [] && !env.Mapped(desc.dynStack[0])))
    ensures var adds := RaiseAdds(env, desc, located);
            adds.Some? ==>
              |adds.value| <= 1 && forall a | a in adds.value ::
                CallSite(env, a.loc) && a.desc.dynStack == desc.dynStack && a.desc.Repairing()
                  && a.desc.kind.Subprogram()
  {
    if ChooseFrame(env, desc.dynStack, located).RaisedTo? {
      RaisedToCaller(env, desc.dynStack, located);
    }
  }

  lemma AddAllKeys(env: Env, m: FixMap, adds: seq<Add>)
    requires forall a | a in adds :: a.loc in Fronts(env)
    ensures AddAll(m, adds).Keys <= m.Keys + Fronts(env)
  {
    if adds != [] {
      AddAllKeys(env, m, adds[..|adds| - 1]);
    }
  }

  /** Raising has changed nothing about the fixes that are still primitive, and no place has been lost. */
  ghost predicate OthersRaised(start: FixMap, now: FixMap) {
    && (forall fl | fl in start :: fl in now)
    && (forall fl | fl in now && now[fl].kind.Primitive() :: fl in start && now[fl] == start[fl])
  }

  lemma OthersRaisedStep(start: FixMap, now: FixMap, adds: seq<Add>)
    requires OthersRaised(start, now) && AllMerge(now, adds)
    requires |adds| <= 1 && forall a | a in adds :: a.desc.Repairing() && a.desc.kind.Subprogram()
    ensures OthersRaised(start, AddAll(now, adds))
  {
    if adds != [] {
      assert adds == [adds[0]];
      AddAllOne(now, adds[0]);
    }
  }

  /** The walk has come to `last`: the first `n` of the keys are behind it, the others ahead. */
  ghost predicate WalkedTo(keys: seq<FixLoc>, n: nat, last: Option<FixLoc>) {
    && n <= |keys|
    && (forall i | 0 <= i < n :: !Beyond(last, keys[i]))
    && (forall i | n <= i < |keys| :: Beyond(last, keys[i]))
  }

  lemma OrderedPair(keys: seq<FixLoc>, n: nat, i: nat)
    requires InOrder(keys) && n <= i < |keys|
    ensures keys[n] == keys[i] || keys[n].Less(keys[i])
  {
  }

  /** The next entry of the map is the next of the keys, or none of them. */
  lemma WalkedNext(start: FixMap, now: FixMap, keys: seq<FixLoc>, n: nat, last: Option<FixLoc>, fl: FixLoc)
    requires PrimitiveKeys(start, keys) && OthersRaised(start, now) && WalkedTo(keys, n, last)
    requires fl in now && Beyond(last, fl)
    requires forall fl' | fl' in now && Beyond(last, fl') :: fl' == fl || fl.Less(fl')
    ensures fl in keys ==> n < |keys| && keys[n] == fl && WalkedTo(keys, n + 1, Some(fl))
    ensures fl !in keys ==> WalkedTo(keys, n, Some(fl)) && !now[fl].kind.Primitive()
  {
    forall i | 0 <= i < |keys|
      ensures keys[i] in now
      ensures i < n ==> !Beyond(Some(fl), keys[i])
      ensures n <= i ==> keys[i] == fl || fl.Less(keys[i])
    {
      assert keys[i] in keys;
      assert keys[i] in start;
    }
    if fl in keys {
      var i :| 0 <= i < |keys| && keys[i] == fl;
      assert n <= i;
      OrderedPair(keys, n, i);
    }
  }

  lemma {:induction false} FailedStaysFailed(env: Env, m: FixMap, keys: seq<FixLoc>, n: nat)
    requires n <= |keys| && !RaisePass(env, m, keys[..n]).ok
    ensures !RaisePass(env, m, keys).ok
    decreases |keys|
  {
    if n < |keys| {
      assert keys[..|keys| - 1][..n] == keys[..n];
      FailedStaysFailed(env, m, keys[..|keys| - 1], n);
    } else {
      assert keys[..n] == keys;
    }
  }

  lemma NothingWalked(keys: seq<FixLoc>)
    ensures WalkedTo(keys, 0, None)
  {
  }

  lemma KeyKept(start: FixMap, now: FixMap, keys: seq<FixLoc>, i: nat)
    requires PrimitiveKeys(start, keys) && OthersRaised(start, now) && i < |keys|
    ensures keys[i] in now
  {
    assert keys[i] in keys && keys[i] in start;
  }

  lemma AllWalked(start: FixMap, now: FixMap, keys: seq<FixLoc>, n: nat, last: Option<FixLoc>)
    requires PrimitiveKeys(start, keys) && OthersRaised(start, now) && WalkedTo(keys, n, last)
    requires forall fl | fl in now :: !Beyond(last, fl)
    ensures n == |keys|
  {
    if n < |keys| {
      KeyKept(start, now, keys, n);
    }
  }

  lemma RaisePassSnoc(env: Env, m: FixMap, keys: seq<FixLoc>, fl: FixLoc)
    ensures RaisePass(env, m, keys + [fl]) == RaiseNext(env, RaisePass(env, m, keys), fl)
  {
    assert (keys + [fl])[..|keys|] == keys;
  }

  lemma RaisedKindIsSubprogram(kind: FixType)
    ensures RaisedKind(kind).Subprogram()
  {
  }

  predicate AllConstructed(m: FixMap) {
    forall fl | fl in m :: m[fl].AsConstructed()
  }

  lemma {:induction false} AddAllConstructed(m: FixMap, adds: seq<Add>)
    requires AllConstructed(m) && forall a | a in adds :: a.desc.AsConstructed()
    ensures AllConstructed(AddAll(m, adds))
  {
    if adds != [] {
      AddAllConstructed(m, adds[..|adds| - 1]);
    }
  }

  class BugFixer {
    const env: Env
    var fixMap: FixMap

    constructor (env: Env)
      ensures this.env == env && fixMap == map[]
    {
      this.env := env;
      fixMap := map[];
    }

    /** The hand-written cases of the fixer compute the join of the old and the new fix, say whether
        that changed anything, and fail for exactly the pairs that are not `Mergeable`. */
    method AddFixToMapping(fl: FixLoc, desc: FixDesc) returns (r: AddResult)
      requires AllConstructed(fixMap) && desc.AsConstructed()
      modifies this`fixMap
      ensures r == ResultOfAdd(old(fixMap), fl, desc)
      ensures fixMap == MapAfterAdd(old(fixMap), fl, desc)
    {
      if !fl.IsValid() || desc.kind.NoFix? {
        return AssertFails;
      }
      if fl !in fixMap {
        fixMap := fixMap[fl := desc];
        return Added;
      }
      var here := fixMap[fl];
      if here.SameAs(desc) {
        return Redundant;
      }

      if here.kind.AddFlushOnly? && (desc.kind.AddFenceOnly? || desc.kind.AddFlushAndFence?) {
        fixMap := fixMap[fl := here.(kind := AddFlushAndFence)];
        return Added;
      } else if here.kind.AddFenceOnly? && desc.kind.AddFlushOnly? {
        fixMap := fixMap[fl := here.(kind := AddFlushAndFence)];
        return Added;
      } else if here.kind.AddFlushAndFence? && (desc.kind.AddFlushOnly? || desc.kind.AddFenceOnly?) {
        return Redundant;
      } else if desc.kind.AddFlushAndFence? && (here.kind.AddFlushOnly? || here.kind.AddFenceOnly?) {
        fixMap := fixMap[fl := here.(kind := AddFlushAndFence)];
        return Added;
      }

      if (here.kind.AddFlushOnly? || here.kind.AddFlushAndFence?) && desc.kind.RemoveFlushOnly? {
        return AssertFails;
      }

      if here.kind.RemoveFlushConditional? && desc.kind.RemoveFlushConditional? {
        fixMap := fixMap[fl := here.(originals := here.originals + desc.originals,
                                     points := here.points + desc.points)];
        return if desc.originals == [] && desc.points == [] then Redundant else Added;
      }

      if here.kind.AddPersistCallstackOpt? && (desc.kind.Subprogram() || desc.kind.Primitive()) {
        return Redundant;
      }
      if desc.kind.AddPersistCallstackOpt? && (here.kind.Subprogram() || here.kind.Primitive()) {
        fixMap := fixMap[fl := desc];
        return Added;
      }
      if here.kind.AddPersistCallstackOptNoFence?
         && (desc.kind.AddPersistCallstackOpt? || desc.kind.AddFenceOnly? || desc.kind.AddFlushAndFence?) {
        fixMap := fixMap[fl := here.(kind := AddPersistCallstackOpt)];
        return Added;
      }

      return AssertFails;
    }

    method AddOne(fl: FixLoc, desc: FixDesc) returns (r: Outcome)
      requires AllConstructed(fixMap) && desc.AsConstructed()
      modifies this`fixMap
      ensures Adds(old(fixMap), Some([Add(fl, desc)]), r, fixMap)
      ensures AllConstructed(fixMap)
    {
      AddAllOne(fixMap, Add(fl, desc));
      var result := AddFixToMapping(fl, desc);
      return if result.AssertFails? then Failed else Done(result.Added?);
    }

    /** Raise one fix; the answer says whether the map changed. */
    method RaiseFixLocation(located: bool, desc: FixDesc) returns (r: Outcome)
      requires AllConstructed(fixMap)
      modifies this`fixMap
      ensures Adds(old(fixMap), RaiseAdds(env, desc, located), r, fixMap)
      ensures AllConstructed(fixMap)
    {
      var stack := desc.dynStack;
      if stack == [] {
        return Failed;
      }
      var raised := false;
      var heuristicIdx := 0;
      if env.heuristicRaising {
        var scores := Scores(env, stack);
        heuristicIdx := FindBestFrame(scores);
        if heuristicIdx < 0 {
          return Failed;
        }
        if heuristicIdx > 0 {
          raised := true;
        }
      }

      var curr: Option<FixLoc> := None;
      var idx: nat := heuristicIdx;
      while idx < |stack|
        invariant heuristicIdx <= idx
        invariant raised <==> idx > 0
        invariant Land(env, stack, located, heuristicIdx, None) == Land(env, stack, located, idx, curr)
        decreases |stack| - idx
      {
        if !env.Mapped(stack[idx]) {
          if located {
            return Failed;
          }
          raised := true;
          idx := idx + 1;
          continue;
        }
        var ranges := env.fixLocs[stack[idx]];
        if ranges == [] || !env.OneFunction(stack[idx]) {
          return Failed;
        }
        curr := Some(ranges[0]);
        if env.Immutable(stack[idx]) {
          raised := true;
          idx := idx + 1;
        } else {
          break;
        }
      }

      if !raised {
        return Done(false);
      }
      if curr.None? {
        return Failed;
      }
      r := AddOne(curr.value, Desc(RaisedKind(desc.kind), stack, idx));
    }

    /** Fix the stores among some instructions in place. */
    method AddStores(insts: seq<Inst>, singleLine: bool, desc: FixDesc) returns (r: Outcome)
      requires AllConstructed(fixMap) && desc.AsConstructed()
      modifies this`fixMap
      ensures var adds := StoreAdds(env, insts, desc);
              Adds(old(fixMap), if adds != [] && !singleLine then None else Some(adds), r, fixMap)
      ensures AllConstructed(fixMap)
    {
      hide Adds, SoFar, AllConstructed, AddAll, AllMerge, AnyAdded;
      SoFarNothing(fixMap);
      var added := false;
      for n := 0 to |insts|
        invariant AllConstructed(fixMap)
        invariant SoFar(old(fixMap), StoreAdds(env, insts[..n], desc), added, fixMap)
        invariant StoreAdds(env, insts[..n], desc) != [] ==> singleLine
      {
        assert insts[..n + 1][..n] == insts[..n];
        ghost var done := StoreAdds(env, insts[..n], desc);
        assert done + [] == done;
        StoreAddsPrefix(env, insts, n + 1, desc);
        if insts[n] in env.stores {
          if !singleLine {
            AddsNothing(old(fixMap), fixMap);
            return Failed;
          }
          ghost var add := Add(FixLoc(insts[n], insts[n]), desc);
          ghost var before := fixMap;
          var res := AddOne(FixLoc(insts[n], insts[n]), desc);
          ghost var all := if StoreAdds(env, insts, desc) != [] && !singleLine then None
            else Some(StoreAdds(env, insts, desc));
          AddsStep(old(fixMap), done, added, before, Some([add]), res, fixMap, all);
          if res.Failed? {
            return Failed;
          }
          added := res.added || added;
        }
      }
      assert insts[..|insts|] == insts;
      AddsFinish(old(fixMap), StoreAdds(env, insts, desc), added, fixMap);
      return Done(added);
    }

    /** Fix every store of some ranges in place. */
    method AddDirect(locs: seq<FixLoc>, singleLine: bool, desc: FixDesc) returns (r: Outcome)
      requires AllConstructed(fixMap) && desc.AsConstructed()
      modifies this`fixMap
      ensures var adds := RangeAdds(env, locs, desc);
              Adds(old(fixMap), if adds != [] && !singleLine then None else Some(adds), r, fixMap)
      ensures AllConstructed(fixMap)
    {
      hide Adds, SoFar, AllConstructed, RangeAdds, StoreAdds;
      assert locs[..0] == [];
      RangeAddsOfNothing(env, desc);
      SoFarNothing(fixMap);
      var added := false;
      for k := 0 to |locs|
        invariant AllConstructed(fixMap)
        invariant SoFar(old(fixMap), RangeAdds(env, locs[..k], desc), added, fixMap)
        invariant RangeAdds(env, locs[..k], desc) != [] ==> singleLine
      {
        RangeAddsStep(env, locs, k, desc);
        ghost var done := RangeAdds(env, locs[..k], desc);
        ghost var next := StoreAdds(env, locs[k].Insts(), desc);
        ghost var before := fixMap;
        RangeAddsPrefix(env, locs, k + 1, desc);
        var res := AddStores(locs[k].Insts(), singleLine, desc);
        ghost var all := if RangeAdds(env, locs, desc) != [] && !singleLine then None
          else Some(RangeAdds(env, locs, desc));
        ghost var step := if next != [] && !singleLine then None else Some(next);
        AddsStep(old(fixMap), done, added, before, step, res, fixMap, all);
        if res.Failed? {
          return Failed;
        }
        added := res.added || added;
      }
      assert locs[..|locs|] == locs;
      AddsFinish(old(fixMap), RangeAdds(env, locs, desc), added, fixMap);
      return Done(added);
    }

    /** The fixes of one operation: at its own stores, or up its call stack if it has no mapping. */
    method HandleOperation(last: TraceEvent, kind: FixType) returns (r: Outcome)
      requires AllConstructed(fixMap)
      requires last.callstack != [] && (last.kind.Store? || last.kind.Flush?)
      modifies this`fixMap
      ensures Adds(old(fixMap), EventAdds(env, last, kind), r, fixMap)
      ensures AllConstructed(fixMap)
    {
      var location := last.callstack[0];
      var desc := Desc(kind, last.callstack, 0);
      if env.Mapped(location) {
        if env.fixLocs[location] == [] {
          return Failed;
        }
        r := AddDirect(env.fixLocs[location], last.kind.range.IsSingleCacheLine(), desc);
      } else {
        r := RaiseFixLocation(false, desc);
      }
    }

    /** The fixes of all operations that a scan found. */
    method HandleOperations(ops: seq<nat>, kind: FixType, ghost events: seq<TraceEvent>) returns (r: Outcome)
      requires AllConstructed(fixMap)
      requires |ops| == |events| && forall k | 0 <= k < |ops| :: ops[k] < |env.trace| && env.trace[ops[k]] == events[k]
      requires Found(events)
      modifies this`fixMap
      ensures Adds(old(fixMap), EventsAdds(env, events, kind), r, fixMap)
      ensures AllConstructed(fixMap)
    {
      hide Adds, SoFar, AllConstructed, EventsAdds, EventAdds, AddAll, AllMerge, AnyAdded;
      SoFarNothing(fixMap);
      EventsAddsOfNothing(env, kind);
      var added := false;
      for k := 0 to |ops|
        invariant AllConstructed(fixMap)
        invariant EventsAdds(env, events[..k], kind).Some?
        invariant SoFar(old(fixMap), EventsAdds(env, events[..k], kind).value, added, fixMap)
      {
        var last := env.trace[ops[k]];
        assert last == events[k] && last in events;
        EventsAddsStep(env, events, k, kind);
        ghost var done := EventsAdds(env, events[..k], kind).value;
        ghost var before := fixMap;
        var res := HandleOperation(last, kind);
        EventsAddsPrefix(env, events, k + 1, kind);
        AddsStep(old(fixMap), done, added, before, EventAdds(env, last, kind), res, fixMap,
                 EventsAdds(env, events, kind));
        if res.Failed? {
          return Failed;
        }
        added := res.added || added;
      }
      assert events[..|ops|] == events;
      AddsFinish(old(fixMap), EventsAdds(env, events, kind).value, added, fixMap);
      return Done(added);
    }

    /** Scan back from a bug and add the fixes for what the scan finds. */
    method HandleAssertPersisted(bugIndex: nat) returns (r: Outcome)
      requires AllConstructed(fixMap) && WellFormedTrace(env.trace)
      requires bugIndex < |env.trace| && env.trace[bugIndex].kind.AssertPersisted?
      modifies this`fixMap
      ensures Adds(old(fixMap), BugAdds(env, bugIndex), r, fixMap)
      ensures AllConstructed(fixMap)
    {
      var range := env.trace[bugIndex].kind.range;
      assert env.trace[bugIndex] in env.trace;
      var verdict := ScanBackwards(env.trace, bugIndex, range);
      if verdict.ScanFails? {
        return Failed;
      }
      ghost var hist := env.trace[..bugIndex];
      ScanBackEvents(hist, range);
      ScanBackHits(hist, range, []);
      r := HandleOperations(verdict.opIndices, KindFor(verdict.missingFlush, verdict.missingFence),
                            ScanBack(hist, range, []).events);
    }

    method ComputeAndAddFix(bugIndex: nat) returns (r: Outcome)
      requires AllConstructed(fixMap) && WellFormedTrace(env.trace) && bugIndex < |env.trace|
      modifies this`fixMap
      ensures Adds(old(fixMap), BugAdds(env, bugIndex), r, fixMap)
      ensures AllConstructed(fixMap)
    {
      if env.trace[bugIndex].kind.AssertPersisted? {
        r := HandleAssertPersisted(bugIndex);
      } else {
        return Done(false);
      }
    }

    /** Step 1 of the repair: collect the fixes of all bugs. */
    method ComputeAllFixes(bugs: seq<nat>) returns (r: Outcome)
      requires AllConstructed(fixMap) && WellFormedTrace(env.trace)
      requires forall k | 0 <= k < |bugs| :: bugs[k] < |env.trace|
      modifies this`fixMap
      ensures Adds(old(fixMap), BugsAdds(env, bugs), r, fixMap)
      ensures AllConstructed(fixMap)
    {
      hide Adds, SoFar, AllConstructed, AddAll, AllMerge, AnyAdded;
      SoFarNothing(fixMap);
      var added := false;
      for k := 0 to |bugs|
        invariant AllConstructed(fixMap)
        invariant BugsAdds(env, bugs[..k]).Some?
        invariant SoFar(old(fixMap), BugsAdds(env, bugs[..k]).value, added, fixMap)
      {
        assert bugs[..k + 1][..k] == bugs[..k];
        ghost var before := fixMap;
        var res := ComputeAndAddFix(bugs[k]);
        BugsAddsPrefix(env, bugs, k + 1);
        AddsStep(old(fixMap), BugsAdds(env, bugs[..k]).value, added, before, BugAdds(env, bugs[k]), res, fixMap,
                 BugsAdds(env, bugs));
        if res.Failed? {
          return Failed;
        }
        added := res.added || added;
      }
      assert bugs[..|bugs|] == bugs;
      AddsFinish(old(fixMap), BugsAdds(env, bugs).value, added, fixMap);
      return Done(added);
    }

    /** The next entry of the map in its order, if there is one. */
    method NextKey(after: Option<FixLoc>) returns (next: Option<FixLoc>)
      ensures next.Some? ==> next.value in fixMap && Beyond(after, next.value)
      ensures next.Some? ==> forall fl | fl in fixMap && Beyond(after, fl) :: fl == next.value || next.value.Less(fl)
      ensures next.None? ==> forall fl | fl in fixMap :: !Beyond(after, fl)
    {
      next := None;
      var todo := fixMap.Keys;
      while todo != {}
        invariant todo <= fixMap.Keys
        invariant next.Some? ==> next.value in fixMap && Beyond(after, next.value)
        invariant next.Some? ==>
                    forall fl | fl in fixMap && fl !in todo && Beyond(after, fl) ::
                      fl == next.value || next.value.Less(fl)
        invariant next.None? ==> forall fl | fl in fixMap && fl !in todo :: !Beyond(after, fl)
        decreases todo
      {
        var fl :| fl in todo;
        if Beyond(after, fl) && (next.None? || fl.Less(next.value)) {
          next := Some(fl);
        }
        todo := todo - {fl};
      }
    }

    /** Step 2 of the repair: raise primitive fixes while walking over the map that the raised fixes are
        inserted into, and erase afterwards the ones that moved. The walk terminates, and does what one pass
        over the primitive entries, in the order of the map, does. */
    method RunFixMapOptimization() returns (r: Outcome)
      requires AllConstructed(fixMap)
      modifies this`fixMap
      ensures var p := RaisePass(env, old(fixMap), PrimitivesOf(old(fixMap)));
              && (r.Done? <==> p.ok)
              && (r.Done? ==> fixMap == Erase(p.fixMap, p.moved) && (r.added <==> p.moved != []))
      ensures AllConstructed(fixMap)
    {
      hide PrimitivesOf, AddAll, AllMerge, AnyAdded, RaiseAdds, Beyond, PrimitiveKeys;
      var moved: seq<FixLoc> := [];
      ghost var start, n := fixMap, 0;
      ghost var keys := PrimitivesOf(start);
      ghost var universe := fixMap.Keys + Fronts(env);
      var last: Option<FixLoc> := None;
      var next := NextKey(last);
      NothingWalked(keys);
      assert keys[..0] == [];
      while next.Some?
        invariant AllConstructed(fixMap)
        invariant fixMap.Keys <= universe
        invariant next.Some? ==> next.value in fixMap && Beyond(last, next.value)
        invariant next.Some? ==> forall fl | fl in fixMap && Beyond(last, fl) :: fl == next.value || next.value.Less(fl)
        invariant next.None? ==> forall fl | fl in fixMap :: !Beyond(last, fl)
        invariant WalkedTo(keys, n, last) && OthersRaised(start, fixMap)
        invariant RaisePass(env, start, keys[..n]) == Pass(fixMap, moved, true)
        decreases Remaining(universe, last)
      {
        var fl := next.value;
        var desc := fixMap[fl];
        RemainingShrinks(universe, last, fl);
        WalkedNext(start, fixMap, keys, n, last, fl);
        if fl in keys {
          assert keys[..n + 1] == keys[..n] + [fl];
          RaisePassSnoc(env, start, keys[..n], fl);
        }
        if desc.kind.Primitive() {
          ghost var before := fixMap;
          r := RaiseFixLocation(true, desc);
          RaiseAddsAreFronts(env, desc, true);
          RaisedKindIsSubprogram(desc.kind);
          if r.Failed? {
            FailedStaysFailed(env, start, keys, n + 1);
            return;
          }
          AddAllKeys(env, before, RaiseAdds(env, desc, true).value);
          OthersRaisedStep(start, before, RaiseAdds(env, desc, true).value);
          if r.added {
            moved := moved + [fl];
          }
        }
        if fl in keys {
          n := n + 1;
        }
        last := Some(fl);
        next := NextKey(last);
      }
      AllWalked(start, fixMap, keys, n, last);
      assert keys[..n] == keys;
      fixMap := Erase(fixMap, moved);
      r := Done(moved != []);
    }

    /** Steps 1 and 2: the fixes of all bugs, raised unless that is switched off. */
    method PlanRepair(bugs: seq<nat>) returns (r: Outcome)
      requires fixMap == map[] && WellFormedTrace(env.trace)
      requires forall k | 0 <= k < |bugs| :: bugs[k] < |env.trace|
      modifies this`fixMap
      ensures r.Done? <==> Planned(env, bugs).Some?
      ensures r.Done? ==> fixMap == Planned(env, bugs).value
    {
      hide AddAll, AllMerge, PrimitivesOf, RaisePass, BugsAdds, AllConstructed;
      EmptyConstructed();
      r := ComputeAllFixes(bugs);
      if r.Failed? {
        return;
      }
      if !env.disableRaising {
        var raised := RunFixMapOptimization();
        r := if raised.Failed? then Failed else Done(r.added || raised.added);
      }
    }
  }

  /** The map after steps 1 and 2, if no `assert` fails on the way. */
  ghost function Planned(env: Env, bugs: seq<nat>): Option<FixMap>
    requires WellFormedTrace(env.trace) && forall k | 0 <= k < |bugs| :: bugs[k] < |env.trace|
  {
    var adds := BugsAdds(env, bugs);
    if adds.None? || !AllMerge(map[], adds.value) then None
    else
      var m := AddAll(map[], adds.value);
      var p := RaisePass(env, m, PrimitivesOf(m));
      if env.disableRaising then Some(m)
      else if p.ok then Some(Erase(p.fixMap, p.moved))
      else None
  }

  lemma EmptyConstructed()
    ensures AllConstructed(map[])
  {
  }
}
