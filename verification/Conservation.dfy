/**
 What the fix map guarantees over a whole repair (src/BugFixer.cpp:872-898, src/BugFixer.cpp:1012-1039):
 its duties are those of the bugs, in whatever order they come, and no addition runs into the last
 `assert(false)`. What raising conserves, and what it loses, is in `Stacks`.
 */
module Conservation {
  import opened Options
  import opened Traces
  import opened Mapping
  import opened Fixes
  import opened Raising
  import opened BugFixing

  /** Ranges of instructions as the mapper makes them. */
  predicate RangesValid(env: Env) {
    forall l, fl | l in env.fixLocs && fl in env.fixLocs[l] :: fl.IsValid()
  }

  /** No place that a fix of the trace can be raised to is itself a single store. */
  ghost predicate CallSitesApart(env: Env) {
    RangesValid(env) && forall fl | CallSite(env, fl) :: !AtStore(env, fl)
  }

  predicate AtStore(env: Env, fl: FixLoc) {
    fl.first == fl.last && fl.first in env.stores
  }

  /** Primitive fixes go to single stores and raised ones to call sites. */
  ghost predicate WellPlaced(env: Env, a: Add) {
    && a.loc.IsValid() && a.desc.Repairing() && FromTrace(env, a.desc.dynStack)
    && (a.desc.kind.Primitive() ==> AtStore(env, a.loc))
    && (a.desc.kind.Subprogram() ==> CallSite(env, a.loc))
  }

  lemma CallSitesValid(env: Env, fl: FixLoc)
    requires RangesValid(env) && CallSite(env, fl)
    ensures fl.IsValid()
  {
    var stack, i :| FromTrace(env, stack) && LandsAt(env, stack, i, fl);
    assert fl in env.fixLocs[stack[i]];
  }

  lemma EventAddsWellPlaced(env: Env, e: TraceEvent, kind: FixType, a: Add)
    requires RangesValid(env) && e in env.trace
    requires e.callstack != [] && (e.kind.Store? || e.kind.Flush?) && kind.Primitive()
    requires EventAdds(env, e, kind).Some? && a in EventAdds(env, e, kind).value
    ensures WellPlaced(env, a)
  {
    var l := e.callstack[0];
    var desc := Desc(kind, e.callstack, 0);
    assert FromTrace(env, e.callstack);
    if env.Mapped(l) {
      RangeAddsMeaning(env, env.fixLocs[l], desc, a);
    } else {
      RaiseAddsAtCallSites(env, desc, false);
      CallSitesValid(env, a.loc);
    }
  }

  lemma {:induction false} EventsAddsMeaning(env: Env, events: seq<TraceEvent>, kind: FixType, a: Add)
    requires Found(events)
    requires EventsAdds(env, events, kind).Some?
    ensures forall e | e in events :: EventAdds(env, e, kind).Some?
    ensures a in EventsAdds(env, events, kind).value <==> exists e :: e in events && a in EventAdds(env, e, kind).value
  {
    hide EventAdds;
    if events != [] {
      var front, e := events[..|events| - 1], events[|events| - 1];
      assert events == front + [e];
      EventsAddsMeaning(env, front, kind, a);
      if x :| x in events && a in EventAdds(env, x, kind).value {
        assert x in front || x == e;
      }
    }
  }

  lemma {:induction false} BugsAddsMeaning(env: Env, bugs: seq<nat>, a: Add)
    requires WellFormedTrace(env.trace) && forall k | 0 <= k < |bugs| :: bugs[k] < |env.trace|
    requires BugsAdds(env, bugs).Some?
    ensures forall k | 0 <= k < |bugs| :: BugAdds(env, bugs[k]).Some?
    ensures a in BugsAdds(env, bugs).value <==> exists k :: 0 <= k < |bugs| && a in BugAdds(env, bugs[k]).value
  {
    hide BugAdds;
    if bugs != [] {
      var n := |bugs| - 1;
      var front := bugs[..n];
      assert forall k | 0 <= k < n :: front[k] == bugs[k];
      BugsAddsMeaning(env, front, a);
    }
  }

  lemma BugAddsWellPlaced(env: Env, bug: nat, a: Add)
    requires RangesValid(env) && WellFormedTrace(env.trace) && bug < |env.trace|
    requires BugAdds(env, bug).Some? && a in BugAdds(env, bug).value
    ensures WellPlaced(env, a)
  {
    var hist, r := env.trace[..bug], env.trace[bug].kind.range;
    var f := ScanBack(hist, r, []);
    var kind := KindFor(f.MissingFlush(), f.MissingFence());
    ScanBackEvents(hist, r);
    EventsAddsMeaning(env, f.events, kind, a);
    var e :| e in f.events && a in EventAdds(env, e, kind).value;
    EventAddsWellPlaced(env, e, kind, a);
  }

  lemma BugsAddsWellPlaced(env: Env, bugs: seq<nat>)
    requires RangesValid(env) && WellFormedTrace(env.trace) && forall k | 0 <= k < |bugs| :: bugs[k] < |env.trace|
    requires BugsAdds(env, bugs).Some?
    ensures forall a | a in BugsAdds(env, bugs).value :: WellPlaced(env, a)
  {
    hide WellPlaced, BugAdds, BugsAdds;
    forall a | a in BugsAdds(env, bugs).value ensures WellPlaced(env, a) {
      BugsAddsMeaning(env, bugs, a);
      var k :| 0 <= k < |bugs| && a in BugAdds(env, bugs[k]).value;
      BugAddsWellPlaced(env, bugs[k], a);
    }
  }

  lemma {:induction false} AddAllFromTrace(env: Env, m: FixMap, adds: seq<Add>)
    requires AllFromTrace(env, m) && forall a | a in adds :: FromTrace(env, a.desc.dynStack)
    ensures AllFromTrace(env, AddAll(m, adds))
  {
    hide FromTrace;
    if adds != [] {
      var front, a := adds[..|adds| - 1], adds[|adds| - 1];
      assert adds == front + [a];
      AddAllFromTrace(env, m, front);
    }
  }

  /** In step 1 no addition fails: every pair of fixes that meet at a location has a rule. */
  lemma StepOneNeverClashes(env: Env, bugs: seq<nat>)
    requires CallSitesApart(env) && WellFormedTrace(env.trace) && forall k | 0 <= k < |bugs| :: bugs[k] < |env.trace|
    requires BugsAdds(env, bugs).Some?
    ensures var adds := BugsAdds(env, bugs).value;
            && Peaceful(map[], adds) && AllMerge(map[], adds)
            && AllRepairing(AddAll(map[], adds)) && Separated(env, AddAll(map[], adds))
            && AllFromTrace(env, AddAll(map[], adds))
  {
    var adds := BugsAdds(env, bugs).value;
    BugsAddsWellPlaced(env, bugs);
    forall i | 0 <= i < |adds| ensures WellPlaced(env, adds[i]) {
      assert adds[i] in adds;
    }
    assert forall fl :: !(AtStore(env, fl) && CallSite(env, fl));
    PeacefulMerges(map[], adds);
    AddAllFromTrace(env, map[], adds);
  }

  ghost predicate PrimitivesStay(m: FixMap, now: FixMap) {
    forall fl | fl in m && m[fl].kind.Primitive() :: fl in now && now[fl] == m[fl]
  }

  /** Nor does any in step 2, since raised fixes then go to other places than primitive ones. */
  lemma {:induction false} StepTwoNeverClashes(env: Env, m: FixMap, keys: seq<FixLoc>)
    requires CallSitesApart(env) && Separated(env, m) && AllRepairing(m) && AllFromTrace(env, m)
    requires forall fl | fl in keys :: fl in m && m[fl].kind.Primitive()
    ensures var p := RaisePass(env, m, keys);
            && OthersRaised(m, p.fixMap) && PrimitivesStay(m, p.fixMap) && AllRepairing(p.fixMap)
            && (p.ok <==> forall fl | fl in keys :: RaiseAdds(env, m[fl], true).Some?)
  {
    hide AddAll, AllMerge, RaiseAdds, CallSitesApart;
    if keys != [] {
      var front, fl := keys[..|keys| - 1], keys[|keys| - 1];
      assert keys == front + [fl];
      StepTwoNeverClashes(env, m, front);
      var p := RaisePass(env, m, front);
      var adds := RaiseAdds(env, m[fl], true);
      RaiseAddsAtCallSites(env, m[fl], true);
      if p.ok && adds.Some? {
        RaisedMerges(env, m, p.fixMap, adds.value);
        OthersRaisedStep(m, p.fixMap, adds.value);
      }
    }
  }

  lemma RaisedMerges(env: Env, m: FixMap, now: FixMap, adds: seq<Add>)
    requires CallSitesApart(env) && Separated(env, m) && OthersRaised(m, now) && AllRepairing(now)
    requires |adds| <= 1 && forall a | a in adds ::
               CallSite(env, a.loc) && a.desc.Repairing() && a.desc.kind.Subprogram()
    ensures AllMerge(now, adds) && AllRepairing(AddAll(now, adds))
    ensures PrimitivesStay(m, now) ==> PrimitivesStay(m, AddAll(now, adds))
    ensures forall fl | fl in now ::
              fl in AddAll(now, adds) && Duties(now[fl].kind) <= Duties(AddAll(now, adds)[fl].kind)
    ensures forall a | a in adds ::
              a.loc in AddAll(now, adds) && Duties(a.desc.kind) <= Duties(AddAll(now, adds)[a.loc].kind)
  {
    if adds != [] {
      var a := adds[0];
      assert adds == [a];
      CallSitesValid(env, a.loc);
      AddAllOne(now, a);
      if a.loc in now {
        UnmergedPairs(now[a.loc], a.desc);
      }
      AddedIffTypeChanged(now, a.loc, a.desc);
    }
  }

  // ----- The bugs and the map -----------------------------------------------------------------------

  /** The order of the bugs in the trace is irrelevant: the locations and types of the fixes depend
      only on the set of bugs. */
  lemma BugOrderIrrelevant(env: Env, bugs: seq<nat>, bugs': seq<nat>, fl: FixLoc)
    requires CallSitesApart(env) && WellFormedTrace(env.trace)
    requires forall k | 0 <= k < |bugs| :: bugs[k] < |env.trace|
    requires forall k | 0 <= k < |bugs'| :: bugs'[k] < |env.trace|
    requires forall b :: b in bugs <==> b in bugs'
    requires BugsAdds(env, bugs).Some? && BugsAdds(env, bugs').Some?
    ensures var m, m' := AddAll(map[], BugsAdds(env, bugs).value), AddAll(map[], BugsAdds(env, bugs').value);
            (fl in m <==> fl in m') && (fl in m ==> m[fl].kind == m'[fl].kind)
  {
    var adds, adds' := BugsAdds(env, bugs).value, BugsAdds(env, bugs').value;
    forall a ensures a in adds <==> a in adds' {
      BugsAddsMeaning(env, bugs, a);
      BugsAddsMeaning(env, bugs', a);
      if k :| 0 <= k < |bugs| && a in BugAdds(env, bugs[k]).value {
        assert bugs[k] in bugs';
      }
      if k :| 0 <= k < |bugs'| && a in BugAdds(env, bugs'[k]).value {
        assert bugs'[k] in bugs;
      }
    }
    StepOneNeverClashes(env, bugs);
    OrderOfFixesIrrelevant(adds, adds', fl);
  }

  /** The verdict of the scan for a bug that the fixer could handle. */
  ghost function VerdictKind(env: Env, bug: nat): FixType
    requires bug < |env.trace| && env.trace[bug].kind.AssertPersisted?
  {
    var f := ScanBack(env.trace[..bug], env.trace[bug].kind.range, []);
    KindFor(f.MissingFlush(), f.MissingFence())
  }

  /** Each store instruction at the location of an operation found for some bug ends up with a fix
      that has the duties of the verdict. */
  lemma BugsAreCharged(env: Env, bugs: seq<nat>, k: nat, e: TraceEvent, i: Inst)
    requires CallSitesApart(env) && WellFormedTrace(env.trace)
    requires forall k | 0 <= k < |bugs| :: bugs[k] < |env.trace|
    requires BugsAdds(env, bugs).Some? && k < |bugs|
    requires env.trace[bugs[k]].kind.AssertPersisted?
    requires e in ScanBack(env.trace[..bugs[k]], env.trace[bugs[k]].kind.range, []).events
    requires e.callstack != [] && env.Mapped(e.callstack[0]) && StoreOf(env, env.fixLocs[e.callstack[0]], i)
    ensures var m := AddAll(map[], BugsAdds(env, bugs).value);
            FixLoc(i, i) in m && Duties(VerdictKind(env, bugs[k])) <= Duties(m[FixLoc(i, i)].kind)
    ensures (e.kind.Store? || e.kind.Flush?) && e.kind.range.IsSingleCacheLine()
  {
    var bug := bugs[k];
    var hist, r := env.trace[..bug], env.trace[bug].kind.range;
    var f, kind := ScanBack(hist, r, []), VerdictKind(env, bug);
    var desc := Desc(kind, e.callstack, 0);
    var a := Add(FixLoc(i, i), desc);
    ScanBackEvents(hist, r);
    BugsAddsMeaning(env, bugs, a);
    EventsAddsMeaning(env, f.events, kind, a);
    RangeAddsMeaning(env, env.fixLocs[e.callstack[0]], desc, a);
    assert a in EventAdds(env, e, kind).value;
    StepOneNeverClashes(env, bugs);
    var adds := BugsAdds(env, bugs).value;
    FixMapIsJoin(map[], adds, FixLoc(i, i));
    var n :| 0 <= n < |adds| && adds[n] == a;
    assert AddedAt(adds, FixLoc(i, i));
    assert forall d | d in Duties(kind) :: DutyAddedAt(adds, FixLoc(i, i), d);
  }

  // ----- Operations in lines that are not mapped ------------------------------------------------------------

  /** Whatever is added and merges leaves its duties at its place. */
  lemma {:induction false} AddedDutiesStay(adds: seq<Add>, a: Add)
    requires AllMerge(map[], adds) && a in adds && forall x | x in adds :: x.desc.Repairing()
    ensures var m := AddAll(map[], adds);
            AllRepairing(m) && a.loc in m && Duties(a.desc.kind) <= Duties(m[a.loc].kind)
  {
    hide Duties;
    var front, last := adds[..|adds| - 1], adds[|adds| - 1];
    assert adds == front + [last];
    var m := AddAll(map[], front);
    if front == [] {
      assert m == map[];
    } else {
      AddedDutiesStay(front, front[0]);
    }
    AddedIffTypeChanged(m, last.loc, last.desc);
    if a in front {
      AddedDutiesStay(front, a);
    }
  }

  /** A fix without a line of its own never stays: it is raised, or no frame takes it. */
  lemma UnmappedIsRaised(env: Env, stack: seq<Location>)
    requires stack != [] && !env.Mapped(stack[0])
    ensures !ChooseFrame(env, stack, false).Stays?
  {
    var h := HeuristicFrame(env, stack);
    if h == 0 {
      LandIsLeast(env, stack, false, 0, None);
    }
  }

  /** The library case: the line of an operation found for a bug is not mapped. When step 1 runs through, the first
      range of some frame of its call stack has a raised fix, which flushes, and fences if the verdict asks for a
      fence. */
  lemma UnmappedBugsAreCharged(env: Env, bugs: seq<nat>, k: nat, e: TraceEvent)
    requires RangesValid(env) && WellFormedTrace(env.trace)
    requires forall k | 0 <= k < |bugs| :: bugs[k] < |env.trace|
    requires BugsAdds(env, bugs).Some? && AllMerge(map[], BugsAdds(env, bugs).value) && k < |bugs|
    requires env.trace[bugs[k]].kind.AssertPersisted?
    requires e in ScanBack(env.trace[..bugs[k]], env.trace[bugs[k]].kind.range, []).events
    requires e.callstack != [] && !env.Mapped(e.callstack[0])
    ensures var m := AddAll(map[], BugsAdds(env, bugs).value);
            var f := ScanBack(env.trace[..bugs[k]], env.trace[bugs[k]].kind.range, []);
            exists l ::
              && l in e.callstack && env.Mapped(l) && env.fixLocs[l] != [] && env.fixLocs[l][0] in m
              && (if f.MissingFence() then m[env.fixLocs[l][0]].kind == AddPersistCallstackOpt
                  else m[env.fixLocs[l][0]].kind in {AddPersistCallstackOpt, AddPersistCallstackOptNoFence})
  {
    hide BugsAdds, BugAdds, AllMerge, AddAll, ScanBack, FromTrace, CallSite;
    var bug, adds := bugs[k], BugsAdds(env, bugs).value;
    var hist, r := env.trace[..bug], env.trace[bug].kind.range;
    var f := ScanBack(hist, r, []);
    var kind := KindFor(f.MissingFlush(), f.MissingFence());
    ScanBackEvents(hist, r);
    var a := UnmappedAdd(env, bugs, k, e);
    BugsAddsWellPlaced(env, bugs);
    assert forall x | x in adds :: WellPlaced(env, x);
    AddedDutiesStay(adds, a);
    RaiseAddsAreFronts(env, Desc(kind, e.callstack, 0), false);
    var l :| l in e.callstack && IsFrontOf(env, l, a.loc);
    var here := AddAll(map[], adds)[a.loc];
    assert here.Repairing();
    assert CloneDuty in Duties(a.desc.kind) && CloneDuty in Duties(here.kind);
    assert f.MissingFence() ==> FenceDuty in Duties(a.desc.kind) && FenceDuty in Duties(here.kind);
  }

  lemma UnmappedAdd(env: Env, bugs: seq<nat>, k: nat, e: TraceEvent) returns (a: Add)
    requires RangesValid(env) && WellFormedTrace(env.trace)
    requires forall k | 0 <= k < |bugs| :: bugs[k] < |env.trace|
    requires BugsAdds(env, bugs).Some? && k < |bugs| && env.trace[bugs[k]].kind.AssertPersisted?
    requires e in ScanBack(env.trace[..bugs[k]], env.trace[bugs[k]].kind.range, []).events
    requires e.callstack != [] && !env.Mapped(e.callstack[0])
    ensures a in BugsAdds(env, bugs).value
    ensures var f := ScanBack(env.trace[..bugs[k]], env.trace[bugs[k]].kind.range, []);
            RaiseAdds(env, Desc(KindFor(f.MissingFlush(), f.MissingFence()), e.callstack, 0), false) == Some([a])
  {
    hide BugsAdds, ScanBack, RaiseAdds;
    var bug := bugs[k];
    var hist, r := env.trace[..bug], env.trace[bug].kind.range;
    var f := ScanBack(hist, r, []);
    var kind := KindFor(f.MissingFlush(), f.MissingFence());
    ScanBackEvents(hist, r);
    BugsAddsMeaning(env, bugs, Add(FixLoc(Inst(0, 0), Inst(0, 0)), Desc(NoFix, [], 0)));
    EventsAddsMeaning(env, f.events, kind, Add(FixLoc(Inst(0, 0), Inst(0, 0)), Desc(NoFix, [], 0)));
    UnmappedRaises(env, Desc(kind, e.callstack, 0));
    a := RaiseAdds(env, Desc(kind, e.callstack, 0), false).value[0];
    BugsAddsMeaning(env, bugs, a);
    EventsAddsMeaning(env, f.events, kind, a);
    assert a in EventAdds(env, e, kind).value;
  }

  lemma UnmappedRaises(env: Env, desc: FixDesc)
    requires desc.dynStack != [] && !env.Mapped(desc.dynStack[0]) && RaiseAdds(env, desc, false).Some?
    ensures var adds := RaiseAdds(env, desc, false).value; adds != [] && adds == [adds[0]]
  {
    UnmappedIsRaised(env, desc.dynStack);
  }
}
