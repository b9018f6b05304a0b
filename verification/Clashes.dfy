/**
 Exactly when repair steps 1 and 2 (src/BugFixer.cpp:1012-1039) run into a failing `assert`, for all programs
 and traces: conditions on the fixes of step 1 in their order, and on the map that step 2 starts from.
 */
module Clashes {
  import opened Options
  import opened Traces
  import opened Mapping
  import opened Fixes
  import opened Raising
  import opened BugFixing
  import opened Conservation

  // ----- Step 1 -------------------------------------------------------------------------------------------

  ghost predicate AnyAt(adds: seq<Add>, fl: FixLoc) {
    exists a :: a in adds && a.loc == fl
  }

  predicate OnlyPrimitives(adds: seq<Add>, fl: FixLoc) {
    forall a | a in adds && a.loc == fl :: a.desc.kind.Primitive()
  }

  /** Only raised fixes without a fence have been put at `fl`. */
  predicate OnlyUnfenced(adds: seq<Add>, fl: FixLoc) {
    forall a | a in adds && a.loc == fl :: a.desc.kind.AddPersistCallstackOptNoFence?
  }

  /** A raised fix without a fence comes to a place that so far has primitive fixes only, or a flush to one that
      so far has raised fixes without a fence only. */
  ghost predicate Clash(before: seq<Add>, a: Add) {
    AnyAt(before, a.loc) &&
    if a.desc.kind.AddPersistCallstackOptNoFence? then OnlyPrimitives(before, a.loc)
    else a.desc.kind.AddFlushOnly? && OnlyUnfenced(before, a.loc)
  }

  predicate WellFormedAdds(adds: seq<Add>) {
    forall a | a in adds :: a.loc.IsValid() && a.desc.Repairing()
  }

  /** What stands at a place tells which fixes have been put there. */
  ghost predicate KindTells(adds: seq<Add>, fl: FixLoc, m: FixMap) {
    && (fl in m <==> AnyAt(adds, fl))
    && (fl in m ==>
          && m[fl].Repairing()
          && (m[fl].kind.Primitive() <==> OnlyPrimitives(adds, fl))
          && (m[fl].kind.AddPersistCallstackOptNoFence? <==> OnlyUnfenced(adds, fl)))
  }

  lemma KindTellsStep(front: seq<Add>, a: Add, fl: FixLoc, m: FixMap)
    requires KindTells(front, fl, m) && a.desc.Repairing() && !ResultOfAdd(m, a.loc, a.desc).AssertFails?
    ensures KindTells(front + [a], fl, MapAfterAdd(m, a.loc, a.desc))
  {
    assert forall x :: x in front + [a] <==> x in front || x == a;
    if AnyAt(front, fl) {
      var x :| x in front && x.loc == fl;
      assert x in front + [a];
    }
    if a.loc == fl {
      assert a in front + [a];
    }
  }

  lemma {:induction false} KindsTell(adds: seq<Add>, fl: FixLoc)
    requires WellFormedAdds(adds) && AllMerge(map[], adds)
    ensures KindTells(adds, fl, AddAll(map[], adds))
  {
    hide KindTells;
    if adds == [] {
      NothingTells(fl);
    } else {
      var front, a := adds[..|adds| - 1], adds[|adds| - 1];
      assert adds == front + [a];
      KindsTell(front, fl);
      KindTellsStep(front, a, fl, AddAll(map[], front));
    }
  }

  lemma NothingTells(fl: FixLoc)
    ensures KindTells([], fl, map[])
  {
  }

  lemma AddFailsIff(before: seq<Add>, a: Add, m: FixMap)
    requires KindTells(before, a.loc, m) && a.loc.IsValid() && a.desc.Repairing()
    ensures ResultOfAdd(m, a.loc, a.desc).AssertFails? <==> Clash(before, a)
  {
    if a.loc in m {
      UnmergedPairs(m[a.loc], a.desc);
    }
  }

  ghost predicate AnyClash(adds: seq<Add>) {
    exists i :: 0 <= i < |adds| && Clash(adds[..i], adds[i])
  }

  lemma AnyClashSnoc(front: seq<Add>, a: Add)
    ensures AnyClash(front + [a]) <==> AnyClash(front) || Clash(front, a)
  {
    hide Clash;
    var adds := front + [a];
    assert adds[..|front|] == front;
    assert forall i | 0 <= i < |front| :: adds[..i] == front[..i] && adds[i] == front[i];
    if Clash(front, a) {
      assert Clash(adds[..|front|], adds[|front|]);
    }
    if AnyClash(front) {
      var i :| 0 <= i < |front| && Clash(front[..i], front[i]);
      assert Clash(adds[..i], adds[i]);
    }
  }

  /** A list of additions fails exactly when two of its fixes clash in their order. */
  lemma {:induction false} AdditionsFailIff(adds: seq<Add>)
    requires WellFormedAdds(adds)
    ensures !AllMerge(map[], adds) <==> AnyClash(adds)
  {
    hide Clash, AnyClash, ResultOfAdd;
    if adds == [] {
      NothingClashes();
    } else {
      var front, a := adds[..|adds| - 1], adds[|adds| - 1];
      assert adds == front + [a];
      AdditionsFailIff(front);
      AnyClashSnoc(front, a);
      if AllMerge(map[], front) {
        KindsTell(front, a.loc);
        AddFailsIff(front, a, AddAll(map[], front));
      }
    }
  }

  lemma NothingClashes()
    ensures !AnyClash([])
  {
  }

  /** When step 1 fails, for every program and trace: if the fixes of some bug cannot be made at all, or if two
      fixes clash at one place. */
  lemma StepOneFailsIff(env: Env, bugs: seq<nat>)
    requires RangesValid(env) && WellFormedTrace(env.trace) && forall k | 0 <= k < |bugs| :: bugs[k] < |env.trace|
    requires BugsAdds(env, bugs).Some?
    ensures var adds := BugsAdds(env, bugs).value;
            && WellFormedAdds(adds)
            && (!AllMerge(map[], adds) <==> AnyClash(adds))
            && (AllMerge(map[], adds) ==> AllRepairing(AddAll(map[], adds)))
  {
    hide BugsAdds, AllMerge, AnyClash, AddAll, CallSite, FromTrace;
    var adds := BugsAdds(env, bugs).value;
    BugsAddsWellPlaced(env, bugs);
    assert forall a | a in adds :: WellPlaced(env, a);
    AdditionsFailIff(adds);
    if AllMerge(map[], adds) {
      forall fl | fl in AddAll(map[], adds) ensures AddAll(map[], adds)[fl].Repairing() {
        KindsTell(adds, fl);
      }
    }
  }

  // ----- Step 2 -------------------------------------------------------------------------------------------

  /** The places where raised fixes with a fence stand after a pass over `keys`. */
  ghost function Fenced(env: Env, m: FixMap, keys: seq<FixLoc>): set<FixLoc>
    requires forall fl | fl in keys :: fl in m
  {
    if keys == [] then {}
    else
      var before, fl := Fenced(env, m, keys[..|keys| - 1]), keys[|keys| - 1];
      if fl in before then before else before + FencedBy(RaiseAdds(env, m[fl], true))
  }

  ghost function FencedBy(adds: Option<seq<Add>>): set<FixLoc> {
    if adds.None? then {} else set a | a in adds.value && a.desc.kind.AddPersistCallstackOpt? :: a.loc
  }

  /** After `keys`, the fix at `fl` is still to be raised, and cannot: no frame takes it, or it has no fence and
      would come to where a primitive fix stands. */
  ghost predicate Stuck(env: Env, m: FixMap, keys: seq<FixLoc>, fl: FixLoc)
    requires fl in m && forall x | x in keys :: x in m
  {
    && fl !in Fenced(env, m, keys)
    && (RaiseAdds(env, m[fl], true).Some? ==>
          exists a :: a in RaiseAdds(env, m[fl], true).value && a.desc.kind.AddPersistCallstackOptNoFence?
                      && a.loc in m && m[a.loc].kind.Primitive() && a.loc !in Fenced(env, m, keys))
  }

  ghost predicate AnyStuck(env: Env, m: FixMap, keys: seq<FixLoc>)
    requires forall fl | fl in keys :: fl in m
  {
    exists k :: 0 <= k < |keys| && Stuck(env, m, keys[..k], keys[k])
  }

  /** The map in the middle of a pass. */
  ghost predicate Midway(m: FixMap, now: FixMap, fenced: set<FixLoc>) {
    && OthersRaised(m, now) && AllRepairing(now)
    && (forall fl | fl in fenced :: fl in now && now[fl].kind.AddPersistCallstackOpt?)
    && (forall fl | fl in m && m[fl].kind.Primitive() && fl !in fenced :: now[fl] == m[fl])
  }

  lemma MidwayAdd(env: Env, m: FixMap, now: FixMap, fenced: set<FixLoc>, a: Add)
    requires Midway(m, now, fenced) && a.loc.IsValid() && a.desc.Repairing() && a.desc.kind.Subprogram()
    ensures AllMerge(now, [a]) <==>
              !(a.desc.kind.AddPersistCallstackOptNoFence? && a.loc in m && m[a.loc].kind.Primitive()
                && a.loc !in fenced)
    ensures AllMerge(now, [a]) ==>
              Midway(m, AddAll(now, [a]), fenced + if a.desc.kind.AddPersistCallstackOpt? then {a.loc} else {})
  {
    AddAllOne(now, a);
    if a.loc in now {
      UnmergedPairs(now[a.loc], a.desc);
    }
  }

  lemma FencedSnoc(env: Env, m: FixMap, keys: seq<FixLoc>, fl: FixLoc)
    requires fl in m && forall x | x in keys :: x in m
    ensures forall x | x in keys + [fl] :: x in m
    ensures Fenced(env, m, keys + [fl]) ==
            Fenced(env, m, keys) + if fl in Fenced(env, m, keys) then {} else FencedBy(RaiseAdds(env, m[fl], true))
  {
    assert (keys + [fl])[..|keys|] == keys;
  }

  lemma AnyStuckSnoc(env: Env, m: FixMap, keys: seq<FixLoc>, fl: FixLoc)
    requires fl in m && forall x | x in keys :: x in m
    ensures forall x | x in keys + [fl] :: x in m
    ensures AnyStuck(env, m, keys + [fl]) <==> AnyStuck(env, m, keys) || Stuck(env, m, keys, fl)
  {
    hide Stuck;
    var all := keys + [fl];
    assert all[..|keys|] == keys;
    assert forall k | 0 <= k < |keys| :: all[..k] == keys[..k] && all[k] == keys[k];
    if Stuck(env, m, keys, fl) {
      assert Stuck(env, m, all[..|keys|], all[|keys|]);
    }
    if AnyStuck(env, m, keys) {
      var k :| 0 <= k < |keys| && Stuck(env, m, keys[..k], keys[k]);
      assert Stuck(env, m, all[..k], all[k]);
    }
  }

  lemma FrontsValid(env: Env, desc: FixDesc)
    requires RangesValid(env) && RaiseAdds(env, desc, true).Some? && RaiseAdds(env, desc, true).value != []
    ensures var adds := RaiseAdds(env, desc, true).value;
            |adds| == 1 && adds[0].loc.IsValid() && adds[0].desc.Repairing() && adds[0].desc.kind.Subprogram()
  {
    RaiseAddsAreFronts(env, desc, true);
    var a := RaiseAdds(env, desc, true).value[0];
    assert a in RaiseAdds(env, desc, true).value;
    var l :| IsFrontOf(env, l, a.loc);
    assert a.loc in env.fixLocs[l];
    RaisedKindIsSubprogram(desc.kind);
  }

  /** One round of step 2. */
  lemma RaiseNextFailsIff(env: Env, m: FixMap, keys: seq<FixLoc>, fl: FixLoc, p: Pass)
    requires RangesValid(env) && fl in m && m[fl].kind.Primitive() && forall x | x in keys :: x in m
    requires p.ok && Midway(m, p.fixMap, Fenced(env, m, keys))
    ensures var q := RaiseNext(env, p, fl);
            && (!q.ok <==> Stuck(env, m, keys, fl))
            && (q.ok ==> Midway(m, q.fixMap, Fenced(env, m, keys + [fl])))
  {
    hide RaiseAdds, AddAll, AllMerge, AnyAdded, Fenced, Midway;
    var fenced, adds := Fenced(env, m, keys), RaiseAdds(env, m[fl], true);
    FencedSnoc(env, m, keys, fl);
    MidwayAt(m, p.fixMap, fenced, fl);
    assert fenced + {} == fenced;
    if fl !in fenced && adds.Some? {
      if adds.value == [] {
        MergesNothing(p.fixMap);
        assert FencedBy(adds) == {};
      } else {
        FrontsValid(env, m[fl]);
        var a := adds.value[0];
        assert adds.value == [a];
        MidwayAdd(env, m, p.fixMap, fenced, a);
        assert FencedBy(adds) == if a.desc.kind.AddPersistCallstackOpt? then {a.loc} else {};
      }
    }
  }

  lemma MergesNothing(m: FixMap)
    ensures AllMerge(m, []) && AddAll(m, []) == m
  {
  }

  lemma MidwayAt(m: FixMap, now: FixMap, fenced: set<FixLoc>, fl: FixLoc)
    requires Midway(m, now, fenced) && fl in m && m[fl].kind.Primitive()
    ensures fl in now
    ensures if fl in fenced then !now[fl].kind.Primitive() else now[fl] == m[fl]
  {
  }

  lemma MidwayStart(m: FixMap)
    requires AllRepairing(m)
    ensures Midway(m, m, {})
  {
  }

  /** When step 2 fails, for every map that step 1 can leave. */
  lemma {:induction false} StepTwoFailsIff(env: Env, m: FixMap, keys: seq<FixLoc>)
    requires RangesValid(env) && AllRepairing(m)
    requires forall fl | fl in keys :: fl in m && m[fl].kind.Primitive()
    ensures !RaisePass(env, m, keys).ok <==> AnyStuck(env, m, keys)
    ensures RaisePass(env, m, keys).ok ==> Midway(m, RaisePass(env, m, keys).fixMap, Fenced(env, m, keys))
  {
    hide RaiseNext, Stuck, AnyStuck, Midway;
    if keys == [] {
      MidwayStart(m);
      NothingStuck(env, m);
    } else {
      var front, fl := keys[..|keys| - 1], keys[|keys| - 1];
      assert keys == front + [fl];
      StepTwoFailsIff(env, m, front);
      AnyStuckSnoc(env, m, front, fl);
      var p := RaisePass(env, m, front);
      if p.ok {
        RaiseNextFailsIff(env, m, front, fl, p);
      } else {
        FailedNext(env, p, fl);
      }
    }
  }

  lemma NothingStuck(env: Env, m: FixMap)
    ensures !AnyStuck(env, m, [])
  {
  }

  lemma FailedNext(env: Env, p: Pass, fl: FixLoc)
    requires !p.ok
    ensures RaiseNext(env, p, fl) == p
  {
  }

  /** Steps 1 and 2 run through exactly when the fixes of each bug can be made, no two of them clash, and, unless
      raising is switched off, no primitive fix gets stuck. */
  lemma PlanIff(env: Env, bugs: seq<nat>)
    requires RangesValid(env) && WellFormedTrace(env.trace) && forall k | 0 <= k < |bugs| :: bugs[k] < |env.trace|
    ensures Planned(env, bugs).Some? <==>
              && BugsAdds(env, bugs).Some? && !AnyClash(BugsAdds(env, bugs).value)
              && var m := AddAll(map[], BugsAdds(env, bugs).value);
                 env.disableRaising || !AnyStuck(env, m, PrimitivesOf(m))
  {
    hide BugsAdds, AnyClash, AddAll, AllMerge, PrimitivesOf, RaisePass, AnyStuck;
    if BugsAdds(env, bugs).Some? {
      StepOneFailsIff(env, bugs);
      var m := AddAll(map[], BugsAdds(env, bugs).value);
      if AllMerge(map[], BugsAdds(env, bugs).value) {
        StepTwoFailsIff(env, m, PrimitivesOf(m));
      }
    }
  }
}
