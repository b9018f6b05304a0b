/**
 Which call stack a raised fix keeps (src/BugFixer.cpp:43-129, src/BugFixer.cpp:847-898). The map has one entry for
 each place, with one call stack, and the functions on that stack are the ones to be cloned. Types and places are
 conserved by raising; call stacks are not, and it is said here exactly when one is lost, in terms of the
 fixes before and the map that step 2 starts from.
 */
module Stacks {
  import opened Options
  import opened Traces
  import opened Mapping
  import opened Fixes
  import opened Raising
  import opened BugFixing
  import opened Conservation
  import opened Clashes

  /** A raised fix with this call stack stands at `x`. */
  predicate Stands(m: FixMap, x: FixLoc, stack: seq<Location>) {
    x in m && m[x].kind.Subprogram() && m[x].dynStack == stack
  }

  // ----- Step 1 -------------------------------------------------------------------------------------------

  /** A raised fix with a fence comes to a place where none with a fence stands, and takes it over. */
  ghost predicate TakesOver(before: seq<Add>, a: Add) {
    && a.desc.kind.AddPersistCallstackOpt? && AnyAt(before, a.loc)
    && (OnlyPrimitives(before, a.loc) || OnlyUnfenced(before, a.loc))
  }

  ghost predicate Took(adds: seq<Add>, h: int) {
    0 <= h < |adds| && TakesOver(adds[..h], adds[h])
  }

  /** Of the fixes put at `fl`, number `h` is the one whose call stack stands there: the one that takes the place
      over, or the first one if none does. */
  ghost predicate Holder(adds: seq<Add>, fl: FixLoc, h: int) {
    && 0 <= h < |adds| && adds[h].loc == fl
    && (Took(adds, h) || (!AnyAt(adds[..h], fl) && forall j | h < j < |adds| && adds[j].loc == fl :: !Took(adds, j)))
  }

  lemma HolderSnoc(front: seq<Add>, a: Add, h: int)
    ensures Holder(front + [a], a.loc, h) <==>
              if h == |front| then TakesOver(front, a) || !AnyAt(front, a.loc)
              else Holder(front, a.loc, h) && (Took(front, h) || !TakesOver(front, a))
  {
    hide TakesOver, AnyAt;
    var adds := front + [a];
    assert adds[..|front|] == front;
    assert forall j | 0 <= j < |front| :: adds[..j] == front[..j] && adds[j] == front[j];
    assert forall j | 0 <= j < |front| :: Took(adds, j) == Took(front, j);
    assert Took(adds, |front|) == TakesOver(front, a);
    if h < |front| && Holder(adds, a.loc, h) && !Took(front, h) {
      assert adds[|front|].loc == a.loc;
      assert !Took(adds, |front|);
    }
  }

  lemma HolderElsewhere(front: seq<Add>, a: Add, fl: FixLoc, h: int)
    requires a.loc != fl
    ensures Holder(front + [a], fl, h) <==> Holder(front, fl, h)
  {
    hide TakesOver, AnyAt;
    var adds := front + [a];
    assert forall j | 0 <= j < |front| :: adds[..j] == front[..j] && adds[j] == front[j];
  }

  /** A place that has been taken over has a fix with a fence, for good. */
  lemma TakenIsFenced(adds: seq<Add>, h: nat)
    requires Took(adds, h)
    ensures !OnlyPrimitives(adds, adds[h].loc) && !OnlyUnfenced(adds, adds[h].loc)
  {
    assert adds[h] in adds;
  }

  /** One more fix: what it does to the call stack at its place. */
  lemma StackAfterAdd(front: seq<Add>, a: Add, m: FixMap)
    requires KindTells(front, a.loc, m) && a.desc.Repairing() && !ResultOfAdd(m, a.loc, a.desc).AssertFails?
    ensures var d := MapAfterAdd(m, a.loc, a.desc)[a.loc];
            if TakesOver(front, a) || !AnyAt(front, a.loc)
            then d.dynStack == a.desc.dynStack && d.stackIdx == a.desc.stackIdx
            else d.dynStack == m[a.loc].dynStack && d.stackIdx == m[a.loc].stackIdx
  {
  }

  ghost predicate HoldersTell(adds: seq<Add>, fl: FixLoc, m: FixMap) {
    && (fl in m <==> exists h :: Holder(adds, fl, h))
    && forall h | Holder(adds, fl, h) ::
         fl in m && m[fl].dynStack == adds[h].desc.dynStack && m[fl].stackIdx == adds[h].desc.stackIdx
  }

  lemma HoldersTellNothing(fl: FixLoc)
    ensures HoldersTell([], fl, map[])
  {
  }

  lemma HoldersTellElsewhere(front: seq<Add>, a: Add, fl: FixLoc, m: FixMap)
    requires a.loc != fl && HoldersTell(front, fl, m)
    ensures HoldersTell(front + [a], fl, MapAfterAdd(m, a.loc, a.desc))
  {
    hide TakesOver, AnyAt, ResultOfAdd;
    forall h ensures Holder(front + [a], fl, h) <==> Holder(front, fl, h) {
      HolderElsewhere(front, a, fl, h);
    }
    if h :| Holder(front, fl, h) {
      assert Holder(front + [a], fl, h);
    }
  }

  lemma HoldersTellHere(front: seq<Add>, a: Add, m: FixMap)
    requires HoldersTell(front, a.loc, m) && KindTells(front, a.loc, m)
    requires a.desc.Repairing() && !ResultOfAdd(m, a.loc, a.desc).AssertFails?
    ensures HoldersTell(front + [a], a.loc, MapAfterAdd(m, a.loc, a.desc))
  {
    hide ResultOfAdd, KindTells, Holder, AnyAt, Joined;
    var adds, m' := front + [a], MapAfterAdd(m, a.loc, a.desc);
    StackAfterAdd(front, a, m);
    forall h ensures Holder(adds, a.loc, h) <==>
              if h == |front| then TakesOver(front, a) || !AnyAt(front, a.loc)
              else Holder(front, a.loc, h) && (Took(front, h) || !TakesOver(front, a))
    {
      HolderSnoc(front, a, h);
    }
    forall h | Holder(front, a.loc, h)
      ensures 0 <= h < |front| && AnyAt(front, a.loc) && (Took(front, h) ==> !TakesOver(front, a))
    {
      HolderIsThere(front, a.loc, h);
      if Took(front, h) {
        TakenIsFenced(front, h);
      }
    }
    if TakesOver(front, a) || !AnyAt(front, a.loc) {
      assert Holder(adds, a.loc, |front|);
    } else {
      PlaceIsTaken(front, a.loc, m);
      var h :| Holder(front, a.loc, h);
      assert Holder(adds, a.loc, h);
    }
  }

  lemma PlaceIsTaken(front: seq<Add>, fl: FixLoc, m: FixMap)
    requires HoldersTell(front, fl, m) && KindTells(front, fl, m) && AnyAt(front, fl)
    ensures exists h :: Holder(front, fl, h)
  {
    hide Holder, AnyAt;
  }

  lemma HolderIsThere(adds: seq<Add>, fl: FixLoc, h: int)
    requires Holder(adds, fl, h)
    ensures 0 <= h < |adds| && adds[h].loc == fl && AnyAt(adds, fl)
  {
    hide TakesOver;
    assert adds[h] in adds;
  }

  /** After any list of additions, the call stack at a place is that of its holder. */
  lemma {:induction false} HolderStands(adds: seq<Add>, fl: FixLoc)
    requires WellFormedAdds(adds) && AllMerge(map[], adds)
    ensures HoldersTell(adds, fl, AddAll(map[], adds))
  {
    hide HoldersTell, KindTells, MapAfterAdd, ResultOfAdd;
    if adds == [] {
      HoldersTellNothing(fl);
    } else {
      var front, a := adds[..|adds| - 1], adds[|adds| - 1];
      assert adds == front + [a];
      HolderStands(front, fl);
      if a.loc == fl {
        KindsTell(front, fl);
        HoldersTellHere(front, a, AddAll(map[], front));
      } else {
        HoldersTellElsewhere(front, a, fl, AddAll(map[], front));
      }
    }
  }

  // ----- Step 2: which fixes move -------------------------------------------------------------------------

  /** What step 2 asks for when it comes to `fl` behind the keys `before`: nothing if a fix with a fence has been put
      over the fix there, or if that fix can stay. */
  ghost function Raised(env: Env, m: FixMap, before: seq<FixLoc>, fl: FixLoc): Option<Add>
    requires fl in m && forall x | x in before :: x in m
  {
    if fl in Fenced(env, m, before) then None
    else
      match RaiseAdds(env, m[fl], true)
      case None => None
      case Some(adds) => if adds == [] then None else Some(adds[0])
  }

  /** The places that the fixes at the keys are raised to. */
  ghost function Reached(env: Env, m: FixMap, keys: seq<FixLoc>): set<FixLoc>
    requires forall x | x in keys :: x in m
  {
    if keys == [] then {}
    else
      var front, fl := keys[..|keys| - 1], keys[|keys| - 1];
      Reached(env, m, front) + if Raised(env, m, front, fl).Some? then {Raised(env, m, front, fl).value.loc} else {}
  }

  /** The fix at `fl` moves: it is raised to a place where its fence is news, or, without a fence, to one where there
      is no fix yet. */
  ghost predicate Moves(env: Env, m: FixMap, before: seq<FixLoc>, fl: FixLoc)
    requires fl in m && forall x | x in before :: x in m
  {
    && Raised(env, m, before, fl).Some?
    && var a := Raised(env, m, before, fl).value;
       if a.desc.kind.AddPersistCallstackOpt?
       then !(a.loc in m && m[a.loc].kind.AddPersistCallstackOpt?) && a.loc !in Fenced(env, m, before)
       else a.loc !in m && a.loc !in Reached(env, m, before)
  }

  ghost predicate MovesAt(env: Env, m: FixMap, keys: seq<FixLoc>, k: int)
    requires forall x | x in keys :: x in m
  {
    0 <= k < |keys| && Moves(env, m, keys[..k], keys[k])
  }

  /** Key number `k` moves its fix to `x`. */
  ghost predicate MovesTo(env: Env, m: FixMap, keys: seq<FixLoc>, k: int, x: FixLoc)
    requires forall x | x in keys :: x in m
  {
    MovesAt(env, m, keys, k) && Raised(env, m, keys[..k], keys[k]).value.loc == x
  }

  /** The fix that stands at `fl` before step 2 moves away. */
  ghost predicate MovesAway(env: Env, m: FixMap, keys: seq<FixLoc>, fl: FixLoc)
    requires forall x | x in keys :: x in m
  {
    exists k :: MovesAt(env, m, keys, k) && keys[k] == fl
  }

  predicate NeedsFence(d: FixDesc) {
    !d.kind.AddFlushOnly?
  }

  lemma MovesAtSnoc(env: Env, m: FixMap, keys: seq<FixLoc>, fl: FixLoc, k: int)
    requires fl in m && forall x | x in keys :: x in m
    ensures forall x | x in keys + [fl] :: x in m
    ensures MovesAt(env, m, keys + [fl], k)
            <==> if k == |keys| then Moves(env, m, keys, fl) else MovesAt(env, m, keys, k)
    ensures 0 <= k < |keys| ==> (keys + [fl])[..k] == keys[..k]
    ensures (keys + [fl])[..|keys|] == keys
  {
    hide Moves;
    var all := keys + [fl];
    assert all[..|keys|] == keys;
    assert 0 <= k < |keys| ==> all[..k] == keys[..k] && all[k] == keys[k];
  }

  lemma ReachedSnoc(env: Env, m: FixMap, keys: seq<FixLoc>, fl: FixLoc)
    requires fl in m && forall x | x in keys :: x in m
    ensures forall x | x in keys + [fl] :: x in m
    ensures var r := Raised(env, m, keys, fl);
            Reached(env, m, keys + [fl]) == Reached(env, m, keys) + if r.Some? then {r.value.loc} else {}
  {
    hide Raised;
    assert (keys + [fl])[..|keys|] == keys;
  }

  /** What the pass has made of each place. */
  ghost predicate PlacesTell(m: FixMap, now: FixMap, fenced: set<FixLoc>, reached: set<FixLoc>) {
    && fenced <= reached && (forall x :: x in now <==> x in m || x in reached)
    && (forall x | x in now :: now[x].kind.AddPersistCallstackOpt? <==>
          (x in m && m[x].kind.AddPersistCallstackOpt?) || x in fenced)
    && (forall x | x in now && x !in m :: now[x].kind.Subprogram())
    && (forall x | x in now && x in m && !now[x].kind.AddPersistCallstackOpt? :: now[x] == m[x])
  }

  lemma PlacesTellStart(m: FixMap)
    ensures PlacesTell(m, m, {}, {})
  {
  }

  /** One fix is raised. */
  lemma PlacesTellAdd(m: FixMap, now: FixMap, fenced: set<FixLoc>, reached: set<FixLoc>, a: Add)
    requires PlacesTell(m, now, fenced, reached) && AllRepairing(now)
    requires a.loc.IsValid() && a.desc.Repairing() && a.desc.kind.Subprogram() && AllMerge(now, [a])
    ensures var opt := a.desc.kind.AddPersistCallstackOpt?;
            && PlacesTell(m, AddAll(now, [a]), fenced + if opt then {a.loc} else {}, reached + {a.loc})
            && (AnyAdded(now, [a]) <==>
                if opt then !(a.loc in m && m[a.loc].kind.AddPersistCallstackOpt?) && a.loc !in fenced
                else a.loc !in m && a.loc !in reached)
            && (if AnyAdded(now, [a]) then AddAll(now, [a]) == now[a.loc := a.desc] else AddAll(now, [a]) == now)
  {
    AddAllOne(now, a);
    if a.loc in now {
      var old' := now[a.loc];
      UnmergedPairs(old', a.desc);
      assert now[a.loc := old'] == now;
    }
  }

  lemma RaisedIs(env: Env, m: FixMap, before: seq<FixLoc>, fl: FixLoc)
    requires RangesValid(env) && fl in m && m[fl].kind.Primitive() && forall x | x in before :: x in m
    ensures var adds, r := RaiseAdds(env, m[fl], true), Raised(env, m, before, fl);
            && (r.Some? ==> adds == Some([r.value]))
            && (r.None? && fl !in Fenced(env, m, before) && adds.Some? ==> adds.value == [])
            && (r.Some? ==>
                  && r.value.loc.IsValid() && r.value.desc.Repairing() && r.value.desc.dynStack == m[fl].dynStack
                  && r.value.desc.kind == RaisedKind(m[fl].kind))
  {
    hide Fenced;
    var adds := RaiseAdds(env, m[fl], true);
    if adds.Some? && adds.value != [] {
      FrontsValid(env, m[fl]);
      assert adds.value == [adds.value[0]];
    }
  }

  /** One round of step 2: the fix moves, and is then what stands at its new place, or the map stays as it is. */
  lemma RoundTells(env: Env, m: FixMap, keys: seq<FixLoc>, fl: FixLoc, p: Pass)
    requires RangesValid(env) && fl in m && m[fl].kind.Primitive() && forall x | x in keys :: x in m
    requires p.ok && Midway(m, p.fixMap, Fenced(env, m, keys)) && RaiseNext(env, p, fl).ok
    requires PlacesTell(m, p.fixMap, Fenced(env, m, keys), Reached(env, m, keys))
    ensures var q, all := RaiseNext(env, p, fl), keys + [fl];
            && PlacesTell(m, q.fixMap, Fenced(env, m, all), Reached(env, m, all))
            && if Moves(env, m, keys, fl)
               then var a := Raised(env, m, keys, fl).value;
                    q.moved == p.moved + [fl] && q.fixMap == p.fixMap[a.loc := a.desc]
               else q.moved == p.moved && q.fixMap == p.fixMap
  {
    hide RaiseAdds, AddAll, AllMerge, AnyAdded, Fenced, Reached, Midway, PlacesTell;
    var fenced, reached := Fenced(env, m, keys), Reached(env, m, keys);
    FencedSnoc(env, m, keys, fl);
    ReachedSnoc(env, m, keys, fl);
    RaisedIs(env, m, keys, fl);
    MidwayAt(m, p.fixMap, fenced, fl);
    MidwayRepairs(m, p.fixMap, fenced);
    MergesNothing(p.fixMap);
    AddsNothingNew(p.fixMap);
    assert fenced + {} == fenced && reached + {} == reached;
    var r := Raised(env, m, keys, fl);
    if r.Some? {
      var a := r.value;
      RaisedKindIsSubprogram(m[fl].kind);
      assert FencedBy(Some([a])) == if a.desc.kind.AddPersistCallstackOpt? then {a.loc} else {};
      PlacesTellAdd(m, p.fixMap, fenced, reached, a);
    } else {
      assert FencedBy(Some([])) == {};
    }
  }

  lemma MidwayRepairs(m: FixMap, now: FixMap, fenced: set<FixLoc>)
    requires Midway(m, now, fenced)
    ensures AllRepairing(now)
  {
  }

  lemma AddsNothingNew(m: FixMap)
    ensures !AnyAdded(m, [])
  {
  }

  /** A fix that has moved to `x` has been raised there. */
  lemma {:induction false} MoverArrives(env: Env, m: FixMap, keys: seq<FixLoc>, k: nat)
    requires RangesValid(env) && forall x | x in keys :: x in m && m[x].kind.Primitive()
    requires MovesAt(env, m, keys, k)
    ensures var x := Raised(env, m, keys[..k], keys[k]).value.loc;
            x in Reached(env, m, keys) && (NeedsFence(m[keys[k]]) ==> x in Fenced(env, m, keys))
    decreases |keys|
  {
    hide Moves, Fenced, Reached, RaiseAdds, Raised;
    var n := |keys| - 1;
    var front, fl := keys[..n], keys[n];
    assert keys == front + [fl];
    FencedSnoc(env, m, front, fl);
    ReachedSnoc(env, m, front, fl);
    MovesAtSnoc(env, m, front, fl, k);
    if k == n {
      RaisedIs(env, m, front, fl);
      MoverIsRaised(env, m, front, fl);
    } else {
      MoverArrives(env, m, front, k);
    }
  }

  lemma MoverIsRaised(env: Env, m: FixMap, before: seq<FixLoc>, fl: FixLoc)
    requires fl in m && (forall x | x in before :: x in m) && Moves(env, m, before, fl)
    ensures var a := Raised(env, m, before, fl);
            && a.Some? && fl !in Fenced(env, m, before)
            && (a.value.desc.kind.AddPersistCallstackOpt? ==> a.value.loc in FencedBy(RaiseAdds(env, m[fl], true)))
  {
  }

  // ----- Step 2: which call stacks stay ---------------------------------------------------------------------

  /** From key number `n` on, a fix with a fence and another call stack moves to `x`. */
  ghost predicate Overtaken(env: Env, m: FixMap, keys: seq<FixLoc>, n: int, x: FixLoc, stack: seq<Location>)
    requires forall x | x in keys :: x in m
  {
    exists j :: n <= j && MovesTo(env, m, keys, j, x) && NeedsFence(m[keys[j]]) && m[keys[j]].dynStack != stack
  }

  /** Key number `k` brings this call stack to `x`, for good. */
  ghost predicate Brings(env: Env, m: FixMap, keys: seq<FixLoc>, k: int, x: FixLoc, stack: seq<Location>)
    requires forall x | x in keys :: x in m
  {
    && MovesTo(env, m, keys, k, x) && m[keys[k]].dynStack == stack
    && (NeedsFence(m[keys[k]]) || !Overtaken(env, m, keys, k + 1, x, stack))
  }

  /** The call stack stands at `x` from step 1 on. */
  ghost predicate Keeps(env: Env, m: FixMap, keys: seq<FixLoc>, x: FixLoc, stack: seq<Location>)
    requires forall x | x in keys :: x in m
  {
    Stands(m, x, stack) && (m[x].kind.AddPersistCallstackOpt? || !Overtaken(env, m, keys, 0, x, stack))
  }

  ghost predicate StackAt(env: Env, m: FixMap, keys: seq<FixLoc>, x: FixLoc, stack: seq<Location>)
    requires forall x | x in keys :: x in m
  {
    Keeps(env, m, keys, x, stack) || exists k :: Brings(env, m, keys, k, x, stack)
  }

  lemma MovesToSnoc(env: Env, m: FixMap, keys: seq<FixLoc>, fl: FixLoc, k: int, x: FixLoc)
    requires fl in m && forall x | x in keys :: x in m
    ensures forall x | x in keys + [fl] :: x in m
    ensures MovesTo(env, m, keys + [fl], k, x) <==>
              if k == |keys| then Moves(env, m, keys, fl) && Raised(env, m, keys, fl).value.loc == x
              else MovesTo(env, m, keys, k, x)
    ensures 0 <= k < |keys| ==> (keys + [fl])[k] == keys[k]
  {
    hide Raised;
    MovesAtSnoc(env, m, keys, fl, k);
  }

  lemma OvertakenSnoc(env: Env, m: FixMap, keys: seq<FixLoc>, fl: FixLoc, n: int, x: FixLoc, stack: seq<Location>)
    requires fl in m && (forall x | x in keys :: x in m) && n <= |keys|
    ensures forall x | x in keys + [fl] :: x in m
    ensures Overtaken(env, m, keys + [fl], n, x, stack) <==>
              || Overtaken(env, m, keys, n, x, stack)
              || (MovesTo(env, m, keys + [fl], |keys|, x) && NeedsFence(m[fl]) && m[fl].dynStack != stack)
  {
    hide NeedsFence, Moves, Raised;
    var all := keys + [fl];
    MovesToSnoc(env, m, keys, fl, |keys|, x);
    if j :| n <= j && MovesTo(env, m, all, j, x) && NeedsFence(m[all[j]]) && m[all[j]].dynStack != stack {
      MovesToSnoc(env, m, keys, fl, j, x);
    }
    if j :| n <= j && MovesTo(env, m, keys, j, x) && NeedsFence(m[keys[j]]) && m[keys[j]].dynStack != stack {
      MovesToSnoc(env, m, keys, fl, j, x);
      assert MovesTo(env, m, all, j, x);
    }
    if MovesTo(env, m, all, |keys|, x) {
      assert all[|keys|] == fl;
    }
  }

  lemma BringsSnoc(env: Env, m: FixMap, keys: seq<FixLoc>, fl: FixLoc, k: int, x: FixLoc, stack: seq<Location>)
    requires fl in m && forall x | x in keys :: x in m
    ensures forall x | x in keys + [fl] :: x in m
    ensures var all := keys + [fl];
            var comes := MovesTo(env, m, all, |keys|, x);
            Brings(env, m, all, k, x, stack) <==>
              if k == |keys| then comes && m[fl].dynStack == stack
              else Brings(env, m, keys, k, x, stack)
                   && (NeedsFence(m[keys[k]]) || !(comes && NeedsFence(m[fl]) && m[fl].dynStack != stack))
  {
    hide NeedsFence, Moves, Raised;
    var all := keys + [fl];
    MovesToSnoc(env, m, keys, fl, k, x);
    if k == |keys| {
      assert all[k] == fl;
      OvertakenSnoc(env, m, keys, fl, k, x, stack);
      assert !Overtaken(env, m, keys, k, x, stack);
      NothingBehind(env, m, all, x, stack);
    } else if 0 <= k < |keys| {
      OvertakenSnoc(env, m, keys, fl, k + 1, x, stack);
    }
  }

  lemma NothingBehind(env: Env, m: FixMap, keys: seq<FixLoc>, x: FixLoc, stack: seq<Location>)
    requires forall x | x in keys :: x in m
    ensures !Overtaken(env, m, keys, |keys|, x, stack)
  {
    hide NeedsFence, Moves, Raised;
  }

  /** No fix comes to `x`, or none from another place has a say there: the call stack at `x` is what it was. */
  lemma StackAtStays(env: Env, m: FixMap, keys: seq<FixLoc>, fl: FixLoc, x: FixLoc, stack: seq<Location>)
    requires fl in m && forall x | x in keys :: x in m
    requires !MovesTo(env, m, keys + [fl], |keys|, x)
    ensures forall x | x in keys + [fl] :: x in m
    ensures StackAt(env, m, keys + [fl], x, stack) <==> StackAt(env, m, keys, x, stack)
  {
    hide Brings, Overtaken, MovesTo;
    var all := keys + [fl];
    OvertakenSnoc(env, m, keys, fl, 0, x, stack);
    forall k ensures Brings(env, m, all, k, x, stack) <==> Brings(env, m, keys, k, x, stack) {
      BringsSnoc(env, m, keys, fl, k, x, stack);
      NotBrought(env, m, keys, |keys|, x, stack);
    }
    if k :| Brings(env, m, keys, k, x, stack) {
      assert Brings(env, m, all, k, x, stack);
    }
  }

  lemma NotBrought(env: Env, m: FixMap, keys: seq<FixLoc>, k: int, x: FixLoc, stack: seq<Location>)
    requires (forall x | x in keys :: x in m) && !(0 <= k < |keys|)
    ensures !Brings(env, m, keys, k, x, stack)
  {
  }

  lemma BroughtArrives(env: Env, m: FixMap, keys: seq<FixLoc>, k: int, x: FixLoc, stack: seq<Location>)
    requires RangesValid(env) && forall x | x in keys :: x in m && m[x].kind.Primitive()
    requires Brings(env, m, keys, k, x, stack)
    ensures 0 <= k < |keys| && x in Reached(env, m, keys)
    ensures NeedsFence(m[keys[k]]) ==> x in Fenced(env, m, keys)
  {
    hide Moves, Raised, Reached, Fenced;
    MoverArrives(env, m, keys, k);
  }

  /** A fix comes to `x`: then it is its call stack that stands there. */
  lemma StackAtComes(env: Env, m: FixMap, keys: seq<FixLoc>, fl: FixLoc, x: FixLoc, stack: seq<Location>)
    requires RangesValid(env) && fl in m && m[fl].kind.Primitive()
    requires forall x | x in keys :: x in m && m[x].kind.Primitive()
    requires MovesTo(env, m, keys + [fl], |keys|, x)
    ensures StackAt(env, m, keys + [fl], x, stack) <==> stack == m[fl].dynStack
  {
    hide Brings, Overtaken, MovesTo, RaiseAdds, Reached, Fenced;
    var all := keys + [fl];
    BringsSnoc(env, m, keys, fl, |keys|, x, stack);
    OvertakenSnoc(env, m, keys, fl, 0, x, stack);
    ComesToFreePlace(env, m, keys, fl, x);
    if k :| Brings(env, m, all, k, x, stack) {
      BringsSnoc(env, m, keys, fl, k, x, stack);
      if k != |keys| {
        BroughtArrives(env, m, keys, k, x, stack);
      }
    }
  }

  lemma ComesToFreePlace(env: Env, m: FixMap, keys: seq<FixLoc>, fl: FixLoc, x: FixLoc)
    requires RangesValid(env) && fl in m && m[fl].kind.Primitive() && forall x | x in keys :: x in m
    requires MovesTo(env, m, keys + [fl], |keys|, x)
    ensures if NeedsFence(m[fl]) then !(x in m && m[x].kind.AddPersistCallstackOpt?) && x !in Fenced(env, m, keys)
            else x !in m && x !in Reached(env, m, keys)
  {
    hide RaiseAdds, Reached, Fenced;
    MovesToSnoc(env, m, keys, fl, |keys|, x);
    RaisedIs(env, m, keys, fl);
  }

  /** What has become of the map after a pass. */
  ghost predicate PassTells(env: Env, m: FixMap, keys: seq<FixLoc>, p: Pass)
    requires forall x | x in keys :: x in m
  {
    && (forall fl :: fl in p.moved <==> MovesAway(env, m, keys, fl))
    && (forall x, stack :: Stands(p.fixMap, x, stack) <==> StackAt(env, m, keys, x, stack))
  }

  lemma MovesAwaySnoc(env: Env, m: FixMap, keys: seq<FixLoc>, fl: FixLoc, x: FixLoc)
    requires fl in m && forall x | x in keys :: x in m
    ensures forall x | x in keys + [fl] :: x in m
    ensures MovesAway(env, m, keys + [fl], x) <==> MovesAway(env, m, keys, x) || (x == fl && Moves(env, m, keys, fl))
  {
    hide Moves;
    var all := keys + [fl];
    MovesAtSnoc(env, m, keys, fl, |keys|);
    if k :| MovesAt(env, m, all, k) && all[k] == x {
      MovesAtSnoc(env, m, keys, fl, k);
    }
    if k :| MovesAt(env, m, keys, k) && keys[k] == x {
      MovesAtSnoc(env, m, keys, fl, k);
      assert MovesAt(env, m, all, k) && all[k] == x;
    }
    if Moves(env, m, keys, fl) {
      assert MovesAt(env, m, all, |keys|) && all[|keys|] == fl;
    }
  }

  lemma PassTellsNothing(env: Env, m: FixMap)
    ensures PassTells(env, m, [], Pass(m, [], true))
  {
    hide Moves, Raised;
    forall x, stack ensures Stands(m, x, stack) <==> StackAt(env, m, [], x, stack) {
      NothingBehind(env, m, [], x, stack);
    }
  }

  lemma PassTellsRound(env: Env, m: FixMap, keys: seq<FixLoc>, fl: FixLoc, p: Pass, q: Pass)
    requires RangesValid(env) && fl in m && m[fl].kind.Primitive()
    requires forall x | x in keys :: x in m && m[x].kind.Primitive()
    requires PassTells(env, m, keys, p)
    requires if Moves(env, m, keys, fl)
             then var a := Raised(env, m, keys, fl).value;
                  q.moved == p.moved + [fl] && q.fixMap == p.fixMap[a.loc := a.desc]
             else q.moved == p.moved && q.fixMap == p.fixMap
    ensures PassTells(env, m, keys + [fl], q)
  {
    hide Moves, Raised, StackAt, MovesAway;
    var all := keys + [fl];
    forall x ensures x in q.moved <==> MovesAway(env, m, all, x) {
      MovesAwaySnoc(env, m, keys, fl, x);
    }
    RaisedIs(env, m, keys, fl);
    RaisedKindIsSubprogram(m[fl].kind);
    forall x, stack ensures Stands(q.fixMap, x, stack) <==> StackAt(env, m, all, x, stack) {
      MovesToSnoc(env, m, keys, fl, |keys|, x);
      assert Stands(p.fixMap, x, stack) <==> StackAt(env, m, keys, x, stack);
      if MovesTo(env, m, all, |keys|, x) {
        MoverIsRaised(env, m, keys, fl);
        StackAtComes(env, m, keys, fl, x, stack);
      } else {
        StackAtStays(env, m, keys, fl, x, stack);
      }
    }
  }

  lemma {:induction false} PassIs(env: Env, m: FixMap, keys: seq<FixLoc>)
    requires RangesValid(env) && AllRepairing(m)
    requires forall fl | fl in keys :: fl in m && m[fl].kind.Primitive()
    requires RaisePass(env, m, keys).ok
    ensures var p := RaisePass(env, m, keys);
            && PlacesTell(m, p.fixMap, Fenced(env, m, keys), Reached(env, m, keys))
            && PassTells(env, m, keys, p)
  {
    hide RaiseNext, Midway, PlacesTell, PassTells, Raised, Moves;
    if keys == [] {
      PlacesTellStart(m);
      PassTellsNothing(env, m);
    } else {
      var front, fl := keys[..|keys| - 1], keys[|keys| - 1];
      assert keys == front + [fl];
      var p := RaisePass(env, m, front);
      if !p.ok {
        FailedNext(env, p, fl);
      }
      PassIs(env, m, front);
      StepTwoFailsIff(env, m, front);
      RoundTells(env, m, front, fl, p);
      PassTellsRound(env, m, front, fl, p, RaiseNext(env, p, fl));
    }
  }

  /** Which fixes step 2 moves and then erases, from the map that it starts with. */
  lemma MovedIff(env: Env, m: FixMap, keys: seq<FixLoc>, fl: FixLoc)
    requires RangesValid(env) && AllRepairing(m)
    requires forall fl | fl in keys :: fl in m && m[fl].kind.Primitive()
    requires RaisePass(env, m, keys).ok
    ensures fl in RaisePass(env, m, keys).moved <==> MovesAway(env, m, keys, fl)
  {
    PassIs(env, m, keys);
  }

  /** Which call stacks stand where after step 2, from the map that it starts with. */
  lemma StackStandsIff(env: Env, m: FixMap, keys: seq<FixLoc>, x: FixLoc, stack: seq<Location>)
    requires RangesValid(env) && AllRepairing(m)
    requires forall fl | fl in keys :: fl in m && m[fl].kind.Primitive()
    requires RaisePass(env, m, keys).ok
    ensures var p := RaisePass(env, m, keys);
            && (Stands(p.fixMap, x, stack) <==> StackAt(env, m, keys, x, stack))
            && (Stands(Erase(p.fixMap, p.moved), x, stack) <==>
                StackAt(env, m, keys, x, stack) && !MovesAway(env, m, keys, x))
  {
    hide RaisePass, StackAt, MovesAway, PlacesTell;
    PassIs(env, m, keys);
  }

  /** The call stack of a fix that overtakes another one stands at their place. */
  lemma OvertakerStands(env: Env, m: FixMap, keys: seq<FixLoc>, n: int, x: FixLoc, stack: seq<Location>)
    requires RangesValid(env) && AllRepairing(m)
    requires forall fl | fl in keys :: fl in m && m[fl].kind.Primitive()
    requires RaisePass(env, m, keys).ok && Overtaken(env, m, keys, n, x, stack)
    ensures !StackAt(env, m, keys, x, stack)
  {
    hide RaisePass, Keeps, NeedsFence, Moves, Raised;
    var j :| n <= j && MovesTo(env, m, keys, j, x) && NeedsFence(m[keys[j]]) && m[keys[j]].dynStack != stack;
    assert Brings(env, m, keys, j, x, m[keys[j]].dynStack);
    StackStandsIff(env, m, keys, x, m[keys[j]].dynStack);
    StackStandsIff(env, m, keys, x, stack);
  }

  /** Which raised fixes step 2 loses, so that the functions on their call stacks are not cloned. A fix that it raises
      is lost if a fix has moved away from its new place, so that the deferred erasure hits it there, or if it has
      no fence and a later one with a fence and another call stack moves to the same place. */
  lemma RaisedFixLostIff(env: Env, m: FixMap, keys: seq<FixLoc>, k: nat)
    requires RangesValid(env) && AllRepairing(m)
    requires forall fl | fl in keys :: fl in m && m[fl].kind.Primitive()
    requires RaisePass(env, m, keys).ok && MovesAt(env, m, keys, k)
    ensures var p, x, fix := RaisePass(env, m, keys), Raised(env, m, keys[..k], keys[k]).value.loc, m[keys[k]];
            !Stands(Erase(p.fixMap, p.moved), x, fix.dynStack) <==>
              || MovesAway(env, m, keys, x)
              || (!NeedsFence(fix) && Overtaken(env, m, keys, k + 1, x, fix.dynStack))
  {
    hide RaisePass, Raised, NeedsFence, Overtaken, MovesAway, Keeps;
    var x, fix := Raised(env, m, keys[..k], keys[k]).value.loc, m[keys[k]];
    StackStandsIff(env, m, keys, x, fix.dynStack);
    if Overtaken(env, m, keys, k + 1, x, fix.dynStack) {
      OvertakerStands(env, m, keys, k + 1, x, fix.dynStack);
    } else {
      assert Brings(env, m, keys, k, x, fix.dynStack);
    }
    if NeedsFence(fix) {
      assert Brings(env, m, keys, k, x, fix.dynStack);
    }
  }

  /** A fix that step 1 has raised is lost in step 2 if it has no fence and one with a fence and another call stack
      moves to its place. */
  lemma StandingFixLostIff(env: Env, m: FixMap, keys: seq<FixLoc>, x: FixLoc)
    requires RangesValid(env) && AllRepairing(m)
    requires forall fl | fl in keys :: fl in m && m[fl].kind.Primitive()
    requires RaisePass(env, m, keys).ok && x in m && m[x].kind.Subprogram()
    ensures var p := RaisePass(env, m, keys);
            !Stands(Erase(p.fixMap, p.moved), x, m[x].dynStack) <==>
              !m[x].kind.AddPersistCallstackOpt? && Overtaken(env, m, keys, 0, x, m[x].dynStack)
  {
    hide RaisePass, NeedsFence, Overtaken, Moves;
    var stack := m[x].dynStack;
    StackStandsIff(env, m, keys, x, stack);
    assert !MovesAway(env, m, keys, x);
    if Overtaken(env, m, keys, 0, x, stack) {
      OvertakerStands(env, m, keys, 0, x, stack);
    }
    assert Stands(m, x, stack);
  }

  // ----- What raising conserves -----------------------------------------------------------------------------

  /** Some call-stack frame of the fix holds a raised entry with at least its duties. */
  ghost predicate CarriedOn(env: Env, desc: FixDesc, m': FixMap) {
    exists l, x :: l in desc.dynStack && IsFrontOf(env, l, x) && x in m' && m'[x].kind.Subprogram()
                   && Duties(desc.kind) <= Duties(m'[x].kind)
  }

  /** What a raised fix asks for is in the map. */
  ghost predicate Placed(env: Env, desc: FixDesc, m': FixMap) {
    var adds := RaiseAdds(env, desc, true);
    adds.Some? ==> forall a | a in adds.value :: a.loc in m' && Duties(a.desc.kind) <= Duties(m'[a.loc].kind)
  }

  lemma PlacedIsCarriedOn(env: Env, desc: FixDesc, m': FixMap)
    requires desc.kind.Primitive() && AllRepairing(m') && Placed(env, desc, m')
    requires RaiseAdds(env, desc, true).Some? && RaiseAdds(env, desc, true).value != []
    ensures CarriedOn(env, desc, m')
  {
    RaiseAddsAreFronts(env, desc, true);
    var a := RaiseAdds(env, desc, true).value[0];
    assert a in RaiseAdds(env, desc, true).value;
    var l :| l in desc.dynStack && IsFrontOf(env, l, a.loc);
    assert CloneDuty in Duties(a.desc.kind);
  }

  lemma PlacedGrows(env: Env, m: FixMap, keys: seq<FixLoc>, now: FixMap, m': FixMap)
    requires forall fl | fl in keys :: fl in m && Placed(env, m[fl], now)
    requires forall fl | fl in now :: fl in m' && Duties(now[fl].kind) <= Duties(m'[fl].kind)
    ensures forall fl | fl in keys :: Placed(env, m[fl], m')
  {
    hide RaiseAdds, Duties;
    forall fl | fl in keys ensures Placed(env, m[fl], m') {
      assert Placed(env, m[fl], now);
    }
  }

  lemma {:induction false} PassPlaces(env: Env, m: FixMap, keys: seq<FixLoc>)
    requires CallSitesApart(env) && Separated(env, m) && AllRepairing(m) && AllFromTrace(env, m)
    requires forall fl | fl in keys :: fl in m && m[fl].kind.Primitive()
    ensures var p := RaisePass(env, m, keys);
            && (forall fl | fl in m :: fl in p.fixMap && Duties(m[fl].kind) <= Duties(p.fixMap[fl].kind))
            && (p.ok ==> forall fl | fl in keys :: Placed(env, m[fl], p.fixMap))
            && (forall fl | fl in p.moved ::
              fl in keys && RaiseAdds(env, m[fl], true).Some? && RaiseAdds(env, m[fl], true).value != [])
  {
    hide AddAll, AllMerge, RaiseAdds, CallSitesApart, Placed, Separated, AllFromTrace, AllRepairing, Duties;
    if keys != [] {
      var front, fl := keys[..|keys| - 1], keys[|keys| - 1];
      assert keys == front + [fl];
      PassPlaces(env, m, front);
      StepTwoNeverClashes(env, m, front);
      var p := RaisePass(env, m, front);
      var adds := RaiseAdds(env, m[fl], true);
      RaiseAddsFromMap(env, m, fl);
      if p.ok && adds.Some? {
        RaisedMerges(env, m, p.fixMap, adds.value);
        PlacedGrows(env, m, front, p.fixMap, AddAll(p.fixMap, adds.value));
        PlacedNow(env, m[fl], AddAll(p.fixMap, adds.value));
      }
    }
  }

  lemma RaiseAddsFromMap(env: Env, m: FixMap, fl: FixLoc)
    requires AllFromTrace(env, m) && fl in m
    ensures var adds := RaiseAdds(env, m[fl], true);
            adds.Some? ==> |adds.value| <= 1 && forall a | a in adds.value ::
                             CallSite(env, a.loc) && a.desc.Repairing() && a.desc.kind.Subprogram()
  {
    RaiseAddsAtCallSites(env, m[fl], true);
  }

  lemma PlacedNow(env: Env, desc: FixDesc, m': FixMap)
    requires RaiseAdds(env, desc, true).Some?
    requires forall a | a in RaiseAdds(env, desc, true).value ::
               a.loc in m' && Duties(a.desc.kind) <= Duties(m'[a.loc].kind)
    ensures Placed(env, desc, m')
  {
  }

  /** What raising conserves. After step 2 each primitive fix still stands, unless it moves; then a frame of its own
      call stack holds a raised fix with at least its duties, with this call stack exactly if the fix has a fence or
      is not overtaken. Raised fixes of step 1 only gain duties, and keep their call stacks under the same
      condition. Nothing else changes, and whatever raising asked for has been put into the map. */
  lemma RaisingConserves(env: Env, m: FixMap, keys: seq<FixLoc>)
    requires CallSitesApart(env) && Separated(env, m) && AllRepairing(m) && AllFromTrace(env, m)
             && PrimitiveKeys(m, keys)
    requires RaisePass(env, m, keys).ok
    ensures var p := RaisePass(env, m, keys);
            var m' := Erase(p.fixMap, p.moved);
            && (forall fl | fl in m && m[fl].kind.Primitive() ::
                  if MovesAway(env, m, keys, fl) then fl !in m' && CarriedOn(env, m[fl], m')
                  else fl in m' && m'[fl] == m[fl])
            && (forall k | MovesAt(env, m, keys, k) ::
                  var x, fix := Raised(env, m, keys[..k], keys[k]).value.loc, m[keys[k]];
                  && x in m' && m'[x].kind.Subprogram() && Duties(fix.kind) <= Duties(m'[x].kind)
                  && (m'[x].dynStack == fix.dynStack <==>
                      NeedsFence(fix) || !Overtaken(env, m, keys, k + 1, x, fix.dynStack)))
            && (forall fl | fl in m && m[fl].kind.Subprogram() ::
                  && fl in m' && m'[fl].kind.Subprogram() && Duties(m[fl].kind) <= Duties(m'[fl].kind)
                  && (m'[fl].dynStack == m[fl].dynStack <==>
                      m[fl].kind.AddPersistCallstackOpt? || !Overtaken(env, m, keys, 0, fl, m[fl].dynStack)))
            && (forall fl | fl in m && m[fl].kind.Primitive() :: Placed(env, m[fl], m'))
            && (forall fl | fl in m' && m'[fl].kind.Primitive() :: fl in m && m'[fl] == m[fl])
  {
    assert RangesValid(env);
    hide RaisePass, Raised, Overtaken, MovesAway, NeedsFence, CallSitesApart, Placed;
    var p := RaisePass(env, m, keys);
    var m' := Erase(p.fixMap, p.moved);
    StepTwoNeverClashes(env, m, keys);
    PassPlaces(env, m, keys);
    forall fl | fl in m && m[fl].kind.Primitive()
      ensures Placed(env, m[fl], m')
      ensures if MovesAway(env, m, keys, fl) then fl !in m' && CarriedOn(env, m[fl], m')
              else fl in m' && m'[fl] == m[fl]
    {
      MovedIff(env, m, keys, fl);
      PlacedStays(env, m, keys, fl);
      if fl in p.moved {
        PlacedIsCarriedOn(env, m[fl], m');
      }
    }
    forall k | MovesAt(env, m, keys, k)
      ensures var x, fix := Raised(env, m, keys[..k], keys[k]).value.loc, m[keys[k]];
              && x in m' && m'[x].kind.Subprogram() && Duties(fix.kind) <= Duties(m'[x].kind)
              && (m'[x].dynStack == fix.dynStack <==>
                  NeedsFence(fix) || !Overtaken(env, m, keys, k + 1, x, fix.dynStack))
    {
      MoverConserved(env, m, keys, k);
    }
    forall fl | fl in m && m[fl].kind.Subprogram()
      ensures && fl in m' && m'[fl].kind.Subprogram() && Duties(m[fl].kind) <= Duties(m'[fl].kind)
              && (m'[fl].dynStack == m[fl].dynStack <==>
                  m[fl].kind.AddPersistCallstackOpt? || !Overtaken(env, m, keys, 0, fl, m[fl].dynStack))
    {
      StandingFixLostIff(env, m, keys, fl);
    }
  }

  /** Under separation nothing moves away from a place that fixes are raised to. */
  lemma PlacedStays(env: Env, m: FixMap, keys: seq<FixLoc>, fl: FixLoc)
    requires CallSitesApart(env) && Separated(env, m) && AllRepairing(m) && AllFromTrace(env, m)
             && PrimitiveKeys(m, keys)
    requires RaisePass(env, m, keys).ok && fl in keys
    ensures var p := RaisePass(env, m, keys);
            Placed(env, m[fl], Erase(p.fixMap, p.moved))
  {
    hide RaiseAdds, CallSitesApart;
    var p := RaisePass(env, m, keys);
    PassPlaces(env, m, keys);
    assert Placed(env, m[fl], p.fixMap);
    RaiseAddsAtCallSites(env, m[fl], true);
    if RaiseAdds(env, m[fl], true).Some? {
      forall a | a in RaiseAdds(env, m[fl], true).value ensures a.loc !in p.moved {
        assert CallSite(env, a.loc);
      }
    }
  }

  lemma MoverConserved(env: Env, m: FixMap, keys: seq<FixLoc>, k: nat)
    requires CallSitesApart(env) && Separated(env, m) && AllRepairing(m) && AllFromTrace(env, m)
             && PrimitiveKeys(m, keys)
    requires RaisePass(env, m, keys).ok && MovesAt(env, m, keys, k)
    ensures var p := RaisePass(env, m, keys);
            var m' := Erase(p.fixMap, p.moved);
            var x, fix := Raised(env, m, keys[..k], keys[k]).value.loc, m[keys[k]];
            && x in m' && m'[x].kind.Subprogram() && Duties(fix.kind) <= Duties(m'[x].kind)
            && (m'[x].dynStack == fix.dynStack <==>
                NeedsFence(fix) || !Overtaken(env, m, keys, k + 1, x, fix.dynStack))
  {
    hide RaisePass, Overtaken, MovesAway, NeedsFence, RaiseAdds;
    var a := Raised(env, m, keys[..k], keys[k]).value;
    RaisedIs(env, m, keys[..k], keys[k]);
    PlacedStays(env, m, keys, keys[k]);
    RaisedFixLostIff(env, m, keys, k);
    StepTwoNeverClashes(env, m, keys);
    RaiseAddsAtCallSites(env, m[keys[k]], true);
    assert a in RaiseAdds(env, m[keys[k]], true).value;
    MovedIff(env, m, keys, a.loc);
    assert CloneDuty in Duties(a.desc.kind);
    assert Duties(m[keys[k]].kind) <= Duties(a.desc.kind);
  }

  // ----- Steps 1 and 2 together -----------------------------------------------------------------------------

  /** Something is done about the store at `fl` when it is reached through this call stack: it has its fix in place,
      or the functions on the stack are to be cloned. */
  ghost predicate Served(m': FixMap, fl: FixLoc, stack: seq<Location>, kind: FixType) {
    || (fl in m' && m'[fl].kind.Primitive() && Duties(kind) <= Duties(m'[fl].kind))
    || exists x :: Stands(m', x, stack) && Duties(kind) <= Duties(m'[x].kind)
  }

  /** Some raised fix has this call stack after step 2, and a fence if `kind` asks for one. */
  ghost predicate StackServes(env: Env, m: FixMap, keys: seq<FixLoc>, stack: seq<Location>, kind: FixType)
    requires forall x | x in keys :: x in m
  {
    exists x :: StackAt(env, m, keys, x, stack) &&
      (NeedsNoFence(kind) || (x in m && m[x].kind.AddPersistCallstackOpt?) || x in Fenced(env, m, keys))
  }

  predicate NeedsNoFence(kind: FixType) {
    kind.AddFlushOnly?
  }

  lemma ServesIff(env: Env, m: FixMap, keys: seq<FixLoc>, stack: seq<Location>, kind: FixType)
    requires CallSitesApart(env) && Separated(env, m) && AllRepairing(m) && AllFromTrace(env, m)
             && PrimitiveKeys(m, keys)
    requires RaisePass(env, m, keys).ok && kind.Primitive()
    ensures var p := RaisePass(env, m, keys);
            (exists x :: Stands(Erase(p.fixMap, p.moved), x, stack)
                         && Duties(kind) <= Duties(Erase(p.fixMap, p.moved)[x].kind))
            <==> StackServes(env, m, keys, stack, kind)
  {
    hide RaisePass, StackAt, CallSitesApart, Fenced, Erase;
    assert RangesValid(env) by {
      CallSitesHaveRanges(env);
    }
    var p := RaisePass(env, m, keys);
    var m' := Erase(p.fixMap, p.moved);
    forall x
      ensures Stands(m', x, stack) && Duties(kind) <= Duties(m'[x].kind) <==>
                StackAt(env, m, keys, x, stack)
                && (NeedsNoFence(kind) || (x in m && m[x].kind.AddPersistCallstackOpt?) || x in Fenced(env, m, keys))
    {
      ServesAt(env, m, keys, x, stack, kind);
    }
  }

  lemma ServesAt(env: Env, m: FixMap, keys: seq<FixLoc>, x: FixLoc, stack: seq<Location>, kind: FixType)
    requires CallSitesApart(env) && Separated(env, m) && AllRepairing(m) && AllFromTrace(env, m)
             && PrimitiveKeys(m, keys)
    requires RangesValid(env) && RaisePass(env, m, keys).ok && kind.Primitive()
    ensures var p := RaisePass(env, m, keys);
            var m' := Erase(p.fixMap, p.moved);
            Stands(m', x, stack) && Duties(kind) <= Duties(m'[x].kind) <==>
              StackAt(env, m, keys, x, stack)
              && (NeedsNoFence(kind) || (x in m && m[x].kind.AddPersistCallstackOpt?) || x in Fenced(env, m, keys))
  {
    hide RaisePass, StackAt, MovesAway, CallSitesApart, PassTells, Fenced, Reached;
    PassIs(env, m, keys);
    StepTwoNeverClashes(env, m, keys);
    StackStandsIff(env, m, keys, x, stack);
    if MovesAway(env, m, keys, x) {
      MovedArePrimitive(env, m, keys, x);
    }
    assert FenceDuty in Duties(kind) <==> !NeedsNoFence(kind);
  }

  lemma CallSitesHaveRanges(env: Env)
    requires CallSitesApart(env)
    ensures RangesValid(env)
  {
  }

  lemma MovedArePrimitive(env: Env, m: FixMap, keys: seq<FixLoc>, x: FixLoc)
    requires PrimitiveKeys(m, keys) && MovesAway(env, m, keys, x)
    ensures x in m && m[x].kind.Primitive()
  {
    hide Moves;
  }

  /** From the bugs to the map of step 3: a store that was found for a bug is served, for the call stack that it was
      found with, exactly when its own fix stays or its call stack is still in the map. */
  lemma BugServedIff(env: Env, bugs: seq<nat>, k: nat, e: TraceEvent, i: Inst)
    requires CallSitesApart(env) && WellFormedTrace(env.trace) && !env.disableRaising
    requires forall k | 0 <= k < |bugs| :: bugs[k] < |env.trace|
    requires Planned(env, bugs).Some? && k < |bugs|
    requires env.trace[bugs[k]].kind.AssertPersisted?
    requires e in ScanBack(env.trace[..bugs[k]], env.trace[bugs[k]].kind.range, []).events
    requires e.callstack != [] && env.Mapped(e.callstack[0]) && StoreOf(env, env.fixLocs[e.callstack[0]], i)
    ensures var m := AddAll(map[], BugsAdds(env, bugs).value);
            Served(Planned(env, bugs).value, FixLoc(i, i), e.callstack, VerdictKind(env, bugs[k])) <==>
              || !MovesAway(env, m, PrimitivesOf(m), FixLoc(i, i))
              || StackServes(env, m, PrimitivesOf(m), e.callstack, VerdictKind(env, bugs[k]))
  {
    hide BugsAdds, AddAll, AllMerge, RaisePass, MovesAway, StackServes, ScanBack, Fenced, VerdictKind, Stands;
    var m, kind, fl := AddAll(map[], BugsAdds(env, bugs).value), VerdictKind(env, bugs[k]), FixLoc(i, i);
    var keys := PrimitivesOf(m);
    StepOneNeverClashes(env, bugs);
    BugsAreCharged(env, bugs, k, e, i);
    VerdictIsPrimitive(env, bugs, k);
    StepOneKeepsStoresPrimitive(env, bugs, fl);
    RaisingConserves(env, m, keys);
    ServesIff(env, m, keys, e.callstack, kind);
  }

  lemma VerdictIsPrimitive(env: Env, bugs: seq<nat>, k: nat)
    requires WellFormedTrace(env.trace) && forall k | 0 <= k < |bugs| :: bugs[k] < |env.trace|
    requires BugsAdds(env, bugs).Some? && k < |bugs| && env.trace[bugs[k]].kind.AssertPersisted?
    ensures VerdictKind(env, bugs[k]).Primitive()
  {
    hide BugsAdds, ScanBack;
    BugsAddsMeaning(env, bugs, Add(FixLoc(Inst(0, 0), Inst(0, 0)), Desc(NoFix, [], 0)));
    assert BugAdds(env, bugs[k]).Some?;
  }

  /** At a single store that is no call site, step 1 puts primitive fixes only. */
  lemma StepOneKeepsStoresPrimitive(env: Env, bugs: seq<nat>, fl: FixLoc)
    requires CallSitesApart(env) && WellFormedTrace(env.trace) && forall k | 0 <= k < |bugs| :: bugs[k] < |env.trace|
    requires BugsAdds(env, bugs).Some? && AtStore(env, fl)
    requires fl in AddAll(map[], BugsAdds(env, bugs).value)
    ensures AddAll(map[], BugsAdds(env, bugs).value)[fl].kind.Primitive()
  {
    hide BugsAdds, AddAll, AllMerge, CallSite;
    var adds := BugsAdds(env, bugs).value;
    StepOneNeverClashes(env, bugs);
    BugsAddsWellPlaced(env, bugs);
    assert forall a | a in adds :: WellPlaced(env, a);
    KindsTell(adds, fl);
  }

  /** The same for the place of any raised fix and any program: which call stack the map of step 3 has there. */
  lemma PlannedStackIff(env: Env, bugs: seq<nat>, x: FixLoc, stack: seq<Location>)
    requires RangesValid(env) && WellFormedTrace(env.trace) && forall k | 0 <= k < |bugs| :: bugs[k] < |env.trace|
    requires Planned(env, bugs).Some?
    ensures var adds := BugsAdds(env, bugs).value;
            var m := AddAll(map[], adds);
            && HoldersTell(adds, x, m)
            && (Stands(Planned(env, bugs).value, x, stack) <==>
                if env.disableRaising then Stands(m, x, stack)
                else StackAt(env, m, PrimitivesOf(m), x, stack) && !MovesAway(env, m, PrimitivesOf(m), x))
  {
    hide BugsAdds, AddAll, AllMerge, RaisePass, MovesAway, StackAt, Stands, HoldersTell;
    var adds := BugsAdds(env, bugs).value;
    StepOneFailsIff(env, bugs);
    HolderStands(adds, x);
    if !env.disableRaising {
      StackStandsIff(env, AddAll(map[], adds), PrimitivesOf(AddAll(map[], adds)), x, stack);
    }
  }
}
