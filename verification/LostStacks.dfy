/**
 Two programs for which raising loses a call stack (src/BugFixer.cpp:113-117, src/BugFixer.cpp:872-898): two stores
 whose fixes are raised to one call, and one store that is reached through two callers. In each case the fix of a
 bug is erased, and no entry of the map that step 3 gets has its call stack.
 */
module LostStacks {
  import opened Options
  import opened Addresses
  import opened Traces
  import opened Mapping
  import opened Fixes
  import opened Raising
  import opened BugFixing
  import opened Conservation
  import opened Stacks
  import opened Reduction
  import opened Counterexamples

  /** Two stores, each in a function of its own that must not be changed, and two lines with calls, of two
      instructions each, in functions that may be. */
  const A := FixLoc(Inst(0, 0), Inst(0, 0))
  const B := FixLoc(Inst(1, 0), Inst(1, 0))
  const CALL := FixLoc(Inst(2, 0), Inst(2, 1))
  const OTHER := FixLoc(Inst(3, 0), Inst(3, 1))

  function FunctionOf(block: nat): string {
    if block == 0 then "f" else if block == 1 then "g" else if block == 2 then "h" else "i"
  }

  datatype Lines = Lines(a: Location, b: Location, call: Location, other: Location)
  {
    predicate Different() {
      a != b && a != call && a != other && b != call && b != other && call != other
    }
  }

  function TwoStores(trace: seq<TraceEvent>, ls: Lines): Env {
    Env(trace, map[ls.a := [A], ls.b := [B], ls.call := [CALL], ls.other := [OTHER]], {A.first, B.first},
        FunctionOf, {"f", "g"}, (x: Location) => (0, 0), false, false)
  }

  /** A fix of a store that was reached from a line above. */
  function FixFrom(fl: FixLoc, l: Location, caller: Location, kind: FixType): Add {
    Add(fl, Desc(kind, [l, caller], 0))
  }

  lemma SitesApart(trace: seq<TraceEvent>, ls: Lines)
    requires ls.Different() && forall e | e in trace && (e.kind.Store? || e.kind.Flush?) ::
               |e.callstack| == 2 && e.callstack[1] in {ls.call, ls.other}
    ensures CallSitesApart(TwoStores(trace, ls))
  {
    var env := TwoStores(trace, ls);
    forall fl | CallSite(env, fl) ensures !AtStore(env, fl) {
      var stack, i :| FromTrace(env, stack) && LandsAt(env, stack, i, fl);
      assert i == 1;
    }
  }

  /** What step 1 makes of a bug for which one store is found. */
  lemma OneEventBugAdds(trace: seq<TraceEvent>, ls: Lines, k: nat, n: nat, e: TraceEvent, fl: FixLoc, l: Location,
                        caller: Location, fence: bool)
    requires ls.Different() && WellFormedTrace(trace) && k < |trace| && trace[k].kind.AssertPersisted?
    requires ScanBack(trace[..k], trace[k].kind.range, []) == Finding([n], [e], Complete, fence)
    requires e.kind.Store? && e.kind.range.IsSingleCacheLine() && e.callstack == [l, caller]
    requires (l == ls.a && fl == A) || (l == ls.b && fl == B)
    ensures BugAdds(TwoStores(trace, ls), k)
            == Some([FixFrom(fl, l, caller, if fence then AddFlushOnly else AddFlushAndFence)])
  {
    hide ScanBack;
    var env, kind := TwoStores(trace, ls), if fence then AddFlushOnly else AddFlushAndFence;
    SingleStoreEventAdds(env, fl, e, kind);
    EventsAddsOfNothing(env, kind);
    assert [e][..0] == [] && [e][..1] == [e];
    EventsAddsStep(env, [e], 0, kind);
    var adds := [FixFrom(fl, l, caller, kind)];
    assert [] + adds == adds;
  }

  /** Where a fix is raised to: the function of the store must not be changed, its caller's may be. */
  lemma RaisedToCall(trace: seq<TraceEvent>, ls: Lines, fl: FixLoc, l: Location, caller: Location, kind: FixType)
    requires ls.Different() && (l == ls.a || l == ls.b) && (caller == ls.call || caller == ls.other)
    ensures RaiseAdds(TwoStores(trace, ls), FixFrom(fl, l, caller, kind).desc, true)
            == Some([Add(if caller == ls.call then CALL else OTHER, Desc(RaisedKind(kind), [l, caller], 1))])
  {
    var env, stack := TwoStores(trace, ls), [l, caller];
    assert env.OneFunction(l) && env.Immutable(l) && env.OneFunction(caller) && !env.Immutable(caller);
    var at := if caller == ls.call then CALL else OTHER;
    assert Land(env, stack, true, 1, Some(if l == ls.a then A else B)) == Lands(1, Some(at));
  }

  // ----- Two stores below one call -------------------------------------------------------------------------

  const LOW := AddressInfo(0, 8)
  const HIGH := AddressInfo(64, 8)

  /** Both stores are reached from the same line; only the first is followed by a fence before its bug. */
  function SharedCall(ls: Lines): seq<TraceEvent> {
    [Event(Store(LOW), [ls.a, ls.call]), Event(Fence, [ls.call]), Event(AssertPersisted(LOW), [ls.a, ls.call]),
     Event(Store(HIGH), [ls.b, ls.call]), Event(AssertPersisted(HIGH), [ls.b, ls.call])]
  }

  lemma SharedCallAdds(ls: Lines)
    requires ls.Different()
    ensures WellFormedTrace(SharedCall(ls))
    ensures BugsAdds(TwoStores(SharedCall(ls), ls), [2, 4])
            == Some([FixFrom(A, ls.a, ls.call, AddFlushOnly), FixFrom(B, ls.b, ls.call, AddFlushAndFence)])
  {
    hide ScanBack, BugAdds, AddressInfo.Overlaps;
    var t := SharedCall(ls);
    var env := TwoStores(t, ls);
    EndExact(LOW);
    EndExact(HIGH);
    OneStoreScan([], t[0], LOW);
    assert [] + [t[0]] == [t[0]] && [t[0]] + [t[1]] == t[..2] && t[..3] + [t[3]] == t[..4];
    ScanBackSnoc([t[0]], t[1], LOW, []);
    OneStoreScan(t[..3], t[3], HIGH);
    OneEventBugAdds(t, ls, 2, 0, t[0], A, ls.a, ls.call, true);
    OneEventBugAdds(t, ls, 4, 3, t[3], B, ls.b, ls.call, false);
    TwoBugsAdds(env, 2, 4);
    var a, b := FixFrom(A, ls.a, ls.call, AddFlushOnly), FixFrom(B, ls.b, ls.call, AddFlushAndFence);
    assert [a] + [b] == [a, b];
  }

  lemma TwoBugsAdds(env: Env, j: nat, k: nat)
    requires WellFormedTrace(env.trace) && j < |env.trace| && k < |env.trace|
    requires BugAdds(env, j).Some? && BugAdds(env, k).Some?
    ensures BugsAdds(env, [j, k]) == Some(BugAdds(env, j).value + BugAdds(env, k).value)
  {
    hide BugAdds;
    assert [j, k][..1] == [j] && [j][..0] == [];
    assert BugsAdds(env, [j]) == Some([] + BugAdds(env, j).value);
    assert [] + BugAdds(env, j).value == BugAdds(env, j).value;
  }

  /** A flush with a call stack through the line of A, then a flush and fence with one through the line of B. The
      second takes over the place of the first, and both fixes at the stores are erased: nothing is left that
      would flush the store of A. */
  lemma SharedCallLosesStack(ls: Lines)
    requires ls.Different()
    ensures var t := SharedCall(ls);
            var env := TwoStores(t, ls);
            && WellFormedTrace(t) && CallSitesApart(env)
            && BugsAdds(env, [2, 4])
               == Some([FixFrom(A, ls.a, ls.call, AddFlushOnly), FixFrom(B, ls.b, ls.call, AddFlushAndFence)])
            && Planned(env, [2, 4]) == Some(map[CALL := Desc(AddPersistCallstackOpt, [ls.b, ls.call], 1)])
            && !Served(Planned(env, [2, 4]).value, A, [ls.a, ls.call], AddFlushOnly)
  {
    hide BugsAdds, RaisePass, CallSitesApart, AddAll, AllMerge, PrimitivesOf;
    var t := SharedCall(ls);
    var env := TwoStores(t, ls);
    SitesApart(t, ls);
    SharedCallAdds(ls);
    var a, b := FixFrom(A, ls.a, ls.call, AddFlushOnly), FixFrom(B, ls.b, ls.call, AddFlushAndFence);
    AddTwo(map[], a, b);
    KeysAre(map[A := a.desc, B := b.desc], A, B);
    SharedCallPass(ls);
  }

  lemma SharedCallPass(ls: Lines)
    requires ls.Different()
    ensures var a, b := FixFrom(A, ls.a, ls.call, AddFlushOnly), FixFrom(B, ls.b, ls.call, AddFlushAndFence);
            var m := map[A := a.desc, B := b.desc];
            var p := RaisePass(TwoStores(SharedCall(ls), ls), m, [A, B]);
            p.ok && Erase(p.fixMap, p.moved) == map[CALL := Desc(AddPersistCallstackOpt, [ls.b, ls.call], 1)]
  {
    hide RaiseAdds, AddAll, AllMerge, AnyAdded, TwoStores;
    var env := TwoStores(SharedCall(ls), ls);
    var m := map[A := FixFrom(A, ls.a, ls.call, AddFlushOnly).desc,
                 B := FixFrom(B, ls.b, ls.call, AddFlushAndFence).desc];
    RaisedToCall(SharedCall(ls), ls, A, ls.a, ls.call, AddFlushOnly);
    RaisedToCall(SharedCall(ls), ls, B, ls.b, ls.call, AddFlushAndFence);
    var x := Desc(AddPersistCallstackOptNoFence, [ls.a, ls.call], 1);
    var y := Desc(AddPersistCallstackOpt, [ls.b, ls.call], 1);
    RaisePassSnoc(env, m, [], A);
    RaisePassSnoc(env, m, [A], B);
    assert [] + [A] == [A] && [A] + [B] == [A, B];
    AddAllOne(m, Add(CALL, x));
    AddAllOne(m[CALL := x], Add(CALL, y));
    assert RaisePass(env, m, [A]) == Pass(m[CALL := x], [A], true);
    assert RaisePass(env, m, [A, B]) == Pass(m[CALL := y], [A, B], true);
    assert Erase(m[CALL := y], [A, B]) == map[CALL := y];
  }

  lemma AddTwo(m: FixMap, a: Add, b: Add)
    ensures AddAll(m, [a, b]) == MapAfterAdd(MapAfterAdd(m, a.loc, a.desc), b.loc, b.desc)
    ensures AllMerge(m, [a, b]) <==>
              !ResultOfAdd(m, a.loc, a.desc).AssertFails? &&
              !ResultOfAdd(MapAfterAdd(m, a.loc, a.desc), b.loc, b.desc).AssertFails?
  {
    assert [a, b][..1] == [a];
    AddAllOne(m, a);
  }

  lemma KeysAre(m: FixMap, x: FixLoc, y: FixLoc)
    requires m.Keys == {x, y} && m[x].kind.Primitive() && m[y].kind.Primitive() && x.Less(y)
    ensures PrimitivesOf(m) == [x, y]
  {
    var keys := PrimitivesOf(m);
    assert x in keys && y in keys;
    forall i | 0 <= i < |keys| ensures keys[i] == x || keys[i] == y {
      assert keys[i] in keys;
    }
    forall i, j | 0 <= i < j < |keys| ensures keys[i] == x && keys[j] == y {
      InOrderAt(keys, i, j);
    }
    assert keys[1] == y && keys[|keys| - 1] == y;
    assert keys == [x, y];
  }

  // ----- One store below two calls -------------------------------------------------------------------------

  /** The store of A is reached from two lines, and there is a bug each time. */
  function TwoCallers(ls: Lines): seq<TraceEvent> {
    [Event(Store(LOW), [ls.a, ls.call]), Event(AssertPersisted(LOW), [ls.a, ls.call]),
     Event(Store(HIGH), [ls.a, ls.other]), Event(AssertPersisted(HIGH), [ls.a, ls.other])]
  }

  lemma TwoCallersAdds(ls: Lines)
    requires ls.Different()
    ensures WellFormedTrace(TwoCallers(ls))
    ensures BugsAdds(TwoStores(TwoCallers(ls), ls), [1, 3])
            == Some([FixFrom(A, ls.a, ls.call, AddFlushAndFence), FixFrom(A, ls.a, ls.other, AddFlushAndFence)])
  {
    hide ScanBack, BugAdds, AddressInfo.Overlaps;
    var t := TwoCallers(ls);
    EndExact(LOW);
    EndExact(HIGH);
    OneStoreScan([], t[0], LOW);
    assert [] + [t[0]] == t[..1] && t[..2] + [t[2]] == t[..3];
    OneStoreScan(t[..2], t[2], HIGH);
    OneEventBugAdds(t, ls, 1, 0, t[0], A, ls.a, ls.call, false);
    OneEventBugAdds(t, ls, 3, 2, t[2], A, ls.a, ls.other, false);
    TwoBugsAdds(TwoStores(t, ls), 1, 3);
    var a, b := FixFrom(A, ls.a, ls.call, AddFlushAndFence), FixFrom(A, ls.a, ls.other, AddFlushAndFence);
    assert [a] + [b] == [a, b];
  }

  /** The one fix of the store keeps the first call stack. It is raised to the first caller and erased, so that
      nothing is left that would flush the store when it is reached through the second one. */
  lemma TwoCallersLoseStack(ls: Lines)
    requires ls.Different()
    ensures var t := TwoCallers(ls);
            var env := TwoStores(t, ls);
            && WellFormedTrace(t) && CallSitesApart(env)
            && Planned(env, [1, 3]) == Some(map[CALL := Desc(AddPersistCallstackOpt, [ls.a, ls.call], 1)])
            && !Served(Planned(env, [1, 3]).value, A, [ls.a, ls.other], AddFlushAndFence)
  {
    hide BugsAdds, RaisePass, CallSitesApart, AddAll, AllMerge, PrimitivesOf;
    var t := TwoCallers(ls);
    SitesApart(t, ls);
    TwoCallersAdds(ls);
    var a, b := FixFrom(A, ls.a, ls.call, AddFlushAndFence), FixFrom(A, ls.a, ls.other, AddFlushAndFence);
    AddTwo(map[], a, b);
    var m := map[A := a.desc];
    assert a.desc.SameAs(b.desc) && m[A := a.desc] == m;
    assert AddAll(map[], [a, b]) == m;
    KeyIs(m, A);
    TwoCallersPass(ls);
  }

  lemma TwoCallersPass(ls: Lines)
    requires ls.Different()
    ensures var m := map[A := FixFrom(A, ls.a, ls.call, AddFlushAndFence).desc];
            var p := RaisePass(TwoStores(TwoCallers(ls), ls), m, [A]);
            p.ok && Erase(p.fixMap, p.moved) == map[CALL := Desc(AddPersistCallstackOpt, [ls.a, ls.call], 1)]
  {
    hide RaiseAdds, AddAll, AllMerge, AnyAdded, TwoStores;
    var env, m := TwoStores(TwoCallers(ls), ls), map[A := FixFrom(A, ls.a, ls.call, AddFlushAndFence).desc];
    RaisedToCall(TwoCallers(ls), ls, A, ls.a, ls.call, AddFlushAndFence);
    var x := Desc(AddPersistCallstackOpt, [ls.a, ls.call], 1);
    RaisePassSnoc(env, m, [], A);
    assert [] + [A] == [A];
    AddAllOne(m, Add(CALL, x));
    assert RaisePass(env, m, [A]) == Pass(m[CALL := x], [A], true);
    assert Erase(m[CALL := x], [A]) == map[CALL := x];
  }

  lemma KeyIs(m: FixMap, x: FixLoc)
    requires m.Keys == {x} && m[x].kind.Primitive()
    ensures PrimitivesOf(m) == [x]
  {
    var keys := PrimitivesOf(m);
    assert x in keys;
    forall i | 0 <= i < |keys| ensures keys[i] == x {
      assert keys[i] in keys;
    }
    if 1 < |keys| {
      InOrderAt(keys, 0, 1);
    }
  }
}
