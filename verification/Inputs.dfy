/**
 Small inputs with what the fixer makes of them: a call stack with the raising heuristic switched on
 (src/BugFixer.cpp:775-800), a store in a library that is not linked in (src/BugFixer.cpp:290-313), and two bugs
 with call stacks of their own (tools/Reports.py:186-215).
 */
module Inputs {
  import opened Options
  import opened Addresses
  import opened Traces
  import opened Fixes
  import opened Raising
  import opened BugFixing
  import opened Reports
  import opened Counterexamples
  import opened LostStacks

  // ----- The raising heuristic ----------------------------------------------------------------------------

  /** Two mapped lines in functions that may be changed: the lower one touches three volatile objects and one
      persistent, the upper one a persistent one only. */
  function TwoFrames(low: Location, high: Location): Env {
    Env([], map[low := [A], high := [CALL]], {A.first}, FunctionOf, {},
        (x: Location) => if x == low then (3, 1) else (0, 1), true, false)
  }

  /** The fix leaves its store for the call above, where there is nothing volatile. */
  lemma RaisedToBestFrame(low: Location, high: Location, kind: FixType)
    requires low != high
    ensures RaiseAdds(TwoFrames(low, high), Desc(kind, [low, high], 0), true)
            == Some([Add(CALL, Desc(RaisedKind(kind), [low, high], 1))])
  {
    var env, stack := TwoFrames(low, high), [low, high];
    assert env.OneFunction(high) && !env.Immutable(high);
    assert AliasedUpTo(env, stack, 0) && AliasedUpTo(env, stack, 1);
    HeuristicFrameIff(env, stack, 1);
    assert Land(env, stack, true, 1, None) == Lands(1, Some(CALL));
  }

  // ----- A store in a library -----------------------------------------------------------------------------

  /** The line of the call is mapped, that of the store is not. */
  function LibraryStore(trace: seq<TraceEvent>, caller: Location): Env {
    Env(trace, map[caller := [CALL]], {}, FunctionOf, {}, (x: Location) => (0, 0), false, false)
  }

  function LibraryTrace(library: Location, caller: Location): seq<TraceEvent> {
    [Event(Store(LOW), [library, caller]), Event(AssertPersisted(LOW), [library, caller])]
  }

  lemma LibraryStoreAdds(library: Location, caller: Location)
    requires library != caller
    ensures var t := LibraryTrace(library, caller);
            EventAdds(LibraryStore(t, caller), t[0], AddFlushAndFence)
            == Some([Add(CALL, Desc(AddPersistCallstackOpt, [library, caller], 1))])
  {
    var t := LibraryTrace(library, caller);
    var env, stack := LibraryStore(t, caller), [library, caller];
    assert !env.Mapped(library) && env.Mapped(caller) && env.OneFunction(caller) && !env.Immutable(caller);
    assert Land(env, stack, false, 1, None) == Lands(1, Some(CALL));
    assert Land(env, stack, false, 0, None) == Lands(1, Some(CALL));
  }

  lemma LibraryBugAdds(library: Location, caller: Location)
    requires library != caller
    ensures var t := LibraryTrace(library, caller);
            && WellFormedTrace(t)
            && BugsAdds(LibraryStore(t, caller), [1])
               == Some([Add(CALL, Desc(AddPersistCallstackOpt, [library, caller], 1))])
  {
    hide ScanBack, EventAdds, LibraryStore, AddressInfo.Overlaps;
    var t := LibraryTrace(library, caller);
    var env, a := LibraryStore(t, caller), Add(CALL, Desc(AddPersistCallstackOpt, [library, caller], 1));
    LibraryStoreEnv(t, caller);
    EndExact(LOW);
    OneStoreScan([], t[0], LOW);
    assert [] + [t[0]] == t[..1];
    LibraryStoreAdds(library, caller);
    EventsAddsOfNothing(env, AddFlushAndFence);
    assert [t[0]][..0] == [] && [t[0]][..1] == [t[0]] && [] + [a] == [a];
    EventsAddsStep(env, [t[0]], 0, AddFlushAndFence);
    assert BugAdds(env, 1) == Some([a]);
    assert [1][..0] == [];
  }

  /** The store gets a flush and a fence through a persistent version of the function that the caller calls. */
  lemma LibraryStorePlan(library: Location, caller: Location)
    requires library != caller
    ensures Planned(LibraryStore(LibraryTrace(library, caller), caller), [1])
            == Some(map[CALL := Desc(AddPersistCallstackOpt, [library, caller], 1)])
  {
    hide BugsAdds, LibraryStore, AddAll, AllMerge, PrimitivesOf;
    var env := LibraryStore(LibraryTrace(library, caller), caller);
    var a := Add(CALL, Desc(AddPersistCallstackOpt, [library, caller], 1));
    LibraryStoreEnv(env.trace, caller);
    LibraryBugAdds(library, caller);
    AddAllOne(map[], a);
    var m := map[CALL := a.desc];
    NoPrimitives(m);
    assert Erase(m, []) == m;
  }

  lemma LibraryStoreEnv(t: seq<TraceEvent>, caller: Location)
    ensures LibraryStore(t, caller).trace == t && !LibraryStore(t, caller).disableRaising
  {
  }

  lemma NoPrimitives(m: FixMap)
    requires forall fl | fl in m :: !m[fl].kind.Primitive()
    ensures PrimitivesOf(m) == []
  {
    assert (set fl | fl in m && m[fl].kind.Primitive()) == {};
  }

  // ----- Two bugs with different call stacks ----------------------------------------------------------------

  function TwoStacks(first: seq<Location>, second: seq<Location>): seq<TraceEvent> {
    [Event(Store(LOW), first), Event(AssertPersisted(LOW), first),
     Event(Store(HIGH), second), Event(AssertPersisted(HIGH), second),
     Event(RequiredFlush(LOW), second), Event(AssertOrdered(LOW, HIGH), first)]
  }

  /** Each stack keeps its first bug, and the stores of both remain; later bugs of a stack, of whatever kind,
      are dropped. */
  lemma BothStacksStay(first: seq<Location>, second: seq<Location>)
    requires first != [] && second != [] && first != second
    ensures var t := TwoStacks(first, second);
            forall e | e in t :: e in Optimized(t) <==> e in t[..4]
  {
    hide Optimized, Touches;
    var t := TwoStacks(first, second);
    EndExact(LOW);
    EndExact(HIGH);
    assert FirstWithStack(t, 1) && FirstWithStack(t, 3) && !FirstWithStack(t, 4) && !FirstWithStack(t, 5);
    TouchesItself(t[1], LOW);
    TouchesItself(t[3], HIGH);
    forall e | e in t ensures e in Optimized(t) <==> e in t[..4] {
      OptimizedIff(t, e);
      assert e == t[0] || e == t[1] || e == t[2] || e == t[3] || e == t[4] || e == t[5];
    }
  }

  lemma TouchesItself(bug: TraceEvent, r: AddressInfo)
    requires r.Valid() && bug.kind == AssertPersisted(r)
    ensures Touches(r, bug)
  {
    hide AddressInfo.Overlaps;
    OverlapsIff(r, r);
    assert r.Has(r.address);
  }
}
