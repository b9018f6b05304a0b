/**
 Traces on which the verdict of the scan (src/BugFixer.cpp:144-246) is not a repair, traces that end the fixer
 or make it lose a fix, and a trace whose reduction (tools/Reports.py:186-215) loses a bug. They show that
 the conditions in `Scan`, `Clashes`, `Repair` and `Reduction` are needed.
 */
module Counterexamples {
  import opened Options
  import opened Addresses
  import opened Traces
  import opened Scan
  import opened Mapping
  import opened Fixes
  import opened Raising
  import opened BugFixing
  import opened Repair
  import opened Reports
  import opened Reduction

  function Event(kind: Kind, stack: seq<Location>): TraceEvent {
    TraceEvent(0, kind, stack, false)
  }

  // ----- A program with one store instruction -------------------------------------------------------------

  const STORE := FixLoc(Inst(0, 0), Inst(0, 0))

  /** Its one line is `l`, in a function that may be immutable. */
  function OneStore(trace: seq<TraceEvent>, l: Location, immutable: bool): Env {
    Env(trace, map[l := [STORE]], {STORE.first}, (b: nat) => "f", if immutable then {"f"} else {},
        (x: Location) => (0, 0), false, false)
  }

  function StoreFix(l: Location, kind: FixType): Add {
    Add(STORE, Desc(kind, [l], 0))
  }

  /** What is added for an operation on a line with one store. */
  lemma SingleStoreEventAdds(env: Env, fl: FixLoc, e: TraceEvent, kind: FixType)
    requires e.callstack != [] && e.callstack[0] in env.fixLocs && env.fixLocs[e.callstack[0]] == [fl]
    requires fl.first == fl.last && fl.first in env.stores
    requires (e.kind.Store? || e.kind.Flush?) && e.kind.range.IsSingleCacheLine()
    ensures EventAdds(env, e, kind) == Some([Add(fl, Desc(kind, e.callstack, 0))])
  {
    var desc := Desc(kind, e.callstack, 0);
    assert fl.Insts() == [fl.first] && fl == FixLoc(fl.first, fl.first);
    assert [fl.first][..0] == [] && [fl][..0] == [];
    assert StoreAdds(env, [fl.first], desc) == [Add(fl, desc)];
    assert RangeAdds(env, [fl], desc) == [Add(fl, desc)];
  }

  /** What step 1 makes of one bug for which one or two operations are found. */
  lemma OneStoreBugAdds(trace: seq<TraceEvent>, l: Location, immutable: bool, k: nat)
    requires WellFormedTrace(trace) && k < |trace| && trace[k].kind.AssertPersisted?
    requires var f := ScanBack(trace[..k], trace[k].kind.range, []);
             && Judge(f).Verdict? && 1 <= |f.events| <= 2
             && forall e | e in f.events ::
               e.callstack == [l] && (e.kind.Store? || e.kind.Flush?) && e.kind.range.IsSingleCacheLine()
    ensures var f := ScanBack(trace[..k], trace[k].kind.range, []);
            var a := StoreFix(l, KindFor(f.MissingFlush(), f.MissingFence()));
            BugsAdds(OneStore(trace, l, immutable), [k]) == Some(if |f.events| == 1 then [a] else [a, a])
  {
    hide ScanBack;
    var env, f := OneStore(trace, l, immutable), ScanBack(trace[..k], trace[k].kind.range, []);
    var kind, es := KindFor(f.MissingFlush(), f.MissingFence()), f.events;
    ScanBackEvents(trace[..k], trace[k].kind.range);
    forall e | e in es ensures EventAdds(env, e, kind) == Some([StoreFix(l, kind)]) {
      SingleStoreEventAdds(env, STORE, e, kind);
    }
    assert es[0] in es && es[..0] == [];
    EventsAddsOfNothing(env, kind);
    EventsAddsStep(env, es, 0, kind);
    assert [] + [StoreFix(l, kind)] == [StoreFix(l, kind)];
    if |es| == 1 {
      assert es == es[..1];
    } else {
      assert es[1] in es && es == es[..2];
      EventsAddsStep(env, es, 1, kind);
      assert [StoreFix(l, kind)] + [StoreFix(l, kind)] == [StoreFix(l, kind), StoreFix(l, kind)];
    }
    assert BugAdds(env, k) == EventsAdds(env, es, kind);
    assert BugsAdds(env, [k][..0]) == Some([]);
    assert [] + BugAdds(env, k).value == BugAdds(env, k).value;
  }

  lemma OneKey(keys: seq<FixLoc>)
    requires InOrder(keys) && STORE in keys && forall i | 0 <= i < |keys| :: keys[i] == STORE
    ensures keys == [STORE]
  {
    hide InOrder;
    if 1 < |keys| {
      InOrderAt(keys, 0, 1);
    }
  }

  lemma InOrderAt(keys: seq<FixLoc>, i: nat, j: nat)
    requires InOrder(keys) && i < j < |keys|
    ensures keys[i].Less(keys[j])
  {
  }

  lemma OneEntry(l: Location, kind: FixType)
    requires kind.Primitive()
    ensures var a := StoreFix(l, kind);
            && AllMerge(map[], [a]) && AddAll(map[], [a]) == map[STORE := a.desc]
            && AllMerge(map[], [a, a]) && AddAll(map[], [a, a]) == map[STORE := a.desc]
    ensures PrimitivesOf(map[STORE := StoreFix(l, kind).desc]) == [STORE]
  {
    var a := StoreFix(l, kind);
    AddAllOne(map[], a);
    assert [a, a] == [a] + [a];
    AddAllConcat(map[], [a], [a]);
    AddAllOne(map[STORE := a.desc], a);
    var keys := PrimitivesOf(map[STORE := a.desc]);
    assert STORE in keys;
    forall i | 0 <= i < |keys| ensures keys[i] == STORE {
      assert keys[i] in keys;
    }
    OneKey(keys);
  }

  /** Where the only frame of a stack can take a fix: it stays at its store, or goes to the range of its own
      line if the function is immutable. */
  lemma OneStoreRaise(trace: seq<TraceEvent>, l: Location, immutable: bool, kind: FixType)
    ensures RaiseAdds(OneStore(trace, l, immutable), StoreFix(l, kind).desc, true)
            == Some(if immutable then [Add(STORE, Desc(RaisedKind(kind), [l], 1))] else [])
  {
    var env := OneStore(trace, l, immutable);
    assert env.Mapped(l) && env.fixLocs[l] == [STORE] && env.OneFunction(l);
    assert env.Immutable(l) <==> immutable;
    assert Land(env, [l], true, 1, Some(STORE)) == Lands(1, Some(STORE));
  }

  /** Steps 1 and 2 for one bug. */
  lemma OneStorePlan(trace: seq<TraceEvent>, l: Location, immutable: bool, k: nat)
    requires WellFormedTrace(trace) && k < |trace| && trace[k].kind.AssertPersisted?
    requires var f := ScanBack(trace[..k], trace[k].kind.range, []);
             && Judge(f).Verdict? && 1 <= |f.events| <= 2 && (f.MissingFlush() || f.MissingFence())
             && forall e | e in f.events ::
               e.callstack == [l] && (e.kind.Store? || e.kind.Flush?) && e.kind.range.IsSingleCacheLine()
    ensures var f := ScanBack(trace[..k], trace[k].kind.range, []);
            var kind := KindFor(f.MissingFlush(), f.MissingFence());
            Planned(OneStore(trace, l, immutable), [k])
            == if !immutable then Some(map[STORE := Desc(kind, [l], 0)])
               else if kind.AddFlushOnly? then None
               else Some(map[])
  {
    hide ScanBack, BugsAdds, PrimitivesOf, RaisePass, AddAll, AllMerge;
    var env, f := OneStore(trace, l, immutable), ScanBack(trace[..k], trace[k].kind.range, []);
    var kind := KindFor(f.MissingFlush(), f.MissingFence());
    OneStoreBugAdds(trace, l, immutable, k);
    OneEntry(l, kind);
    OneStorePass(trace, l, immutable, kind);
  }

  lemma OneStorePass(trace: seq<TraceEvent>, l: Location, immutable: bool, kind: FixType)
    requires kind.Primitive()
    ensures var p := RaisePass(OneStore(trace, l, immutable), map[STORE := Desc(kind, [l], 0)], [STORE]);
            if !immutable then p.ok && Erase(p.fixMap, p.moved) == map[STORE := Desc(kind, [l], 0)]
            else if kind.AddFlushOnly? then !p.ok
            else p.ok && Erase(p.fixMap, p.moved) == map[]
  {
    hide RaiseAdds, OneStore;
    var env, m := OneStore(trace, l, immutable), map[STORE := Desc(kind, [l], 0)];
    OneStoreRaise(trace, l, immutable, kind);
    var p := RaisePass(env, m, [STORE]);
    RaisePassSnoc(env, m, [], STORE);
    assert [] + [STORE] == [STORE];
    assert p == RaiseNext(env, Pass(m, [], true), STORE);
    if immutable {
      AddAllOne(m, Add(STORE, Desc(RaisedKind(kind), [l], 1)));
    } else {
      assert p == Pass(m, [], true);
      assert Erase(m, []) == m;
    }
  }

  /** A step that executed a store of the program did so at its one instruction. */
  lemma OneStoreInst(trace: seq<TraceEvent>, l: Location, immutable: bool, s: Step, e: TraceEvent)
    requires Records(OneStore(trace, l, immutable), s, e) && e.kind.Store? && e.callstack == [l]
    ensures s.inst == STORE.first
  {
    var fl :| fl in [STORE] && fl.Holds(s.inst);
  }

  // ----- A fix that is raised to its own place ------------------------------------------------------------

  /** A bug in one line, in a function that is immutable and the only frame of the stack. With a fence behind
      the store the verdict is to flush only; step 2 then raises the fix to where it is, and fails. */
  lemma OneFrameClash(l: Location)
    ensures var r := AddressInfo(0, 8);
            var trace := [Event(Store(r), [l]), Event(Fence, [l]), Event(AssertPersisted(r), [l])];
            && WellFormedTrace(trace)
            && BugsAdds(OneStore(trace, l, true), [2]) == Some([StoreFix(l, AddFlushOnly)])
            && Planned(OneStore(trace, l, true), [2]).None?
  {
    hide ScanBack, BugsAdds, Planned, AddressInfo.Overlaps;
    var r := AddressInfo(0, 8);
    var trace := [Event(Store(r), [l]), Event(Fence, [l]), Event(AssertPersisted(r), [l])];
    EndExact(r);
    OneStoreScan([], trace[0], r);
    assert [] + [trace[0]] == [trace[0]] && [trace[0]] + [trace[1]] == trace[..2];
    ScanBackSnoc([trace[0]], trace[1], r, []);
    assert ScanBack(trace[..2], r, []) == Finding([0], [trace[0]], Complete, true);
    OneStoreBugAdds(trace, l, true, 2);
    OneStorePlan(trace, l, true, 2);
  }

  /** Without that fence the raised fix replaces the primitive one and is then erased in its stead: the repair
      does nothing. */
  lemma OneFrameLosesFix(l: Location)
    ensures var r := AddressInfo(0, 8);
            var trace := [Event(Store(r), [l]), Event(AssertPersisted(r), [l])];
            && WellFormedTrace(trace)
            && BugsAdds(OneStore(trace, l, true), [1]) == Some([StoreFix(l, AddFlushAndFence)])
            && Planned(OneStore(trace, l, true), [1]) == Some(map[])
  {
    hide ScanBack, BugsAdds, Planned, AddressInfo.Overlaps;
    var r := AddressInfo(0, 8);
    var trace := [Event(Store(r), [l]), Event(AssertPersisted(r), [l])];
    EndExact(r);
    OneStoreScan([], trace[0], r);
    assert [] + [trace[0]] == trace[..1];
    assert ScanBack(trace[..1], r, []) == Finding([0], [trace[0]], Complete, false);
    OneStoreBugAdds(trace, l, true, 1);
    OneStorePlan(trace, l, true, 1);
  }

  // ----- Verdicts that are not enough -----------------------------------------------------------------------

  /** Store the first half, fence, store the second half; the bug is in the whole. */
  function HalfFencedHistory(stack: seq<Location>): seq<TraceEvent> {
    [Event(Store(AddressInfo(0, 8)), stack), Event(Fence, stack), Event(Store(AddressInfo(8, 8)), stack)]
  }

  lemma HalfFencedScan(stack: seq<Location>)
    ensures var f := ScanBack(HalfFencedHistory(stack), AddressInfo(0, 16), []);
            f.hits == [2, 0] && f.stop.Complete? && f.fence
  {
    var h, r := HalfFencedHistory(stack), AddressInfo(0, 16);
    var lower, upper := AddressInfo(0, 8), AddressInfo(8, 8);
    EndExact(r);
    EndExact(lower);
    EndExact(upper);
    assert h[..2][..1] == [h[0]] && h[..2] == [h[0], h[1]];
    assert r.Has(0) && ![upper][0].Has(0);
    assert [] + [upper] == [upper] && [upper] + [lower] == [upper, lower];
    assert !CoveredBy([upper], r);
    assert CoveredBy([upper, lower], r) by {
      forall b | r.Has(b) ensures InAny([upper, lower], b) {
        assert [upper, lower][0].Has(b) || [upper, lower][1].Has(b);
      }
    }
    assert ScanBack([h[0]], r, [upper]) == Finding([0], [h[0]], Complete, false);
    assert ScanBack([h[0], h[1]], r, [upper]) == Finding([0], [h[0]], Complete, true);
  }

  /** The verdict for this history is to add flushes only, since the scan passed a fence; but that
      fence does not order the second store. In every execution with this history, once repaired as the
      fixer plans it, the range is not persisted. */
  lemma FlushOnlyIsNotEnough(l: Location, steps: seq<Step>)
    requires var bug := Event(AssertPersisted(AddressInfo(0, 16)), [l]);
             Recorded(OneStore(HalfFencedHistory([l]) + [bug], l, false), steps, HalfFencedHistory([l]))
    ensures var bug := Event(AssertPersisted(AddressInfo(0, 16)), [l]);
            var env, m := OneStore(HalfFencedHistory([l]) + [bug], l, false), map[STORE := Desc(AddFlushOnly, [l], 0)];
            && WellFormedTrace(env.trace)
            && Judge(ScanBack(HalfFencedHistory([l]), AddressInfo(0, 16), [])) == Verdict([2, 0], true, false)
            && Planned(env, [3]) == Some(m)
            && !AllPersisted(Repaired(m, steps), AddressInfo(0, 16))
  {
    hide Planned, ScanBack, Repaired, AllPersisted, AddressInfo.Overlaps;
    var h, r := HalfFencedHistory([l]), AddressInfo(0, 16);
    var bug := Event(AssertPersisted(r), [l]);
    var env, m := OneStore(h + [bug], l, false), map[STORE := Desc(AddFlushOnly, [l], 0)];
    HalfFencedScan([l]);
    ScanBackHits(h, r, []);
    var f := ScanBack(h, r, []);
    assert f.events[0] == h[2] && f.events[1] == h[0];
    assert (h + [bug])[..3] == h && (h + [bug])[3] == bug;
    EndExact(r);
    EndExact(AddressInfo(0, 8));
    EndExact(AddressInfo(8, 8));
    OneStorePlan(h + [bug], l, false, 3);
    HalfFencedUnrepaired(h + [bug], l, steps);
  }

  lemma HalfFencedUnrepaired(trace: seq<TraceEvent>, l: Location, steps: seq<Step>)
    requires Recorded(OneStore(trace, l, false), steps, HalfFencedHistory([l]))
    ensures !AllPersisted(Repaired(map[STORE := Desc(AddFlushOnly, [l], 0)], steps), AddressInfo(0, 16))
  {
    var h, r := HalfFencedHistory([l]), AddressInfo(0, 16);
    var env, m := OneStore(trace, l, false), map[STORE := Desc(AddFlushOnly, [l], 0)];
    HalfFencedScan([l]);
    assert Records(env, steps[0], h[0]) && Records(env, steps[1], h[1]) && Records(env, steps[2], h[2]);
    OneStoreInst(trace, l, false, steps[0], h[0]);
    OneStoreInst(trace, l, false, steps[2], h[2]);
    EndExact(r);
    RepairIff(env, m, steps, h, r);
  }

  lemma PartScan(stack: seq<Location>)
    ensures var h := [Event(Store(AddressInfo(0, 4)), stack)];
            ScanBack(h, AddressInfo(0, 8), []) == Finding([0], [h[0]], RanOff, false)
  {
    var part, r := AddressInfo(0, 4), AddressInfo(0, 8);
    var h := [Event(Store(part), stack)];
    EndExact(part);
    EndExact(r);
    assert [] + [part] == [part] && h[..0] == [];
    assert r.Has(7) && ![part][0].Has(7);
    assert !CoveredBy([part], r);
  }

  /** A history that does not cover the range: the scan runs off its start and asks for a fence only, which
      leaves the store that was found unflushed. */
  lemma RunningOffIsNoVerdict(l: Location, steps: seq<Step>)
    requires var h := [Event(Store(AddressInfo(0, 4)), [l])];
             Recorded(OneStore(h + [Event(AssertPersisted(AddressInfo(0, 8)), [l])], l, false), steps, h)
    ensures var h, r := [Event(Store(AddressInfo(0, 4)), [l])], AddressInfo(0, 8);
            var env, m := OneStore(h + [Event(AssertPersisted(r), [l])], l, false),
              map[STORE := Desc(AddFenceOnly, [l], 0)];
            && WellFormedTrace(env.trace)
            && Judge(ScanBack(h, r, [])) == Verdict([0], false, true)
            && Planned(env, [1]) == Some(m)
            && !AllPersisted(Repaired(m, steps), r)
  {
    hide Repaired, ScanBack, Planned, AllPersisted, AddressInfo.Overlaps;
    var part, r := AddressInfo(0, 4), AddressInfo(0, 8);
    var h, bug := [Event(Store(part), [l])], Event(AssertPersisted(r), [l]);
    var env, m := OneStore(h + [bug], l, false), map[STORE := Desc(AddFenceOnly, [l], 0)];
    EndExact(part);
    EndExact(r);
    assert (h + [bug])[..1] == h;
    PartScan([l]);
    OneStorePlan(h + [bug], l, false, 1);
    assert Records(env, steps[0], h[0]);
    OneStoreInst(h + [bug], l, false, steps[0], h[0]);
    RunOffIff(env, m, steps, h, r);
  }

  /** A flush and a fence behind it, then one more store into the range: the scan fails an assertion,
      since it takes the fence for one that orders a flushed store. */
  lemma StoreBehindFlushAndFenceFails(stack: seq<Location>)
    ensures var h := [Event(Flush(AddressInfo(0, 64)), stack), Event(Fence, stack),
                      Event(Store(AddressInfo(0, 4)), stack)];
            Judge(ScanBack(h, AddressInfo(0, 8), [])).ScanFails?
  {
    var line, part, r := AddressInfo(0, 64), AddressInfo(0, 4), AddressInfo(0, 8);
    var h := [Event(Flush(line), stack), Event(Fence, stack), Event(Store(part), stack)];
    EndExact(line);
    EndExact(part);
    EndExact(r);
    assert h[..2] == [h[0], h[1]] && h[..2][..1] == [h[0]];
    assert [] + [part] == [part];
    assert r.Has(7) && ![part][0].Has(7);
    assert !CoveredBy([part], r);
    assert ScanBack([h[0]], r, [part]) == Finding([0], [h[0]], AtFlush, false);
    assert ScanBack([h[0], h[1]], r, [part]) == Finding([0], [h[0]], AtFlush, true);
  }

  // ----- A bug lost by deduplication --------------------------------------------------------------------------

  /** One instruction stores to two lines with a fence in between; both stores are reported as bugs at
      the end, with the same stack, that of the store. */
  function TwoBugsTrace(stack: seq<Location>): seq<TraceEvent> {
    [TraceEvent(0, Store(AddressInfo(0, 8)), stack, false),
     TraceEvent(1, Fence, stack, false),
     TraceEvent(2, Store(AddressInfo(64, 8)), stack, false),
     TraceEvent(3, AssertPersisted(AddressInfo(0, 8)), stack, true),
     TraceEvent(4, AssertPersisted(AddressInfo(64, 8)), stack, true)]
  }

  lemma KeepFive(t: seq<TraceEvent>, p: TraceEvent -> bool)
    requires |t| == 5 && p(t[0]) && p(t[1]) && p(t[2]) && p(t[3]) && !p(t[4])
    ensures Keep(t, p) == [t[0], t[1], t[2], t[3]]
  {
    KeepStep(t, 0, p);
    KeepStep(t, 1, p);
    KeepStep(t, 2, p);
    KeepStep(t, 3, p);
    KeepStep(t, 4, p);
    assert t[..5] == t && t[..0] == [];
  }

  lemma KeepFour(t: seq<TraceEvent>, p: TraceEvent -> bool)
    requires |t| == 4 && p(t[0]) && p(t[1]) && !p(t[2]) && p(t[3])
    ensures Keep(t, p) == [t[0], t[1], t[3]]
  {
    KeepStep(t, 0, p);
    KeepStep(t, 1, p);
    KeepStep(t, 2, p);
    KeepStep(t, 3, p);
    assert t[..4] == t && t[..0] == [];
  }

  lemma KeepThree(t: seq<TraceEvent>, p: TraceEvent -> bool)
    requires |t| == 3 && p(t[0]) && p(t[1]) && p(t[2])
    ensures Keep(t, p) == t
  {
    KeepStep(t, 0, p);
    KeepStep(t, 1, p);
    KeepStep(t, 2, p);
    assert t[..3] == t && t[..0] == [];
  }

  lemma TwoBugsFirst(stack: seq<Location>)
    ensures FirstOfStacks(TwoBugsTrace(stack)) == [TwoBugsTrace(stack)[3]]
  {
    var t := TwoBugsTrace(stack);
    assert t[..4] == [t[0], t[1], t[2], t[3]];
    assert [t[0], t[1], t[2], t[3]][..3] == [t[0], t[1], t[2]];
    assert [t[0], t[1], t[2]][..2] == [t[0], t[1]];
    assert [t[0], t[1]][..1] == [t[0]] && [t[0]][..0] == [];
    assert FirstOfStacks([t[0]]) == [];
    assert FirstOfStacks([t[0], t[1]]) == [];
    assert FirstOfStacks([t[0], t[1], t[2]]) == [];
    assert NewStack([t[0], t[1], t[2]], stack);
    assert FirstOfStacks([t[0], t[1], t[2], t[3]]) == [t[3]];
    assert IsBug(t[..4][3]) && t[..4][3].callstack == stack;
    assert !NewStack(t[..4], stack);
  }

  lemma TwoBugsOptimized(stack: seq<Location>)
    ensures var t := TwoBugsTrace(stack); Optimized(t) == [t[0], t[1], t[3]]
  {
    hide Keep, DropRepeatedFences, AllBugIntervals;
    var t := TwoBugsTrace(stack);
    TwoBugsFirst(stack);
    KeepFive(t, Retained(t));
    var t1 := [t[0], t[1], t[2], t[3]];
    var r := AddressInfo(0, 8);
    assert DedupedBugs(t) == t1;
    OneBugInterval(stack);
    assert RangeOf(r).Overlaps(0, 8) && !RangeOf(r).Overlaps(64, 72);
    KeepFour(t1, Relevant({RangeOf(r)}));
    var t2 := [t[0], t[1], t[3]];
    KeepThree(t2, NotFlush());
    NothingRepeated(stack);
  }

  lemma OneBugInterval(stack: seq<Location>)
    ensures var t := TwoBugsTrace(stack); AllBugIntervals([t[0], t[1], t[2], t[3]]) == {RangeOf(AddressInfo(0, 8))}
  {
    var t := TwoBugsTrace(stack);
    var t1 := [t[0], t[1], t[2], t[3]];
    assert t1[3] in t1 && RangeOf(AddressInfo(0, 8)) in BugIntervals(t1[3]);
  }

  lemma NothingRepeated(stack: seq<Location>)
    ensures var t := TwoBugsTrace(stack); DropRepeatedFences([t[0], t[1], t[3]]) == [t[0], t[1], t[3]]
  {
    var t := TwoBugsTrace(stack);
    var t2 := [t[0], t[1], t[3]];
    assert t2[..2] == [t[0], t[1]] && [t[0], t[1]][..1] == [t[0]] && [t[0]][..0] == [];
    assert DropRepeatedFences([t[0]]) == [t[0]];
    assert DropRepeatedFences([t[0], t[1]]) == [t[0], t[1]];
  }

  lemma OneStoreScan(front: seq<TraceEvent>, e: TraceEvent, r: AddressInfo)
    requires r.Valid() && e.kind == Store(r)
    ensures ScanBack(front + [e], r, []) == Finding([|front|], [e], Complete, false)
  {
    hide ScanBack, AddressInfo.Overlaps;
    assert [] + [r] == [r];
    assert r.Overlaps(r) by {
      OverlapsIff(r, r);
      assert r.Has(r.address);
    }
    assert CoveredBy([r], r) by {
      forall b | r.Has(b) ensures InAny([r], b) {
        assert [r][0].Has(b);
      }
    }
    ScanBackSnoc(front, e, r, []);
  }

  /** What the scan finds for the bug that is kept, in the reduced trace, and for the other one in the
      full trace. */
  lemma TwoBugsScans(stack: seq<Location>)
    ensures var t := TwoBugsTrace(stack);
            && ScanBack([t[0], t[1]], t[3].kind.range, []) == Finding([0], [t[0]], Complete, true)
            && ScanBack(t[..4], t[4].kind.range, []) == Finding([2], [t[2]], Complete, false)
  {
    hide ScanBack, AddressInfo.Overlaps, CoveredBy;
    var t := TwoBugsTrace(stack);
    var a, b := AddressInfo(0, 8), AddressInfo(64, 8);
    OneStoreScan([], t[0], a);
    assert [] + [t[0]] == [t[0]] && [t[0]] + [t[1]] == [t[0], t[1]];
    ScanBackSnoc([t[0]], t[1], a, []);
    OneStoreScan([t[0], t[1]], t[2], b);
    assert [t[0], t[1]] + [t[2]] == [t[0], t[1], t[2]] && [t[0], t[1], t[2]] + [t[3]] == t[..4];
    ScanBackSnoc([t[0], t[1], t[2]], t[3], b, []);
  }

  /** Deduplication keeps only the first of the two bugs, and with it only the first store. For that bug a flush
      is enough, since a fence follows, and that is what the fixer plans. In every execution with this history,
      once repaired so, the second store is not persisted: its bug has been dropped and is not repaired. */
  lemma DedupLosesBug(l: Location, steps: seq<Step>)
    requires Recorded(OneStore(Optimized(TwoBugsTrace([l])), l, false), steps, TwoBugsTrace([l])[..4])
    ensures var t := TwoBugsTrace([l]);
            var env, m := OneStore(Optimized(t), l, false), map[STORE := Desc(AddFlushOnly, [l], 0)];
            && WellFormedTrace(t) && StrictTimes(t)
            && Optimized(t) == [t[0], t[1], t[3]]
            && Planned(env, [2]) == Some(m)
            && !AllPersisted(Repaired(m, steps), t[4].kind.range)
  {
    hide ScanBack, Optimized, Repaired, AddressInfo.Overlaps, Planned;
    var t := TwoBugsTrace([l]);
    TwoBugsOptimized([l]);
    TwoBugsScans([l]);
    var env, m := OneStore(Optimized(t), l, false), map[STORE := Desc(AddFlushOnly, [l], 0)];
    assert Optimized(t)[..2] == [t[0], t[1]];
    EndExact(t[0].kind.range);
    EndExact(t[2].kind.range);
    OneStorePlan(Optimized(t), l, false, 2);
    var h := t[..4];
    assert Records(env, steps[2], h[2]) && Records(env, steps[3], h[3]);
    OneStoreInst(Optimized(t), l, false, steps[2], h[2]);
    RepairIff(env, m, steps, h, t[4].kind.range);
  }
}
