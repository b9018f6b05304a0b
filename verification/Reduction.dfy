/**
 The reduction of the trace (tools/Reports.py:217-332) and the repair together: the fixer reaches the
 same verdict on the reduced trace, and the fixes it derives from the reduced trace repair the
 execution behind the full one.
 */
module Reduction {
  import P = Persistence
  import opened Addresses
  import opened Traces
  import opened Scan
  import opened Fixes
  import opened Raising
  import opened BugFixing
  import opened Conservation
  import opened Repair
  import opened Reports

  /** The same operations in the same order, the same reason to stop, the same flags. */
  predicate SameFinding(f: Finding, g: Finding) {
    f.events == g.events && f.stop == g.stop && f.fence == g.fence
  }

  /** The scan for `r` passes over the event. */
  predicate Silent(e: TraceEvent, r: AddressInfo) {
    !e.StoresInto(r) && !e.FlushesInto(r) && !e.kind.Fence?
  }

  lemma ScanBackSnoc(front: seq<TraceEvent>, e: TraceEvent, r: AddressInfo, collected: seq<AddressInfo>)
    ensures var f := ScanBack(front + [e], r, collected);
            if e.StoresInto(r) then
              var more := collected + [e.kind.range];
              f == if CoveredBy(more, r) then Finding([|front|], [e], Complete, false)
                   else ScanBack(front, r, more).Prepend([|front|], [e], false)
            else if e.FlushesInto(r) then f == Finding([|front|], [e], AtFlush, false)
            else f == ScanBack(front, r, collected).Prepend([], [], e.kind.Fence?)
  {
    assert (front + [e])[..|front|] == front;
  }

  /** Dropping events that the scan passes over does not change what it finds. */
  lemma {:induction false} KeepSilent(h: seq<TraceEvent>, p: TraceEvent -> bool, r: AddressInfo,
                                      collected: seq<AddressInfo>)
    requires forall e | e in h && !p(e) :: Silent(e, r)
    ensures SameFinding(ScanBack(Keep(h, p), r, collected), ScanBack(h, r, collected))
    decreases |h|
  {
    hide CoveredBy, ScanBack, Silent, AddressInfo.Overlaps;
    if h == [] {
    } else {
      var front, e := h[..|h| - 1], h[|h| - 1];
      assert h == front + [e];
      var kept := Keep(front, p);
      ScanBackSnoc(front, e, r, collected);
      if p(e) {
        assert Keep(h, p) == kept + [e];
        ScanBackSnoc(kept, e, r, collected);
        if e.StoresInto(r) {
          KeepSilent(front, p, r, collected + [e.kind.range]);
        } else {
          KeepSilent(front, p, r, collected);
        }
      } else {
        assert Keep(h, p) == kept + [] == kept;
        SilentMeans(e, r);
        KeepSilent(front, p, r, collected);
      }
    }
  }

  lemma SilentMeans(e: TraceEvent, r: AddressInfo)
    requires Silent(e, r)
    ensures !e.StoresInto(r) && !e.FlushesInto(r) && !e.kind.Fence?
  {
  }

  /** Behind a fence, bugs aside, the scan has passed a fence. */
  lemma {:induction false} AfterFenceSeen(h: seq<TraceEvent>, r: AddressInfo, collected: seq<AddressInfo>)
    requires AfterFence(h)
    ensures ScanBack(h, r, collected).fence
    decreases |h|
  {
    var front, e := h[..|h| - 1], h[|h| - 1];
    assert h == front + [e];
    ScanBackSnoc(front, e, r, collected);
    if IsBug(e) {
      AfterFenceSeen(front, r, collected);
    }
  }

  lemma {:induction false} DropFencesSame(h: seq<TraceEvent>, r: AddressInfo, collected: seq<AddressInfo>)
    ensures SameFinding(ScanBack(DropRepeatedFences(h), r, collected), ScanBack(h, r, collected))
    decreases |h|
  {
    hide CoveredBy, ScanBack, AfterFence, AddressInfo.Overlaps;
    if h == [] {
    } else {
      var front, e := h[..|h| - 1], h[|h| - 1];
      assert h == front + [e];
      var less := DropRepeatedFences(front);
      ScanBackSnoc(front, e, r, collected);
      if !IsBug(e) && e.kind.Fence? && AfterFence(front) {
        assert DropRepeatedFences(h) == less + [] == less;
        DropFencesSame(front, r, collected);
        AfterFenceSeen(front, r, collected);
        FenceIsNoAccess(e, r);
      } else {
        assert DropRepeatedFences(h) == less + [e];
        ScanBackSnoc(less, e, r, collected);
        if e.StoresInto(r) {
          DropFencesSame(front, r, collected + [e.kind.range]);
        } else {
          DropFencesSame(front, r, collected);
        }
      }
    }
  }

  lemma FenceIsNoAccess(e: TraceEvent, r: AddressInfo)
    requires e.kind.Fence?
    ensures !e.StoresInto(r) && !e.FlushesInto(r)
  {
  }

  /** Without its flushes, a trace is scanned as before unless the scan met a flush of the range. */
  lemma {:induction false} DropFlushesSame(h: seq<TraceEvent>, r: AddressInfo, collected: seq<AddressInfo>)
    ensures SameFinding(ScanBack(Keep(h, NotFlush()), r, collected), ScanBack(h, r, collected))
            <==> !ScanBack(h, r, collected).stop.AtFlush?
    ensures !ScanBack(Keep(h, NotFlush()), r, collected).stop.AtFlush?
    decreases |h|
  {
    hide CoveredBy, ScanBack, AddressInfo.Overlaps;
    if h == [] {
      ScanBackOfNothing(r, collected);
    } else {
      var front, e := h[..|h| - 1], h[|h| - 1];
      assert h == front + [e];
      var kept := Keep(front, NotFlush());
      ScanBackSnoc(front, e, r, collected);
      assert NotFlush()(e) <==> !e.kind.Flush?;
      if e.kind.Flush? {
        FlushIsNoStore(e, r);
        assert Keep(h, NotFlush()) == kept + [] == kept;
        DropFlushesSame(front, r, collected);
      } else {
        assert Keep(h, NotFlush()) == kept + [e];
        ScanBackSnoc(kept, e, r, collected);
        var more := if e.StoresInto(r) then collected + [e.kind.range] else collected;
        DropFlushesSame(front, r, more);
        PrependSame(ScanBack(kept, r, more), ScanBack(front, r, more), |kept|, |front|, e);
      }
    }
  }

  lemma FlushIsNoStore(e: TraceEvent, r: AddressInfo)
    requires e.kind.Flush?
    ensures !e.StoresInto(r)
  {
  }

  lemma PrependSame(f: Finding, g: Finding, i: nat, j: nat, e: TraceEvent)
    ensures SameFinding(f.Prepend([i], [e], false), g.Prepend([j], [e], false)) <==> SameFinding(f, g)
    ensures SameFinding(f.Prepend([], [], true), g.Prepend([], [], true)) <==> f.events == g.events && f.stop == g.stop
    ensures SameFinding(f.Prepend([], [], false), g.Prepend([], [], false)) <==> SameFinding(f, g)
  {
    assert f.Prepend([i], [e], false).events[1..] == f.events;
    assert g.Prepend([j], [e], false).events[1..] == g.events;
    assert f.Prepend([], [], true).events == f.events && g.Prepend([], [], true).events == g.events;
    assert f.Prepend([], [], false).events == f.events && g.Prepend([], [], false).events == g.events;
  }

  // ----- A bug in the reduced trace -------------------------------------------------------------------------

  function RelevantTo(t: seq<TraceEvent>): TraceEvent -> bool {
    Relevant(AllBugIntervals(DedupedBugs(t)))
  }

  /** What reduction makes of the history of event `k`. */
  function ReducedHistory(t: seq<TraceEvent>, k: nat): seq<TraceEvent>
    requires k <= |t|
  {
    DropRepeatedFences(Keep(Keep(Keep(t[..k], Retained(t)), RelevantTo(t)), NotFlush()))
  }

  /** A bug that deduplication retains. */
  predicate RetainedBug(t: seq<TraceEvent>, k: nat) {
    k < |t| && t[k].kind.AssertPersisted? && t[k] in FirstOfStacks(t)
  }

  /** In terms of the trace: a durability bug that is, or equals, the first bug with its call stack. */
  lemma RetainedBugIff(t: seq<TraceEvent>, k: nat)
    ensures RetainedBug(t, k) <==>
              && k < |t| && t[k].kind.AssertPersisted?
              && exists i :: FirstWithStack(t, i) && t[i] == t[k]
  {
    if k < |t| {
      FirstOfStacksIff(t, t[k]);
    }
  }

  lemma {:induction false} DropFencesPrefix(t: seq<TraceEvent>, k: nat)
    requires k < |t| && IsBug(t[k])
    ensures var d := DropRepeatedFences(t[..k]);
            d <= DropRepeatedFences(t) && |d| < |DropRepeatedFences(t)| && DropRepeatedFences(t)[|d|] == t[k]
    decreases |t|
  {
    var n := |t| - 1;
    if k < n {
      assert t[..n][..k] == t[..k];
      DropFencesPrefix(t[..n], k);
    }
  }

  /** A retained bug is in the reduced trace, right behind its reduced history. */
  lemma ReducedAt(t: seq<TraceEvent>, k: nat)
    requires RetainedBug(t, k)
    ensures var h := ReducedHistory(t, k);
            |h| < |Optimized(t)| && Optimized(t)[|h|] == t[k] && Optimized(t)[..|h|] == h
  {
    hide FirstOfStacks, Keep, DropRepeatedFences, Retained, Relevant, AllBugIntervals;
    KeptBug(t, k);
    var p1, p2 := Retained(t), RelevantTo(t);
    var t1 := Keep(t, p1);
    KeepPrefix(t, p1, k);
    var k1 := |Keep(t[..k], p1)|;
    assert t1[..k1] == Keep(t[..k], p1);
    var t2 := Keep(t1, p2);
    KeepPrefix(t1, p2, k1);
    var k2 := |Keep(t1[..k1], p2)|;
    assert t2[..k2] == Keep(t1[..k1], p2);
    var t3 := Keep(t2, NotFlush());
    KeepPrefix(t2, NotFlush(), k2);
    var k3 := |Keep(t2[..k2], NotFlush())|;
    assert t3[..k3] == Keep(t2[..k2], NotFlush());
    DropFencesPrefix(t3, k3);
  }

  lemma KeptBug(t: seq<TraceEvent>, k: nat)
    requires RetainedBug(t, k)
    ensures Retained(t)(t[k]) && RelevantTo(t)(t[k]) && NotFlush()(t[k]) && IsBug(t[k])
  {
  }

  /** Everything that the first two steps drop is passed over by the scan for a retained bug. */
  lemma DroppedIsSilent(t: seq<TraceEvent>, k: nat, e: TraceEvent)
    requires WellFormedTrace(t) && RetainedBug(t, k) && e in t
    ensures !Retained(t)(e) || !RelevantTo(t)(e) ==> Silent(e, t[k].kind.range)
  {
    if Retained(t)(e) && !RelevantTo(t)(e) {
      assert t[k] in t && t[k].WellFormed() && e.WellFormed();
      KeepMembers(t, Retained(t), t[k]);
      var i := RangeOf(t[k].kind.range);
      assert i in BugIntervals(t[k]) && i in AllBugIntervals(DedupedBugs(t));
      assert !i.Overlaps(e.kind.range.address, e.kind.range.address + e.kind.range.length);
      OverlapAgrees(t[k].kind.range, e.kind.range);
    }
  }

  lemma {:induction false} KeepCommutes(h: seq<TraceEvent>, p: TraceEvent -> bool, q: TraceEvent -> bool)
    ensures Keep(Keep(h, p), q) == Keep(Keep(h, q), p)
  {
    if h != [] {
      var front, e := h[..|h| - 1], h[|h| - 1];
      KeepCommutes(front, p, q);
      KeepSnoc(Keep(front, p), e, q);
      KeepSnoc(Keep(front, q), e, p);
      assert Keep(front, p) + [] == Keep(front, p) && Keep(front, q) + [] == Keep(front, q);
    }
  }

  lemma KeepSnoc(h: seq<TraceEvent>, e: TraceEvent, p: TraceEvent -> bool)
    ensures Keep(h + [e], p) == Keep(h, p) + if p(e) then [e] else []
  {
    assert (h + [e])[..|h|] == h;
  }

  /** Without the flushes, the reduction changes nothing that the scan for the bug finds. */
  lemma ReducedSameAsFlushless(t: seq<TraceEvent>, k: nat)
    requires WellFormedTrace(t) && RetainedBug(t, k)
    ensures SameFinding(ScanBack(ReducedHistory(t, k), t[k].kind.range, []),
                        ScanBack(Keep(t[..k], NotFlush()), t[k].kind.range, []))
  {
    hide FirstOfStacks, Keep, DropRepeatedFences, Retained, Relevant, AllBugIntervals, ScanBack, Silent;
    var r, p1, p2 := t[k].kind.range, Retained(t), RelevantTo(t);
    var h, h1 := t[..k], Keep(t[..k], p1);
    KeepCommutes(h1, p2, NotFlush());
    KeepCommutes(h, p1, NotFlush());
    var h0 := Keep(h, NotFlush());
    assert ReducedHistory(t, k) == DropRepeatedFences(Keep(Keep(h0, p1), p2));
    DropFencesSame(Keep(Keep(h0, p1), p2), r, []);
    forall e | e in Keep(h0, p1) && !p2(e) ensures Silent(e, r) {
      KeepMembers(h0, p1, e);
      KeepMembers(h, NotFlush(), e);
      DroppedIsSilent(t, k, e);
    }
    KeepSilent(Keep(h0, p1), p2, r, []);
    forall e | e in h0 && !p1(e) ensures Silent(e, r) {
      KeepMembers(h, NotFlush(), e);
      DroppedIsSilent(t, k, e);
    }
    KeepSilent(h0, p1, r, []);
  }

  /** For each retained bug the fixer finds the same operations in the same order, and sets the same
      flags, on the reduced trace as on the full one, exactly when the full one has no flush of the bug
      range that the stores behind it leave uncovered. */
  lemma VerdictPreserved(t: seq<TraceEvent>, k: nat)
    requires WellFormedTrace(t) && RetainedBug(t, k)
    ensures var f, g := ScanBack(t[..k], t[k].kind.range, []), ScanBack(ReducedHistory(t, k), t[k].kind.range, []);
            SameFinding(g, f) <==> !exists i :: BlockedAt(t[..k], t[k].kind.range, i)
  {
    hide ReducedHistory, ScanBack, FirstOfStacks, Keep, BlockedAt;
    assert t[k] in t && t[k].WellFormed();
    StopIff(t[..k], t[k].kind.range);
    ReducedSameAsFlushless(t, k);
    DropFlushesSame(t[..k], t[k].kind.range, []);
  }

  /** The steps that only drop bugs, irrelevant accesses and repeated fences never change a finding. */
  lemma VerdictPreservedWithFlushes(t: seq<TraceEvent>, k: nat)
    requires WellFormedTrace(t) && RetainedBug(t, k)
    ensures var r, rest := t[k].kind.range, Keep(Keep(t[..k], Retained(t)), RelevantTo(t));
            SameFinding(ScanBack(DropRepeatedFences(rest), r, []), ScanBack(t[..k], r, []))
  {
    hide FirstOfStacks, Keep, DropRepeatedFences, Retained, Relevant, AllBugIntervals, ScanBack, Silent;
    var r, p1, p2, h := t[k].kind.range, Retained(t), RelevantTo(t), t[..k];
    DropFencesSame(Keep(Keep(h, p1), p2), r, []);
    forall e | e in Keep(h, p1) && !p2(e) ensures Silent(e, r) {
      KeepMembers(h, p1, e);
      DroppedIsSilent(t, k, e);
    }
    KeepSilent(Keep(h, p1), p2, r, []);
    forall e | e in h && !p1(e) ensures Silent(e, r) {
      DroppedIsSilent(t, k, e);
    }
    KeepSilent(h, p1, r, []);
  }

  // ----- From the full trace to the repaired execution ---------------------------------------------------------

  /** The execution without its flushes. */
  function WithoutFlushes(steps: seq<Step>, h: seq<TraceEvent>): seq<Step>
    requires |steps| == |h|
  {
    if h == [] then []
    else
      var n := |h| - 1;
      WithoutFlushes(steps[..n], h[..n]) + if h[n].kind.Flush? then [] else [steps[n]]
  }

  lemma {:induction false} FlushlessRecorded(env: Env, steps: seq<Step>, h: seq<TraceEvent>)
    requires Recorded(env, steps, h)
    ensures Recorded(env, WithoutFlushes(steps, h), Keep(h, NotFlush()))
  {
    hide Records;
    if h != [] {
      var n := |h| - 1;
      assert Records(env, steps[n], h[n]);
      assert forall i | 0 <= i < n :: Records(env, steps[..n][i], h[..n][i]) by {
        assert forall i | 0 <= i < n :: steps[..n][i] == steps[i] && h[..n][i] == h[i];
      }
      FlushlessRecorded(env, steps[..n], h[..n]);
      assert NotFlush()(h[n]) <==> !h[n].kind.Flush?;
    }
  }

  lemma {:induction false} FlushlessExecution(env: Env, m: FixMap, steps: seq<Step>, h: seq<TraceEvent>)
    requires Recorded(env, steps, h)
    ensures P.OnlyAdds(Repaired(m, WithoutFlushes(steps, h)), Repaired(m, steps))
  {
    hide P.OnlyAdds, After, Repaired;
    if h == [] {
      P.OnlyAddsRefl(Repaired(m, steps));
    } else {
      var n := |h| - 1;
      var front, s := steps[..n], steps[n];
      assert Records(env, s, h[n]) && steps == front + [s];
      assert Recorded(env, front, h[..n]) by {
        forall i | 0 <= i < n ensures Records(env, front[i], h[..n][i]) {
          assert Records(env, steps[i], h[i]);
        }
      }
      FlushlessExecution(env, m, front, h[..n]);
      var less := WithoutFlushes(front, h[..n]);
      RepairedSnoc(m, front, s);
      if h[n].kind.Flush? {
        assert WithoutFlushes(steps, h) == less + [] == less;
        P.OnlyAddsAppend(Repaired(m, less), Repaired(m, front), s.op);
        NoStoreNothingAfter(m, s);
        assert Repaired(m, steps) == Repaired(m, front) + [s.op];
      } else {
        assert WithoutFlushes(steps, h) == less + [s];
        RepairedSnoc(m, less, s);
        AddsBothEnds(Repaired(m, less), Repaired(m, front), [s.op] + After(m, s));
      }
    }
  }

  lemma NoStoreNothingAfter(m: FixMap, s: Step)
    requires !s.op.Store?
    ensures After(m, s) == []
  {
  }

  lemma RepairedSnoc(m: FixMap, front: seq<Step>, s: Step)
    ensures Repaired(m, front + [s]) == Repaired(m, front) + ([s.op] + After(m, s))
  {
    assert (front + [s])[..|front|] == front;
  }

  lemma {:induction false} AddsBothEnds(a: seq<P.Op>, b: seq<P.Op>, more: seq<P.Op>)
    requires P.OnlyAdds(a, b)
    ensures P.OnlyAdds(a + more, b + more)
  {
    if more == [] {
      assert a + more == a && b + more == b;
    } else {
      var n := |more| - 1;
      AddsBothEnds(a, b, more[..n]);
      P.OnlyAddsAppend(a + more[..n], b + more[..n], more[n]);
      assert a + more == a + more[..n] + [more[n]] && b + more == b + more[..n] + [more[n]];
    }
  }

  /** A fence follows the latest store into the range. */
  ghost predicate FenceSinceStore(h: seq<TraceEvent>, r: AddressInfo) {
    exists i :: 0 <= i < |h| && h[i].kind.Fence? && forall j | i < j < |h| :: !h[j].StoresInto(r)
  }

  lemma {:induction false} FenceSinceStoreKept(h: seq<TraceEvent>, r: AddressInfo)
    requires FenceSinceStore(h, r)
    ensures FenceSinceStore(Keep(h, NotFlush()), r)
  {
    hide TraceEvent.StoresInto;
    var n := |h| - 1;
    var i :| 0 <= i < |h| && h[i].kind.Fence? && forall j | i < j < |h| :: !h[j].StoresInto(r);
    var kept := Keep(h[..n], NotFlush());
    assert NotFlush()(h[n]) <==> !h[n].kind.Flush?;
    if i == n {
      assert Keep(h, NotFlush())[|kept|] == h[n];
    } else {
      assert h[..n][i].kind.Fence? && forall j | i < j < n :: !h[..n][j].StoresInto(r);
      FenceSinceStoreKept(h[..n], r);
      var i' :| 0 <= i' < |kept| && kept[i'].kind.Fence? && forall j | i' < j < |kept| :: !kept[j].StoresInto(r);
      var all := Keep(h, NotFlush());
      assert all[i'].kind.Fence?;
      forall j | i' < j < |all| ensures !all[j].StoresInto(r) {
        assert all[j] == if j < |kept| then kept[j] else h[n];
      }
    }
  }

  /** From the raw trace to the repaired program. Let the fixer work on the reduced trace, and let a
      retained bug be treated in place there. Then in every execution that the full trace recorded,
      once repaired, the range of the bug is persisted where the bug was reported, if the stores cover the
      range and the verdict asks for a fence, or if the program already has one behind the latest store
      into the range. */
  lemma PipelineSound(t: seq<TraceEvent>, k: nat, env: Env, bugs: seq<nat>, n: nat, m': FixMap, steps: seq<Step>)
    requires WellFormedTrace(t) && RetainedBug(t, k)
    requires CallSitesApart(env) && env.trace == Optimized(t) && WellFormedTrace(env.trace)
    requires forall n | 0 <= n < |bugs| :: bugs[n] < |env.trace|
    requires n < |bugs| && bugs[n] == |ReducedHistory(t, k)|
    requires Treated(env, bugs, bugs[n], m')
    requires Recorded(env, steps, t[..k])
    requires var f := ScanBack(ReducedHistory(t, k), t[k].kind.range, []);
             (f.stop.Complete? && f.MissingFence()) || FenceSinceStore(t[..k], t[k].kind.range)
    ensures AllPersisted(Repaired(m', steps), t[k].kind.range)
  {
    hide FirstOfStacks, Keep, Optimized, ReducedHistory, ScanBack, BugsAdds, AddAll, Repaired, P.OnlyAdds, P.Run;
    var h := t[..k];
    var steps0 := WithoutFlushes(steps, h);
    FlushlessRecorded(env, steps, h);
    FlushlessExecution(env, m', steps, h);
    FlushlessPersists(t, k, env, bugs, n, m', steps0);
    P.DoNoHarm(Repaired(m', steps0), Repaired(m', steps));
  }

  /** The same for the execution without its flushes, on the trace without its flushes. */
  lemma FlushlessPersists(t: seq<TraceEvent>, k: nat, env: Env, bugs: seq<nat>, n: nat, m': FixMap, steps0: seq<Step>)
    requires WellFormedTrace(t) && RetainedBug(t, k)
    requires CallSitesApart(env) && env.trace == Optimized(t) && WellFormedTrace(env.trace)
    requires forall n | 0 <= n < |bugs| :: bugs[n] < |env.trace|
    requires n < |bugs| && bugs[n] == |ReducedHistory(t, k)|
    requires Treated(env, bugs, bugs[n], m') && Recorded(env, steps0, Keep(t[..k], NotFlush()))
    requires var f := ScanBack(ReducedHistory(t, k), t[k].kind.range, []);
             (f.stop.Complete? && f.MissingFence()) || FenceSinceStore(t[..k], t[k].kind.range)
    ensures AllPersisted(Repaired(m', steps0), t[k].kind.range)
  {
    hide FirstOfStacks, Keep, Optimized, ReducedHistory, ScanBack, BugsAdds, AddAll, Repaired, FlushedInPlace;
    var h, r := t[..k], t[k].kind.range;
    var h0 := Keep(h, NotFlush());
    ReducedAt(t, k);
    ReducedSameAsFlushless(t, k);
    forall e | e in h0 ensures e.WellFormed() {
      KeepMembers(h, NotFlush(), e);
    }
    assert env.trace[..bugs[n]] == ReducedHistory(t, k) && env.trace[bugs[n]] == t[k];
    var f0 := ScanBack(h0, r, []);
    ScanBackHits(h0, r, []);
    ScanBackFence(h0, r, []);
    TreatedHasHits(env, bugs, n);
    ScanBackHits(ReducedHistory(t, k), r, []);
    assert f0.events == ScanBack(ReducedHistory(t, k), r, []).events && f0.hits != [];
    if FenceSinceStore(h, r) {
      FenceSinceStoreKept(h, r);
      if f0.stop.RanOff? {
        FenceAnywhere(h0, r);
      }
    }
    FoundFlushed(env, bugs, n, m', steps0, h0);
    assert t[k] in t;
    RepairIff(env, m', steps0, h0, r);
    if f0.stop.Complete? && f0.MissingFence() {
      assert FenceDuty in Duties(FixAt(m', steps0[f0.hits[0]].inst));
    } else {
      FencedSinceStore(env, m', steps0, h0, r);
    }
  }

  lemma FenceAnywhere(h: seq<TraceEvent>, r: AddressInfo)
    requires FenceSinceStore(h, r)
    ensures FenceIn(h, 0, |h|)
  {
  }

  lemma FencedSinceStore(env: Env, m: FixMap, steps: seq<Step>, h: seq<TraceEvent>, r: AddressInfo)
    requires Recorded(env, steps, h) && FenceSinceStore(h, r)
    requires !ScanBack(h, r, []).stop.AtFlush? && ScanBack(h, r, []).hits != []
    ensures FencedAfter(m, steps, Latest(ScanBack(h, r, [])))
  {
    ScanBackHits(h, r, []);
    var f := ScanBack(h, r, []);
    var i :| 0 <= i < |h| && h[i].kind.Fence? && forall j | i < j < |h| :: !h[j].StoresInto(r);
    assert f.events[0].StoresInto(r) && h[f.hits[0]] == f.events[0];
    assert Records(env, steps[i], h[i]);
    assert Fences(m, steps, i);
  }

  /** A bug that is treated in place, with flushes, has the location of a store. */
  ghost predicate SharesFix(env: Env, bugs: seq<nat>, m': FixMap, e: TraceEvent)
    requires WellFormedTrace(env.trace) && forall n | 0 <= n < |bugs| :: bugs[n] < |env.trace|
  {
    e.kind.Store? && e.kind.range.IsSingleCacheLine() && exists n, found :: FixedWith(env, bugs, m', e, n, found)
  }

  ghost predicate FixedWith(env: Env, bugs: seq<nat>, m': FixMap, e: TraceEvent, n: int, found: TraceEvent)
    requires WellFormedTrace(env.trace) && forall n | 0 <= n < |bugs| :: bugs[n] < |env.trace|
  {
    && 0 <= n < |bugs| && Treated(env, bugs, bugs[n], m')
    && var f := ScanBack(env.trace[..bugs[n]], env.trace[bugs[n]].kind.range, []);
       f.MissingFlush() && found in f.events && e.callstack != [] && e.callstack[0] == found.callstack[0]
  }

  /** When a bug that reduction has dropped is repaired all the same. Let the stores found for it on the full
      trace be at locations that are fixed for treated bugs. Then in every execution that the full trace
      recorded, once repaired, its range is persisted exactly when a fence follows the latest of them. */
  lemma DroppedBugIff(t: seq<TraceEvent>, k: nat, env: Env, bugs: seq<nat>, m': FixMap, steps: seq<Step>)
    requires WellFormedTrace(t) && k < |t| && t[k].kind.AssertPersisted?
    requires CallSitesApart(env) && WellFormedTrace(env.trace) && forall n | 0 <= n < |bugs| :: bugs[n] < |env.trace|
    requires Recorded(env, steps, t[..k])
    requires var f := ScanBack(t[..k], t[k].kind.range, []);
             !f.stop.AtFlush? && f.hits != [] && forall e | e in f.events :: SharesFix(env, bugs, m', e)
    ensures AllPersisted(Repaired(m', steps), t[k].kind.range)
            <==> FencedAfter(m', steps, Latest(ScanBack(t[..k], t[k].kind.range, [])))
  {
    hide ScanBack, BugsAdds, AddAll, Repaired, FencedAfter, AllPersisted, FlushedInPlace;
    var h, r := t[..k], t[k].kind.range;
    var f := ScanBack(h, r, []);
    ScanBackHits(h, r, []);
    assert t[k] in t;
    forall i | 0 <= i < |f.hits| ensures f.hits[i] < |steps| && FlushedInPlace(m', steps[f.hits[i]]) {
      var e, s := f.events[i], steps[f.hits[i]];
      assert e in f.events && h[f.hits[i]] == e && e in t && Records(env, s, e);
      var n, found :| FixedWith(env, bugs, m', e, n, found);
      LocationFlushed(env, bugs, n, m', found, e, s);
    }
    RepairIff(env, m', steps, h, r);
  }
}
