/**
 Trace events as the fixer reads them (src/BugReports.hpp:59-84, src/BugReports.hpp:181-228) and,
 as a plain recursive function, what the backward scan of a bug should find in a trace.
 */
module Traces {
  import opened Addresses

  /** A source location; -1 is an unknown line. Locations are taken as resolved, so that equality
      of locations is equality. */
  datatype Location = Location(fn: string, file: string, line: int)

  datatype Kind =
    | Store(range: AddressInfo)
    | Flush(range: AddressInfo)
    | Fence
    | AssertPersisted(range: AddressInfo)
    | AssertOrdered(rangeA: AddressInfo, rangeB: AddressInfo)
    | RequiredFlush(range: AddressInfo)

  datatype TraceEvent = TraceEvent(timestamp: nat, kind: Kind, callstack: seq<Location>, isBug: bool)
  {
    predicate IsOperation() {
      kind.Store? || kind.Flush? || kind.Fence?
    }

    /** What a parsed event guarantees: a location on top of its stack, and ranges with bytes in them. */
    predicate WellFormed() {
      && callstack != []
      && (kind.AssertOrdered? ==> kind.rangeA.Valid() && kind.rangeB.Valid())
      && (kind.Store? || kind.Flush? || kind.AssertPersisted? || kind.RequiredFlush? ==> kind.range.Valid())
    }

    predicate StoresInto(r: AddressInfo) {
      kind.Store? && kind.range.Overlaps(r)
    }

    predicate FlushesInto(r: AddressInfo) {
      kind.Flush? && kind.range.Overlaps(r)
    }
  }

  predicate WellFormedTrace(trace: seq<TraceEvent>) {
    forall e | e in trace :: e.WellFormed()
  }

  /** An operation touches a range exactly if some byte of the range is among those it stores or flushes. */
  lemma IntoIff(e: TraceEvent, r: AddressInfo)
    requires e.WellFormed() && r.Valid()
    ensures e.StoresInto(r) <==> e.kind.Store? && exists b :: e.kind.range.Has(b) && r.Has(b)
    ensures e.FlushesInto(r) <==> e.kind.Flush? && exists b :: e.kind.range.Has(b) && r.Has(b)
  {
    hide AddressInfo.Overlaps;
    if e.kind.Store? || e.kind.Flush? {
      OverlapsIff(e.kind.range, r);
    }
  }

  // ----- The reference scan -------------------------------------------------------------------

  ghost predicate InAny(ranges: seq<AddressInfo>, b: int) {
    exists k :: 0 <= k < |ranges| && ranges[k].Has(b)
  }

  /** The union of the ranges has every byte of `r`. */
  ghost predicate CoveredBy(ranges: seq<AddressInfo>, r: AddressInfo) {
    forall b | r.Has(b) :: InAny(ranges, b)
  }

  datatype Stop = Complete | AtFlush | RanOff

  /** What the scan finds: the indices of the operations to fix and their events, latest first, why
      it stopped, and whether it passed a fence. */
  datatype Finding = Finding(hits: seq<nat>, events: seq<TraceEvent>, stop: Stop, fence: bool)
  {
    function Prepend(hits': seq<nat>, events': seq<TraceEvent>, fence': bool): Finding {
      Finding(hits' + hits, events' + events, stop, fence' || fence)
    }

    predicate MissingFlush() {
      stop.Complete? || fence
    }

    predicate MissingFence() {
      !fence
    }
  }

  /** Going back over the history of a bug in `r`, collect the stores into `r` until together they
      cover it, or up to the first flush of `r`. */
  ghost function ScanBack(hist: seq<TraceEvent>, r: AddressInfo, collected: seq<AddressInfo>): Finding
    decreases |hist|
  {
    if hist == [] then Finding([], [], RanOff, false)
    else
      var n, e := |hist| - 1, hist[|hist| - 1];
      if e.StoresInto(r) then
        var more := collected + [e.kind.range];
        if CoveredBy(more, r) then Finding([n], [e], Complete, false)
        else ScanBack(hist[..n], r, more).Prepend([n], [e], false)
      else if e.FlushesInto(r) then Finding([n], [e], AtFlush, false)
      else ScanBack(hist[..n], r, collected).Prepend([], [], e.kind.Fence?)
  }

  // ----- What the reference scan finds, in terms of the history ---------------------------------

  /** The ranges of the stores among some events. */
  function StoredRanges(events: seq<TraceEvent>): seq<AddressInfo> {
    if events == [] then []
    else (if events[0].kind.Store? then [events[0].kind.range] else []) + StoredRanges(events[1..])
  }

  /** The first index the scan looked at: where it stopped, or 0. */
  function Lowest(f: Finding): nat {
    if f.stop.RanOff? || f.hits == [] then 0 else f.hits[|f.hits| - 1]
  }

  ghost predicate FenceIn(hist: seq<TraceEvent>, lo: int, hi: int) {
    exists i :: 0 <= i < |hist| && lo <= i < hi && hist[i].kind.Fence?
  }

  /** The hits are indices of the history in descending order, with their events. */
  ghost predicate HitsInOrder(hist: seq<TraceEvent>, f: Finding) {
    && |f.hits| == |f.events|
    && (forall k | 0 <= k < |f.hits| :: f.hits[k] < |hist| && f.events[k] == hist[f.hits[k]])
    && (forall j, k | 0 <= j < k < |f.hits| :: f.hits[k] < f.hits[j])
  }

  /** The hits are exactly the stores into `r` since the scan stopped, and the flush it stopped at. */
  ghost predicate HitsExact(hist: seq<TraceEvent>, r: AddressInfo, f: Finding) {
    && (forall i | Lowest(f) <= i < |hist| :: hist[i].StoresInto(r) ==> i in f.hits)
    && (forall i | Lowest(f) <= i < |hist| && (f.stop.AtFlush? ==> i != Lowest(f)) :: !hist[i].FlushesInto(r))
    && (forall k | 0 <= k < |f.events| ::
          if f.stop.AtFlush? && k == |f.events| - 1 then f.events[k].FlushesInto(r) else f.events[k].StoresInto(r))
    && (!f.stop.RanOff? ==> f.hits != [])
  }

  /** The scan stops as soon as, and only when, the stores since then cover the range. */
  ghost predicate StopsInTime(r: AddressInfo, collected: seq<AddressInfo>, f: Finding) {
    if f.stop.Complete? && f.events != [] then
      && CoveredBy(collected + StoredRanges(f.events), r)
      && !CoveredBy(collected + StoredRanges(f.events[..|f.events| - 1]), r)
    else !CoveredBy(collected + StoredRanges(f.events), r)
  }

  lemma HitsPrependInOrder(rest: seq<TraceEvent>, e: TraceEvent, g: Finding)
    requires HitsInOrder(rest, g)
    ensures HitsInOrder(rest + [e], g.Prepend([|rest|], [e], false))
  {
    var f := g.Prepend([|rest|], [e], false);
    assert forall k | 0 < k < |f.hits| :: f.hits[k] == g.hits[k - 1] && f.events[k] == g.events[k - 1];
  }

  lemma LowestPrepend(rest: seq<TraceEvent>, e: TraceEvent, r: AddressInfo, g: Finding)
    requires HitsInOrder(rest, g) && (!g.stop.RanOff? ==> g.hits != [])
    ensures Lowest(g.Prepend([|rest|], [e], false)) == Lowest(g) <= |rest|
  {
  }

  lemma HitsPrepend(rest: seq<TraceEvent>, e: TraceEvent, r: AddressInfo, g: Finding)
    requires HitsInOrder(rest, g) && HitsExact(rest, r, g)
    requires e.StoresInto(r)
    ensures HitsExact(rest + [e], r, g.Prepend([|rest|], [e], false))
  {
    var hist, f := rest + [e], g.Prepend([|rest|], [e], false);
    LowestPrepend(rest, e, r, g);
    forall i | Lowest(f) <= i < |hist|
      ensures hist[i].StoresInto(r) ==> i in f.hits
      ensures (f.stop.AtFlush? ==> i != Lowest(f)) ==> !hist[i].FlushesInto(r)
    {
      if i < |rest| {
        assert hist[i] == rest[i];
        assert rest[i].StoresInto(r) ==> i in g.hits;
      } else {
        assert f.hits[0] == i;
      }
    }
    forall k | 0 <= k < |f.events|
      ensures if f.stop.AtFlush? && k == |f.events| - 1 then f.events[k].FlushesInto(r) else f.events[k].StoresInto(r)
    {
      if 0 < k {
        assert f.events[k] == g.events[k - 1];
      }
    }
  }

  lemma HitsSkip(rest: seq<TraceEvent>, e: TraceEvent, r: AddressInfo, g: Finding, fence: bool)
    requires HitsInOrder(rest, g) && HitsExact(rest, r, g)
    requires !e.StoresInto(r) && !e.FlushesInto(r)
    ensures var f := g.Prepend([], [], fence);
            HitsInOrder(rest + [e], f) && HitsExact(rest + [e], r, f) && Lowest(f) == Lowest(g) <= |rest|
  {
    hide HitsInOrder, HitsExact, TraceEvent.StoresInto, TraceEvent.FlushesInto;
    var f := g.Prepend([], [], fence);
    assert f == Finding(g.hits, g.events, g.stop, fence || g.fence);
    HitsLater(rest, e, r, g, fence || g.fence);
  }

  lemma HitsLater(rest: seq<TraceEvent>, e: TraceEvent, r: AddressInfo, g: Finding, fence: bool)
    requires HitsInOrder(rest, g) && HitsExact(rest, r, g)
    requires !e.StoresInto(r) && !e.FlushesInto(r)
    ensures var f := Finding(g.hits, g.events, g.stop, fence);
            HitsInOrder(rest + [e], f) && HitsExact(rest + [e], r, f) && Lowest(f) == Lowest(g) <= |rest|
  {
    hide TraceEvent.StoresInto, TraceEvent.FlushesInto;
    var hist := rest + [e];
    forall i | 0 <= i < |hist| ensures hist[i] == if i < |rest| then rest[i] else e {
    }
  }

  lemma {:induction false} ScanBackHits(hist: seq<TraceEvent>, r: AddressInfo, collected: seq<AddressInfo>)
    ensures HitsInOrder(hist, ScanBack(hist, r, collected))
    ensures HitsExact(hist, r, ScanBack(hist, r, collected))
    decreases |hist|
  {
    if hist != [] {
      var n, e := |hist| - 1, hist[|hist| - 1];
      assert hist == hist[..n] + [e];
      var f := ScanBack(hist, r, collected);
      if e.StoresInto(r) {
        var more := collected + [e.kind.range];
        if !CoveredBy(more, r) {
          ScanBackHits(hist[..n], r, more);
          HitsPrependInOrder(hist[..n], e, ScanBack(hist[..n], r, more));
          HitsPrepend(hist[..n], e, r, ScanBack(hist[..n], r, more));
        }
      } else if !e.FlushesInto(r) {
        ScanBackHits(hist[..n], r, collected);
        HitsSkip(hist[..n], e, r, ScanBack(hist[..n], r, collected), e.kind.Fence?);
      }
    }
  }

  lemma FenceInExtend(rest: seq<TraceEvent>, e: TraceEvent, lo: nat)
    requires lo <= |rest|
    ensures FenceIn(rest + [e], lo, |rest| + 1) <==> FenceIn(rest, lo, |rest|) || e.kind.Fence?
  {
    var hist := rest + [e];
    assert hist[|rest|] == e;
    assert forall i | 0 <= i < |rest| :: hist[i] == rest[i];
  }

  /** The scan passes a fence exactly when there is one since the event it stopped at. */
  lemma {:induction false} ScanBackFence(hist: seq<TraceEvent>, r: AddressInfo, collected: seq<AddressInfo>)
    ensures ScanBack(hist, r, collected).fence <==> FenceIn(hist, Lowest(ScanBack(hist, r, collected)), |hist|)
    decreases |hist|
  {
    if hist != [] {
      var n, e := |hist| - 1, hist[|hist| - 1];
      assert hist == hist[..n] + [e];
      if e.StoresInto(r) {
        var more := collected + [e.kind.range];
        if !CoveredBy(more, r) {
          ScanBackFence(hist[..n], r, more);
          var g := ScanBack(hist[..n], r, more);
          ScanBackHits(hist[..n], r, more);
          LowestPrepend(hist[..n], e, r, g);
          FenceInExtend(hist[..n], e, Lowest(g));
        }
      } else if !e.FlushesInto(r) {
        ScanBackFence(hist[..n], r, collected);
        var g := ScanBack(hist[..n], r, collected);
        ScanBackHits(hist[..n], r, collected);
        HitsSkip(hist[..n], e, r, g, e.kind.Fence?);
        FenceInExtend(hist[..n], e, Lowest(g));
      }
    }
  }

  /** The scan stops at the latest point since which the stores cover the range. */
  lemma {:induction false} ScanBackStops(hist: seq<TraceEvent>, r: AddressInfo, collected: seq<AddressInfo>)
    requires !CoveredBy(collected, r)
    ensures StopsInTime(r, collected, ScanBack(hist, r, collected))
    decreases |hist|
  {
    assert collected + [] == collected;
    if hist != [] {
      var n, e := |hist| - 1, hist[|hist| - 1];
      if e.StoresInto(r) {
        StopsPrepend(hist[..n], e, r, collected);
        if !CoveredBy(collected + [e.kind.range], r) {
          ScanBackStops(hist[..n], r, collected + [e.kind.range]);
        }
      } else if e.FlushesInto(r) {
        assert StoredRanges([e]) == [] + StoredRanges([e][1..]) == [];
      } else {
        ScanBackStops(hist[..n], r, collected);
        var g := ScanBack(hist[..n], r, collected);
        assert ScanBack(hist, r, collected).events == [] + g.events == g.events;
      }
    }
  }

  lemma StoredRangesCons(e: TraceEvent, events: seq<TraceEvent>, collected: seq<AddressInfo>)
    requires e.kind.Store?
    ensures collected + StoredRanges([e] + events) == (collected + [e.kind.range]) + StoredRanges(events)
  {
    assert ([e] + events)[1..] == events;
  }

  lemma StopsPrepend(rest: seq<TraceEvent>, e: TraceEvent, r: AddressInfo, collected: seq<AddressInfo>)
    requires e.StoresInto(r) && !CoveredBy(collected, r)
    ensures var more := collected + [e.kind.range];
            CoveredBy(more, r) || StopsInTime(r, more, ScanBack(rest, r, more))
            ==> StopsInTime(r, collected, ScanBack(rest + [e], r, collected))
  {
    var more := collected + [e.kind.range];
    assert (rest + [e])[..|rest|] == rest;
    if CoveredBy(more, r) {
      StoredRangesCons(e, [], collected);
      assert [e] + [] == [e] && more + [] == more && [e][..0] == [] && collected + [] == collected;
    } else if StopsInTime(r, more, ScanBack(rest, r, more)) {
      ScanBackHits(rest, r, more);
      StopsInTimePrepend(|rest|, e, r, collected, ScanBack(rest, r, more));
    }
  }

  lemma StopsInTimePrepend(n: nat, e: TraceEvent, r: AddressInfo, collected: seq<AddressInfo>, g: Finding)
    requires e.kind.Store? && (g.stop.Complete? ==> g.events != [])
    requires StopsInTime(r, collected + [e.kind.range], g)
    ensures StopsInTime(r, collected, g.Prepend([n], [e], false))
  {
    var f := g.Prepend([n], [e], false);
    StoredRangesCons(e, g.events, collected);
    if g.stop.Complete? {
      StoredRangesCons(e, g.events[..|g.events| - 1], collected);
      assert f.events[..|f.events| - 1] == [e] + g.events[..|g.events| - 1];
    }
  }

  // ----- The same, as conditions on the history -----------------------------------------------------

  lemma {:induction false} RangesOfEvents(events: seq<TraceEvent>, b: int)
    requires InAny(StoredRanges(events), b)
    ensures exists k :: 0 <= k < |events| && events[k].kind.Store? && events[k].kind.range.Has(b)
  {
    if events != [] {
      var tail := StoredRanges(events[1..]);
      var k :| 0 <= k < |StoredRanges(events)| && StoredRanges(events)[k].Has(b);
      if events[0].kind.Store? {
        if k == 0 {
          assert events[0].kind.range.Has(b);
        } else {
          assert tail[k - 1].Has(b);
          RangesOfEvents(events[1..], b);
        }
      } else {
        assert StoredRanges(events) == tail;
        RangesOfEvents(events[1..], b);
      }
    }
  }

  lemma {:induction false} EventsOfRanges(events: seq<TraceEvent>, k: nat, b: int)
    requires k < |events| && events[k].kind.Store? && events[k].kind.range.Has(b)
    ensures InAny(StoredRanges(events), b)
  {
    var tail := StoredRanges(events[1..]);
    if k == 0 {
      assert StoredRanges(events)[0].Has(b);
    } else {
      EventsOfRanges(events[1..], k - 1, b);
      var j :| 0 <= j < |tail| && tail[j].Has(b);
      assert StoredRanges(events)[if events[0].kind.Store? then j + 1 else j].Has(b);
    }
  }

  /** Byte `b` is stored, by a store into `r`, at or after index `lo`. */
  ghost predicate StoredSince(hist: seq<TraceEvent>, r: AddressInfo, lo: int, b: int) {
    exists j :: 0 <= j < |hist| && lo <= j && hist[j].StoresInto(r) && hist[j].kind.range.Has(b)
  }

  /** The stores into `r` since index `lo` have all of its bytes. */
  ghost predicate CoveredSince(hist: seq<TraceEvent>, r: AddressInfo, lo: int) {
    forall b | r.Has(b) :: StoredSince(hist, r, lo, b)
  }

  ghost predicate NoFlushSince(hist: seq<TraceEvent>, r: AddressInfo, lo: int) {
    forall j | 0 <= j < |hist| && lo <= j :: !hist[j].FlushesInto(r)
  }

  /** Event `i` is the last flush into `r`, and the stores behind it do not cover `r`. */
  ghost predicate BlockedAt(hist: seq<TraceEvent>, r: AddressInfo, i: int) {
    0 <= i < |hist| && hist[i].FlushesInto(r) && NoFlushSince(hist, r, i + 1) && !CoveredSince(hist, r, i + 1)
  }

  /** The stores since some event cover `r`, and no flush into `r` comes after it. */
  ghost predicate CoveredUnflushed(hist: seq<TraceEvent>, r: AddressInfo) {
    exists lo :: 0 <= lo <= |hist| && NoFlushSince(hist, r, lo) && CoveredSince(hist, r, lo)
  }

  /** The stores collected are those since the scan stopped. */
  lemma CollectedSince(hist: seq<TraceEvent>, r: AddressInfo, b: int)
    ensures var f := ScanBack(hist, r, []);
            InAny(StoredRanges(f.events), b) <==> StoredSince(hist, r, Lowest(f), b)
  {
    hide HitsExact;
    var f := ScanBack(hist, r, []);
    ScanBackHits(hist, r, []);
    if InAny(StoredRanges(f.events), b) {
      RangesOfEvents(f.events, b);
      var k :| 0 <= k < |f.events| && f.events[k].kind.Store? && f.events[k].kind.range.Has(b);
      HitIsStore(hist, r, f, k);
      assert hist[f.hits[k]].StoresInto(r);
    }
    if StoredSince(hist, r, Lowest(f), b) {
      var j :| 0 <= j < |hist| && Lowest(f) <= j && hist[j].StoresInto(r) && hist[j].kind.range.Has(b);
      StoreIsHit(hist, r, f, j);
      var k :| 0 <= k < |f.hits| && f.hits[k] == j;
      EventsOfRanges(f.events, k, b);
    }
  }

  lemma HitIsStore(hist: seq<TraceEvent>, r: AddressInfo, f: Finding, k: nat)
    requires HitsInOrder(hist, f) && HitsExact(hist, r, f) && k < |f.events| && f.events[k].kind.Store?
    ensures f.events[k].StoresInto(r) && Lowest(f) <= f.hits[k]
  {
  }

  lemma StoreIsHit(hist: seq<TraceEvent>, r: AddressInfo, f: Finding, j: nat)
    requires HitsInOrder(hist, f) && HitsExact(hist, r, f) && Lowest(f) <= j < |hist| && hist[j].StoresInto(r)
    ensures j in f.hits && hist[j].kind.Store?
  {
  }

  lemma NothingCovers(r: AddressInfo)
    requires r.Valid()
    ensures !CoveredBy([], r)
  {
    assert r.Has(r.address) && !InAny([], r.address);
  }

  lemma SinceLater(hist: seq<TraceEvent>, r: AddressInfo, lo: int, hi: int)
    requires lo <= hi && CoveredSince(hist, r, hi)
    ensures CoveredSince(hist, r, lo)
  {
    hide TraceEvent.StoresInto;
    forall b | r.Has(b) ensures StoredSince(hist, r, lo, b) {
      assert StoredSince(hist, r, hi, b);
    }
  }

  lemma CoveredIsSince(hist: seq<TraceEvent>, r: AddressInfo)
    ensures var f := ScanBack(hist, r, []);
            CoveredBy(StoredRanges(f.events), r) <==> CoveredSince(hist, r, Lowest(f))
  {
    hide ScanBack, StoredRanges, StoredSince, InAny;
    forall b ensures InAny(StoredRanges(ScanBack(hist, r, []).events), b)
      <==> StoredSince(hist, r, Lowest(ScanBack(hist, r, [])), b) {
      CollectedSince(hist, r, b);
    }
  }

  /** What the history looks like where the scan stopped. */
  lemma StopFacts(hist: seq<TraceEvent>, r: AddressInfo)
    requires r.Valid()
    ensures var f := ScanBack(hist, r, []);
            && Lowest(f) <= |hist|
            && (f.stop.AtFlush? ==> BlockedAt(hist, r, Lowest(f)))
            && (!f.stop.AtFlush? ==> NoFlushSince(hist, r, Lowest(f)))
            && (f.stop.Complete? ==> CoveredSince(hist, r, Lowest(f)))
            && (f.stop.RanOff? ==> Lowest(f) == 0 && !CoveredSince(hist, r, 0))
  {
    hide ScanBack, StoredSince, CoveredBy, StoredRanges;
    var f := ScanBack(hist, r, []);
    NothingCovers(r);
    ScanBackHits(hist, r, []);
    ScanBackStops(hist, r, []);
    assert [] + StoredRanges(f.events) == StoredRanges(f.events);
    CoveredIsSince(hist, r);
    if f.stop.AtFlush? {
      assert hist[Lowest(f)].FlushesInto(r);
      if CoveredSince(hist, r, Lowest(f) + 1) {
        SinceLater(hist, r, Lowest(f), Lowest(f) + 1);
      }
    }
  }

  /** Why the scan stops, from the history alone: it stops at the last flush of the range if the stores
      behind that do not cover the range, it completes if stores cover the range with no flush after
      them, and otherwise it runs off. */
  lemma StopIff(hist: seq<TraceEvent>, r: AddressInfo)
    requires r.Valid()
    ensures var f := ScanBack(hist, r, []);
            && (forall i :: f.stop.AtFlush? && i == Lowest(f) <==> BlockedAt(hist, r, i))
            && (f.stop.AtFlush? <==> exists i :: BlockedAt(hist, r, i))
            && (f.stop.Complete? <==> CoveredUnflushed(hist, r))
  {
    hide ScanBack, CoveredSince, TraceEvent.FlushesInto;
    var f := ScanBack(hist, r, []);
    StopFacts(hist, r);
    forall i | BlockedAt(hist, r, i) ensures f.stop.AtFlush? && i == Lowest(f) {
      if f.stop.Complete? {
        assert i < Lowest(f);
        SinceLater(hist, r, i + 1, Lowest(f));
        assert false;
      }
    }
    if CoveredUnflushed(hist, r) {
      var lo :| 0 <= lo <= |hist| && NoFlushSince(hist, r, lo) && CoveredSince(hist, r, lo);
      if f.stop.AtFlush? {
        assert Lowest(f) < lo;
        SinceLater(hist, r, Lowest(f) + 1, lo);
      } else if f.stop.RanOff? {
        SinceLater(hist, r, 0, lo);
      }
    }
  }

  /** Nothing is found exactly when no event accesses the range. */
  lemma NothingFoundIff(hist: seq<TraceEvent>, r: AddressInfo)
    ensures ScanBack(hist, r, []).hits == []
            <==> forall i | 0 <= i < |hist| :: !hist[i].StoresInto(r) && !hist[i].FlushesInto(r)
  {
    hide ScanBack, TraceEvent.StoresInto, TraceEvent.FlushesInto;
    var f := ScanBack(hist, r, []);
    ScanBackHits(hist, r, []);
    if f.hits != [] {
      assert f.events[0] == hist[f.hits[0]];
      assert f.events[0].StoresInto(r) || f.events[0].FlushesInto(r);
    }
  }
}
