/**
 The backward scan of src/BugFixer.cpp:144-234, which decides what a durability bug is missing and
 which operations have to be fixed.
 */
module Scan {
  import opened Addresses
  import opened Traces

  /** `ScanFails` is a failed `assert` of the scan, which ends the fixer. */
  datatype ScanResult =
    | ScanFails
    | Verdict(opIndices: seq<nat>, missingFlush: bool, missingFence: bool)

  /** The verdict that a finding leads to. */
  function Judge(f: Finding): ScanResult {
    if f.hits == [] || |f.events| != |f.hits| then ScanFails
    else
      var last := f.events[|f.events| - 1];
      if f.stop.AtFlush? && (f.fence || !last.kind.Flush? || !last.kind.range.IsSingleCacheLine())
      then ScanFails
      else Verdict(f.hits, f.MissingFlush(), f.MissingFence())
  }

  /** When the scan fails, from the history alone: if no store or flush accesses the range, or if the last
      flush of the range, not covered by stores behind it, has a fence behind it or is wider than a line. */
  lemma ScanFailsIff(hist: seq<TraceEvent>, r: AddressInfo)
    requires r.Valid()
    ensures Judge(ScanBack(hist, r, [])).ScanFails? <==>
              || (forall i | 0 <= i < |hist| :: !hist[i].StoresInto(r) && !hist[i].FlushesInto(r))
              || exists i ::
                   BlockedAt(hist, r, i) && (FenceIn(hist, i, |hist|) || !hist[i].kind.range.IsSingleCacheLine())
  {
    hide ScanBack, CoveredSince, TraceEvent.StoresInto, BlockedAt, FenceIn, AddressInfo.IsSingleCacheLine;
    var f := ScanBack(hist, r, []);
    NothingFoundIff(hist, r);
    StopIff(hist, r);
    ScanBackHits(hist, r, []);
    ScanBackFence(hist, r, []);
    if f.stop.AtFlush? {
      assert BlockedAt(hist, r, Lowest(f));
      assert f.events[|f.events| - 1] == hist[Lowest(f)];
    }
  }

  /** What the verdict asks for, from the history alone. At a flush a fence is missing and nothing else. Otherwise a
      flush is missing if the stores since some event cover the range with no flush behind it, or if there is a fence;
      and a fence is missing unless one follows where the scan stopped. */
  lemma VerdictIff(hist: seq<TraceEvent>, r: AddressInfo)
    requires r.Valid() && Judge(ScanBack(hist, r, [])).Verdict?
    ensures var v, f := Judge(ScanBack(hist, r, [])), ScanBack(hist, r, []);
            && v.opIndices == f.hits
            && (v.missingFence <==> !FenceIn(hist, Lowest(f), |hist|))
            && (v.missingFlush <==> CoveredUnflushed(hist, r) || FenceIn(hist, Lowest(f), |hist|))
            && ((exists i :: BlockedAt(hist, r, i)) ==> v.missingFence && !v.missingFlush)
  {
    hide ScanBack, CoveredUnflushed, BlockedAt, FenceIn, AddressInfo.IsSingleCacheLine;
    StopIff(hist, r);
    ScanBackHits(hist, r, []);
    ScanBackFence(hist, r, []);
  }

  // ----- The accumulator ----------------------------------------------------------------------

  /** The bytes of the running range and of the ranges set aside are those of the stores collected
      so far, and the running range holds the latest of these stores. */
  ghost predicate Accumulated(acc: AddressInfo, unadded: seq<AddressInfo>, collected: seq<AddressInfo>) {
    && (forall u | u in unadded :: u.Valid())
    && (forall c | c in collected :: c.Valid())
    && (forall b :: acc.Has(b) || InAny(unadded, b) <==> InAny(collected, b))
    && if collected == [] then acc == NO_BYTES
       else acc.Valid() && forall b | collected[0].Has(b) :: acc.Has(b)
  }

  /** No range that was set aside can be merged any more. */
  predicate Settled(acc: AddressInfo, unadded: seq<AddressInfo>) {
    forall u | u in unadded :: !acc.CanAdd(u)
  }

  lemma NothingAccumulated()
    ensures Accumulated(NO_BYTES, [], []) && Settled(NO_BYTES, [])
  {
  }

  /** The running range is the longest run of collected bytes around the latest store: the bytes
      before and after it were not stored. */
  lemma AccumulatorMaximal(acc: AddressInfo, unadded: seq<AddressInfo>, collected: seq<AddressInfo>)
    requires Accumulated(acc, unadded, collected) && Settled(acc, unadded) && collected != []
    ensures !InAny(collected, acc.address - 1) && !InAny(collected, acc.address + acc.length)
    ensures forall b | acc.Has(b) :: InAny(collected, b)
  {
    forall b | b == acc.address - 1 || b == acc.address + acc.length
      ensures !InAny(unadded, b)
    {
      if InAny(unadded, b) {
        var k :| 0 <= k < |unadded| && unadded[k].Has(b);
        var u := unadded[k];
        EndExact(acc);
        EndExact(u);
        assert acc.CanAdd(u);
      }
    }
  }

  /** The test on the running range alone is complete: it succeeds exactly when the stores collected
      so far cover the bug range between them. */
  lemma AccumulatorComplete(acc: AddressInfo, unadded: seq<AddressInfo>, collected: seq<AddressInfo>, r: AddressInfo)
    requires Accumulated(acc, unadded, collected) && Settled(acc, unadded)
    requires r.Valid() && collected != [] && collected[0].Overlaps(r)
    ensures acc.Contains(r) <==> CoveredBy(collected, r)
  {
    AccumulatorMaximal(acc, unadded, collected);
    ContainsIff(acc, r);
    assert collected[0] in collected;
    OverlapsIff(collected[0], r);
    EndExact(acc);
    EndExact(r);
  }

  lemma InAnyAppend(ranges: seq<AddressInfo>, r: AddressInfo, b: int)
    ensures InAny(ranges + [r], b) <==> InAny(ranges, b) || r.Has(b)
  {
    var more := ranges + [r];
    assert more[|ranges|] == r;
    assert forall k | 0 <= k < |ranges| :: more[k] == ranges[k];
  }

  lemma InAnyRemove(ranges: seq<AddressInfo>, k: nat, b: int)
    requires k < |ranges|
    ensures InAny(ranges, b) <==> InAny(ranges[..k] + ranges[k + 1..], b) || ranges[k].Has(b)
  {
    var rest := ranges[..k] + ranges[k + 1..];
    if InAny(ranges, b) {
      var i :| 0 <= i < |ranges| && ranges[i].Has(b);
      assert i < k ==> rest[i] == ranges[i];
      assert i > k ==> rest[i - 1] == ranges[i];
    }
    if InAny(rest, b) {
      var i :| 0 <= i < |rest| && rest[i].Has(b);
      assert rest[i] == if i < k then ranges[i] else ranges[i + 1];
    }
  }

  /** Merge one more store, then retry the ranges set aside until none of them fits. */
  method Accumulate(acc: Accumulator, unadded: seq<AddressInfo>, addr: AddressInfo, ghost collected: seq<AddressInfo>)
    returns (left: seq<AddressInfo>)
    requires Accumulated(acc.Value(), unadded, collected) && Settled(acc.Value(), unadded)
    requires addr.Valid()
    modifies acc
    ensures Accumulated(acc.Value(), left, collected + [addr]) && Settled(acc.Value(), left)
  {
    ghost var more := collected + [addr];
    forall b ensures InAny(more, b) <==> InAny(collected, b) || addr.Has(b) {
      InAnyAppend(collected, addr, b);
    }
    if acc.Value().CanAdd(addr) {
      left := unadded;
      acc.Add(addr);
    } else {
      left := unadded + [addr];
      forall b ensures InAny(left, b) <==> InAny(unadded, b) || addr.Has(b) {
        InAnyAppend(unadded, addr, b);
      }
    }

    while left != []
      invariant Accumulated(acc.Value(), left, more)
      decreases |left|
    {
      var added := false;
      var u := 0;
      while u < |left|
        invariant u <= |left|
        invariant forall k | 0 <= k < u :: !acc.Value().CanAdd(left[k])
      {
        if acc.Value().CanAdd(left[u]) {
          added := true;
          break;
        }
        u := u + 1;
      }
      if !added {
        break;
      }
      forall b
        ensures InAny(left, b) <==> InAny(left[..u] + left[u + 1..], b) || left[u].Has(b)
      {
        InAnyRemove(left, u, b);
      }
      acc.Add(left[u]);
      left := left[..u] + left[u + 1..];
    }
  }

  // ----- The scan -----------------------------------------------------------------------------

  /** One step of the reference scan, behind what was already found. */
  lemma ScanBackUnfold(trace: seq<TraceEvent>, i: nat, r: AddressInfo, collected: seq<AddressInfo>,
                       hits: seq<nat>, events: seq<TraceEvent>, fence: bool)
    requires i < |trace|
    ensures var e, f := trace[i], ScanBack(trace[..i + 1], r, collected).Prepend(hits, events, fence);
            if e.StoresInto(r) then
              var more := collected + [e.kind.range];
              f == if CoveredBy(more, r) then Finding(hits + [i], events + [e], Complete, fence)
                   else ScanBack(trace[..i], r, more).Prepend(hits + [i], events + [e], fence)
            else if e.FlushesInto(r) then f == Finding(hits + [i], events + [e], AtFlush, fence)
            else f == ScanBack(trace[..i], r, collected).Prepend(hits, events, fence || e.kind.Fence?)
  {
    var e := trace[i];
    assert trace[..i + 1][..i] == trace[..i];
    if e.StoresInto(r) {
      var f := ScanBack(trace[..i], r, collected + [e.kind.range]);
      assert hits + ([i] + f.hits) == (hits + [i]) + f.hits;
      assert events + ([e] + f.events) == (events + [e]) + f.events;
    } else if !e.FlushesInto(r) {
      var f := ScanBack(trace[..i], r, collected);
      assert hits + ([] + f.hits) == hits + f.hits;
      assert events + ([] + f.events) == events + f.events;
    }
  }

  /** Collect one more store that overlaps the bug range, and test for the whole range. */
  method Collect(acc: Accumulator, unadded: seq<AddressInfo>, addr: AddressInfo, bugAddr: AddressInfo,
                 ghost collected: seq<AddressInfo>)
    returns (left: seq<AddressInfo>, complete: bool)
    requires Accumulated(acc.Value(), unadded, collected) && Settled(acc.Value(), unadded)
    requires addr.Valid() && bugAddr.Valid()
    requires (collected + [addr])[0].Overlaps(bugAddr)
    modifies acc
    ensures Accumulated(acc.Value(), left, collected + [addr]) && Settled(acc.Value(), left)
    ensures complete <==> CoveredBy(collected + [addr], bugAddr)
  {
    left := Accumulate(acc, unadded, addr, collected);
    AccumulatorComplete(acc.Value(), left, collected + [addr], bugAddr);
    complete := acc.Value().Contains(bugAddr);
  }

  lemma ScanBackOfNothing(r: AddressInfo, collected: seq<AddressInfo>)
    ensures ScanBack([], r, collected) == Finding([], [], RanOff, false)
  {
  }

  /** The scan, which keeps one running range and a list of ranges set aside, returns what the
      reference scan over unions of bytes calls for. */
  method ScanBackwards(trace: seq<TraceEvent>, bugIndex: nat, bugAddr: AddressInfo) returns (result: ScanResult)
    requires bugIndex <= |trace| && WellFormedTrace(trace) && bugAddr.Valid()
    ensures result == Judge(ScanBack(trace[..bugIndex], bugAddr, []))
  {
    hide Accumulated, Settled, CoveredBy, ScanBack;
    var missingFlush, missingFence := false, true;
    var opIndices: seq<nat> := [];
    var addrInfo := new Accumulator();
    var unadded: seq<AddressInfo> := [];
    ghost var collected: seq<AddressInfo>, events: seq<TraceEvent> := [], [];
    ghost var finding := ScanBack(trace[..bugIndex], bugAddr, []);
    NothingAccumulated();

    var i := bugIndex - 1;
    while i >= 0
      invariant -1 <= i < bugIndex
      invariant fresh(addrInfo)
      invariant Accumulated(addrInfo.Value(), unadded, collected) && Settled(addrInfo.Value(), unadded)
      invariant collected != [] ==> collected[0].Overlaps(bugAddr)
      invariant |opIndices| == |events|
      invariant missingFlush == !missingFence
      invariant finding == ScanBack(trace[..i + 1], bugAddr, collected).Prepend(opIndices, events, !missingFence)
    {
      var event := trace[i];
      assert event in trace;
      ScanBackUnfold(trace, i, bugAddr, collected, opIndices, events, !missingFence);
      if event.IsOperation() {
        if event.kind.Fence? {
          missingFence, missingFlush := false, true;
        } else if event.StoresInto(bugAddr) {
          var complete;
          unadded, complete := Collect(addrInfo, unadded, event.kind.range, bugAddr, collected);
          collected, events := collected + [event.kind.range], events + [event];
          opIndices := opIndices + [i];
          if complete {
            return Verdict(opIndices, true, missingFence);
          }
        } else if event.FlushesInto(bugAddr) {
          if !event.kind.range.IsSingleCacheLine() || !missingFence {
            return ScanFails;
          }
          return Verdict(opIndices + [i], missingFlush, missingFence);
        }
      }
      i := i - 1;
    }
    ScanBackOfNothing(bugAddr, collected);
    if opIndices == [] {
      return ScanFails;
    }
    return Verdict(opIndices, missingFlush, missingFence);
  }
}
