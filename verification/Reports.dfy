/**
 Reduction of a bug report before it is handed to the fixer (tools/Reports.py:139-333).
 */
module Reports {
  import opened Addresses
  import opened Traces

  predicate IsBug(e: TraceEvent) {
    e.kind.AssertPersisted? || e.kind.AssertOrdered? || e.kind.RequiredFlush?
  }

  /** The trace has bugs and operations, and nothing else. */
  lemma BugOrOperation(e: TraceEvent)
    ensures IsBug(e) <==> !e.IsOperation()
  {
  }

  predicate IsAccess(e: TraceEvent) {
    e.kind.Store? || e.kind.Flush?
  }

  /** The events of `trace` that satisfy `p`, in order. */
  function Keep(trace: seq<TraceEvent>, p: TraceEvent -> bool): seq<TraceEvent> {
    if trace == [] then []
    else Keep(trace[..|trace| - 1], p) + if p(trace[|trace| - 1]) then [trace[|trace| - 1]] else []
  }

  lemma KeepStep(trace: seq<TraceEvent>, k: nat, p: TraceEvent -> bool)
    requires k < |trace|
    ensures Keep(trace[..k + 1], p) == Keep(trace[..k], p) + if p(trace[k]) then [trace[k]] else []
  {
    assert trace[..k + 1][..k] == trace[..k];
  }

  lemma {:induction false} KeepMembers(trace: seq<TraceEvent>, p: TraceEvent -> bool, e: TraceEvent)
    ensures e in Keep(trace, p) <==> e in trace && p(e)
  {
    if trace != [] {
      var front, last := trace[..|trace| - 1], trace[|trace| - 1];
      assert trace == front + [last];
      KeepMembers(front, p, e);
    }
  }

  /** Filtering is compatible with prefixes: an event that is kept comes right after the filtered prefix. */
  lemma {:induction false} KeepPrefix(trace: seq<TraceEvent>, p: TraceEvent -> bool, k: nat)
    requires k < |trace|
    ensures Keep(trace[..k], p) <= Keep(trace, p)
    ensures p(trace[k]) ==>
              |Keep(trace[..k], p)| < |Keep(trace, p)| && Keep(trace, p)[|Keep(trace[..k], p)|] == trace[k]
    decreases |trace|
  {
    var n := |trace| - 1;
    if k < n {
      assert trace[..n][..k] == trace[..k];
      KeepPrefix(trace[..n], p, k);
    }
  }

  // ----- Step 1: one bug for each stack -----------------------------------------------------------------

  /** The bugs that are the first ones with their stacks. */
  function FirstOfStacks(trace: seq<TraceEvent>): seq<TraceEvent> {
    if trace == [] then []
    else
      var front, e := trace[..|trace| - 1], trace[|trace| - 1];
      FirstOfStacks(front) +
      if IsBug(e) && NewStack(front, e.callstack) then [e] else []
  }

  predicate NewStack(bugs: seq<TraceEvent>, stack: seq<Location>) {
    forall k | 0 <= k < |bugs| && IsBug(bugs[k]) :: bugs[k].callstack != stack
  }

  predicate HasStack(bugs: seq<TraceEvent>, stack: seq<Location>) {
    exists b :: b in bugs && b.callstack == stack
  }

  lemma NewStackNext(bugs: seq<TraceEvent>, k: nat)
    requires k < |bugs| && forall b | b in bugs :: IsBug(b)
    ensures forall s :: NewStack(bugs[..k + 1], s) <==> NewStack(bugs[..k], s) && bugs[k].callstack != s
  {
    var more := bugs[..k + 1];
    assert more[k] == bugs[k] && bugs[k] in bugs && forall i | 0 <= i < k :: more[i] == bugs[..k][i];
  }

  /** Event `i` is the first bug with its call stack. */
  predicate FirstWithStack(trace: seq<TraceEvent>, i: int) {
    && 0 <= i < |trace| && IsBug(trace[i])
    && forall j | 0 <= j < i && IsBug(trace[j]) :: trace[j].callstack != trace[i].callstack
  }

  lemma {:induction false} FirstOfStacksIff(trace: seq<TraceEvent>, e: TraceEvent)
    ensures e in FirstOfStacks(trace) <==> exists i :: FirstWithStack(trace, i) && trace[i] == e
  {
    if trace != [] {
      var n := |trace| - 1;
      var front, last := trace[..n], trace[n];
      FirstOfStacksIff(front, e);
      forall i | 0 <= i < n ensures FirstWithStack(trace, i) <==> FirstWithStack(front, i) {
        assert forall j | 0 <= j <= i :: trace[j] == front[j];
      }
      assert FirstWithStack(trace, n) <==> IsBug(last) && NewStack(front, last.callstack) by {
        assert forall j | 0 <= j < n :: trace[j] == front[j];
      }
      if i :| FirstWithStack(front, i) && front[i] == e {
        assert FirstWithStack(trace, i) && trace[i] == e;
      }
      if i :| FirstWithStack(trace, i) && trace[i] == e {
        assert i == n || (FirstWithStack(front, i) && front[i] == e);
      }
      if e == last && FirstWithStack(trace, n) {
        assert trace[n] == e;
      }
    }
  }

  /** Every bug has a first one with its call stack. */
  lemma {:induction false} FirstExists(trace: seq<TraceEvent>, k: nat) returns (i: nat)
    requires k < |trace| && IsBug(trace[k])
    ensures i <= k && FirstWithStack(trace, i) && trace[i].callstack == trace[k].callstack
    decreases k
  {
    if FirstWithStack(trace, k) {
      i := k;
    } else {
      var j :| 0 <= j < k && IsBug(trace[j]) && trace[j].callstack == trace[k].callstack;
      i := FirstExists(trace, j);
    }
  }

  function Retained(trace: seq<TraceEvent>): TraceEvent -> bool {
    (e: TraceEvent) => !IsBug(e) || e in FirstOfStacks(trace)
  }

  // ----- Step 2: only accesses to bug addresses -----------------------------------------------------------

  /** A half-open interval of addresses. */
  datatype Interval = Interval(begin: int, end: int)
  {
    predicate Overlaps(begin': int, end': int) {
      begin < end' && begin' < end
    }
  }

  function RangeOf(r: AddressInfo): Interval {
    Interval(r.address, r.address + r.length)
  }

  function BugIntervals(e: TraceEvent): set<Interval> {
    if !IsBug(e) then {}
    else if e.kind.AssertOrdered? then {RangeOf(e.kind.rangeA), RangeOf(e.kind.rangeB)}
    else {RangeOf(e.kind.range)}
  }

  function AllBugIntervals(trace: seq<TraceEvent>): set<Interval> {
    set e, i | e in trace && i in BugIntervals(e) :: i
  }

  predicate Hit(intervals: set<Interval>, r: AddressInfo) {
    exists i :: i in intervals && i.Overlaps(r.address, r.address + r.length)
  }

  function Relevant(intervals: set<Interval>): TraceEvent -> bool {
    (e: TraceEvent) => IsAccess(e) ==> Hit(intervals, e.kind.range)
  }

  /** The half-open test here agrees with the inclusive one of the fixer. */
  lemma OverlapAgrees(r: AddressInfo, s: AddressInfo)
    requires r.Valid() && s.Valid()
    ensures RangeOf(r).Overlaps(s.address, s.address + s.length) <==> s.Overlaps(r)
  {
    EndExact(r);
    EndExact(s);
  }

  // ----- Step 3: the interval tree ------------------------------------------------------------------------

  function NotFlush(): TraceEvent -> bool {
    (e: TraceEvent) => !e.kind.Flush?
  }

  /** Timestamps strictly increase, as the trace parser assigns them. */
  predicate StrictTimes(trace: seq<TraceEvent>) {
    forall i, j | 0 <= i < j < |trace| :: trace[i].timestamp < trace[j].timestamp
  }

  predicate SortedByTime(trace: seq<TraceEvent>) {
    forall i, j | 0 <= i < j < |trace| :: trace[i].timestamp <= trace[j].timestamp
  }

  function InsertByTime(trace: seq<TraceEvent>, e: TraceEvent): seq<TraceEvent> {
    if trace == [] || trace[|trace| - 1].timestamp <= e.timestamp then trace + [e]
    else InsertByTime(trace[..|trace| - 1], e) + [trace[|trace| - 1]]
  }

  /** The stable sort by timestamp. */
  function SortByTime(trace: seq<TraceEvent>): seq<TraceEvent> {
    if trace == [] then [] else InsertByTime(SortByTime(trace[..|trace| - 1]), trace[|trace| - 1])
  }

  lemma {:induction false} InsertByTimeSorts(trace: seq<TraceEvent>, e: TraceEvent)
    requires SortedByTime(trace)
    ensures SortedByTime(InsertByTime(trace, e))
    ensures multiset(InsertByTime(trace, e)) == multiset(trace) + multiset{e}
    ensures forall x :: x in InsertByTime(trace, e) ==> x in trace || x == e
  {
    hide SortedByTime;
    if trace == [] || trace[|trace| - 1].timestamp <= e.timestamp {
      SortedSnoc(trace, e);
    } else {
      var n := |trace| - 1;
      var r := InsertByTime(trace[..n], e);
      assert trace == trace[..n] + [trace[n]];
      SortedPrefix(trace, n);
      InsertByTimeSorts(trace[..n], e);
      SortedBelow(trace, n);
      forall x | x in r ensures x.timestamp <= trace[n].timestamp {
        assert x in trace[..n] || x == e;
      }
      SortedUnder(r, trace[n]);
    }
  }

  lemma SortedSnoc(trace: seq<TraceEvent>, e: TraceEvent)
    requires SortedByTime(trace) && (trace != [] ==> trace[|trace| - 1].timestamp <= e.timestamp)
    ensures SortedByTime(trace + [e])
  {
    var all := trace + [e];
    forall i, j | 0 <= i < j < |all| ensures all[i].timestamp <= all[j].timestamp {
      assert all[i] == trace[i];
      assert trace[i].timestamp <= trace[|trace| - 1].timestamp;
      assert j < |trace| ==> trace[i].timestamp <= trace[j].timestamp;
    }
  }

  lemma SortedPrefix(trace: seq<TraceEvent>, n: nat)
    requires SortedByTime(trace) && n <= |trace|
    ensures SortedByTime(trace[..n])
  {
  }

  lemma SortedBelow(trace: seq<TraceEvent>, n: nat)
    requires SortedByTime(trace) && n < |trace|
    ensures forall x | x in trace[..n] :: x.timestamp <= trace[n].timestamp
  {
  }

  lemma SortedUnder(trace: seq<TraceEvent>, e: TraceEvent)
    requires SortedByTime(trace) && forall x | x in trace :: x.timestamp <= e.timestamp
    ensures SortedByTime(trace + [e])
  {
    if trace != [] {
      assert trace[|trace| - 1] in trace;
    }
    SortedSnoc(trace, e);
  }

  lemma {:induction false} SortByTimeSorts(trace: seq<TraceEvent>)
    ensures SortedByTime(SortByTime(trace)) && multiset(SortByTime(trace)) == multiset(trace)
  {
    if trace != [] {
      var n := |trace| - 1;
      SortByTimeSorts(trace[..n]);
      InsertByTimeSorts(SortByTime(trace[..n]), trace[n]);
      assert trace == trace[..n] + [trace[n]];
    }
  }

  lemma SameEmptiness(xs: seq<TraceEvent>, ys: seq<TraceEvent>)
    requires forall e :: e in xs <==> e in ys
    ensures |xs| == 0 <==> |ys| == 0
  {
    if |xs| > 0 {
      assert xs[0] in ys;
    }
    if |ys| > 0 {
      assert ys[0] in xs;
    }
  }

  /** A set of events has only one listing with increasing timestamps. */
  lemma {:induction false} SameSortedListing(xs: seq<TraceEvent>, ys: seq<TraceEvent>)
    requires StrictTimes(xs) && StrictTimes(ys)
    requires forall e :: e in xs <==> e in ys
    ensures xs == ys
  {
    SameEmptiness(xs, ys);
    if xs != [] {
      var x, y := xs[|xs| - 1], ys[|ys| - 1];
      assert x in ys && y in xs;
      assert x == y;
      var xs', ys' := xs[..|xs| - 1], ys[..|ys| - 1];
      forall e ensures e in xs' <==> e in ys' {
        assert e in xs' <==> e in xs && e != x;
        assert e in ys' <==> e in ys && e != y;
      }
      SameSortedListing(xs', ys');
    }
  }

  predicate NoDuplicates(xs: seq<TraceEvent>) {
    forall i, j | 0 <= i < j < |xs| :: xs[i] != xs[j]
  }

  lemma KeepStrict(trace: seq<TraceEvent>, p: TraceEvent -> bool)
    requires StrictTimes(trace)
    ensures StrictTimes(Keep(trace, p))
  {
    if trace != [] {
      var n := |trace| - 1;
      KeepStrict(trace[..n], p);
      forall e | e in Keep(trace[..n], p) ensures e.timestamp < trace[n].timestamp {
        KeepMembers(trace[..n], p, e);
      }
    }
  }

  lemma SortedNoDuplicates(xs: seq<TraceEvent>, trace: seq<TraceEvent>)
    requires StrictTimes(trace) && SortedByTime(xs) && NoDuplicates(xs)
    requires forall e | e in xs :: e in trace
    ensures StrictTimes(xs)
  {
    forall i, j | 0 <= i < j < |xs| ensures xs[i].timestamp < xs[j].timestamp {
      assert xs[i] in trace && xs[j] in trace;
    }
  }

  lemma PermutationKeepsDistinct(xs: seq<TraceEvent>, ys: seq<TraceEvent>)
    requires NoDuplicates(xs) && multiset(xs) == multiset(ys)
    ensures NoDuplicates(ys)
    ensures forall e :: e in xs <==> e in ys
  {
    forall e ensures e in xs <==> e in ys {
      assert e in xs <==> e in multiset(xs);
      assert e in ys <==> e in multiset(ys);
    }
    forall i, j | 0 <= i < j < |ys| ensures ys[i] != ys[j] {
      if ys[i] == ys[j] {
        var e := ys[i];
        assert ys == ys[..i] + [e] + ys[i + 1..j] + [e] + ys[j + 1..];
        assert multiset(ys)[e] >= 2;
        DistinctOnce(xs, e);
        assert false;
      }
    }
  }

  lemma {:induction false} DistinctOnce(xs: seq<TraceEvent>, e: TraceEvent)
    requires NoDuplicates(xs)
    ensures multiset(xs)[e] <= 1
  {
    if xs != [] {
      var n := |xs| - 1;
      DistinctOnce(xs[..n], e);
      assert xs == xs[..n] + [xs[n]];
      if e == xs[n] {
        assert e !in xs[..n];
        assert multiset(xs[..n])[e] == 0;
      }
    }
  }

  // ----- Step 4: repeated fences ----------------------------------------------------------------------------

  /** The latest event that is not a bug is a fence. */
  predicate AfterFence(trace: seq<TraceEvent>) {
    trace != [] &&
    var e := trace[|trace| - 1];
    if IsBug(e) then AfterFence(trace[..|trace| - 1]) else e.kind.Fence?
  }

  function DropRepeatedFences(trace: seq<TraceEvent>): seq<TraceEvent> {
    if trace == [] then []
    else
      var front, e := trace[..|trace| - 1], trace[|trace| - 1];
      DropRepeatedFences(front) + if !IsBug(e) && e.kind.Fence? && AfterFence(front) then [] else [e]
  }

  // ----- All steps -------------------------------------------------------------------------------------------

  function DedupedBugs(trace: seq<TraceEvent>): seq<TraceEvent> {
    Keep(trace, Retained(trace))
  }

  function RelevantOnly(trace: seq<TraceEvent>): seq<TraceEvent> {
    var t := DedupedBugs(trace);
    Keep(t, Relevant(AllBugIntervals(t)))
  }

  function Optimized(trace: seq<TraceEvent>): seq<TraceEvent> {
    DropRepeatedFences(Keep(RelevantOnly(trace), NotFlush()))
  }

  /** What deduplication leaves: all that is no bug, and of the bugs those that are the first with their stack,
      or equal to one that is. */
  lemma DedupedIff(trace: seq<TraceEvent>, e: TraceEvent)
    ensures e in DedupedBugs(trace) <==>
              e in trace && (!IsBug(e) || exists i :: FirstWithStack(trace, i) && trace[i] == e)
  {
    hide FirstOfStacks;
    KeepMembers(trace, Retained(trace), e);
    FirstOfStacksIff(trace, e);
  }

  /** No call stack loses all of its bugs: the first bug with each stack comes through all steps. */
  lemma EveryStackKept(trace: seq<TraceEvent>, k: nat)
    requires k < |trace| && IsBug(trace[k])
    ensures exists i :: 0 <= i <= k && FirstWithStack(trace, i) && trace[i].callstack == trace[k].callstack
                        && trace[i] in Optimized(trace)
  {
    hide Keep, DropRepeatedFences, AllBugIntervals;
    var i := FirstExists(trace, k);
    var e := trace[i];
    DedupedIff(trace, e);
    var t := DedupedBugs(trace);
    KeepMembers(t, Relevant(AllBugIntervals(t)), e);
    KeepMembers(RelevantOnly(trace), NotFlush(), e);
    BugsNotDropped(Keep(RelevantOnly(trace), NotFlush()), e);
  }

  /** The access touches the addresses of a bug. */
  predicate Touches(r: AddressInfo, bug: TraceEvent) {
    && IsBug(bug)
    && if bug.kind.AssertOrdered? then r.Overlaps(bug.kind.rangeA) || r.Overlaps(bug.kind.rangeB)
       else r.Overlaps(bug.kind.range)
  }

  lemma HitIff(trace: seq<TraceEvent>, r: AddressInfo)
    requires WellFormedTrace(trace) && r.Valid()
    ensures Hit(AllBugIntervals(trace), r) <==> exists b :: b in trace && Touches(r, b)
  {
    hide AddressInfo.Overlaps, Interval.Overlaps;
    forall b | b in trace && IsBug(b)
      ensures Touches(r, b) <==> exists i :: i in BugIntervals(b) && i.Overlaps(r.address, r.address + r.length)
    {
      if b.kind.AssertOrdered? {
        OverlapAgrees(b.kind.rangeA, r);
        OverlapAgrees(b.kind.rangeB, r);
        assert RangeOf(b.kind.rangeA) in BugIntervals(b) && RangeOf(b.kind.rangeB) in BugIntervals(b);
      } else {
        OverlapAgrees(b.kind.range, r);
        assert RangeOf(b.kind.range) in BugIntervals(b);
      }
    }
    if Hit(AllBugIntervals(trace), r) {
      var i :| i in AllBugIntervals(trace) && i.Overlaps(r.address, r.address + r.length);
      var b :| b in trace && i in BugIntervals(b);
      assert Touches(r, b);
    }
    if b :| b in trace && Touches(r, b) {
      var i :| i in BugIntervals(b) && i.Overlaps(r.address, r.address + r.length);
      assert i in AllBugIntervals(trace);
    }
  }

  /** Which events but fences come through the reduction: of the bugs, the first with each stack; of the accesses, the
      stores that touch one of these bugs; all others. */
  lemma OptimizedIff(trace: seq<TraceEvent>, e: TraceEvent)
    requires WellFormedTrace(trace) && !e.kind.Fence?
    ensures e in Optimized(trace) <==>
              && e in trace && !e.kind.Flush?
              && (IsBug(e) ==> exists i :: FirstWithStack(trace, i) && trace[i] == e)
              && (e.kind.Store? ==> exists i :: FirstWithStack(trace, i) && Touches(e.kind.range, trace[i]))
  {
    hide Keep, DropRepeatedFences, AllBugIntervals, FirstWithStack, Touches, Hit, Retained;
    var t := DedupedBugs(trace);
    DedupedIff(trace, e);
    KeepMembers(t, Relevant(AllBugIntervals(t)), e);
    RelevantMeaning(AllBugIntervals(t), e);
    KeepMembers(RelevantOnly(trace), NotFlush(), e);
    OnlyFencesDropped(Keep(RelevantOnly(trace), NotFlush()), e);
    if e in trace && e.kind.Store? {
      DedupedWellFormed(trace);
      HitIff(t, e.kind.range);
      TouchedIff(trace, e.kind.range);
    }
  }

  lemma DedupedWellFormed(trace: seq<TraceEvent>)
    requires WellFormedTrace(trace)
    ensures WellFormedTrace(DedupedBugs(trace))
  {
    forall e | e in DedupedBugs(trace) ensures e.WellFormed() {
      KeepMembers(trace, Retained(trace), e);
    }
  }

  lemma TouchedIff(trace: seq<TraceEvent>, r: AddressInfo)
    ensures (exists b :: b in DedupedBugs(trace) && Touches(r, b))
            <==> exists i :: FirstWithStack(trace, i) && Touches(r, trace[i])
  {
    hide Keep, Retained;
    if b :| b in DedupedBugs(trace) && Touches(r, b) {
      DedupedIff(trace, b);
      var i :| FirstWithStack(trace, i) && trace[i] == b;
    }
    if i :| FirstWithStack(trace, i) && Touches(r, trace[i]) {
      DedupedIff(trace, trace[i]);
    }
  }

  lemma {:induction false} OnlyFencesDropped(trace: seq<TraceEvent>, e: TraceEvent)
    requires !e.kind.Fence?
    ensures e in DropRepeatedFences(trace) <==> e in trace
  {
    if trace != [] {
      var front, last := trace[..|trace| - 1], trace[|trace| - 1];
      assert trace == front + [last];
      OnlyFencesDropped(front, e);
    }
  }

  /** Event `k` is a fence, and so is the last event before it that is no bug. */
  predicate RepeatsFence(trace: seq<TraceEvent>, k: int) {
    && 0 <= k < |trace| && trace[k].kind.Fence?
    && exists j :: 0 <= j < k && trace[j].kind.Fence? && forall i | j < i < k :: IsBug(trace[i])
  }

  lemma {:induction false} AfterFenceIff(trace: seq<TraceEvent>)
    ensures AfterFence(trace) <==>
              exists j :: 0 <= j < |trace| && trace[j].kind.Fence? && forall i | j < i < |trace| :: IsBug(trace[i])
  {
    if trace != [] {
      var n := |trace| - 1;
      var front := trace[..n];
      AfterFenceIff(front);
      if IsBug(trace[n]) {
        if j :| 0 <= j < n && front[j].kind.Fence? && forall i | j < i < n :: IsBug(front[i]) {
          assert trace[j] == front[j] && forall i | j < i < |trace| :: i == n || trace[i] == front[i];
        }
        if j :| 0 <= j < |trace| && trace[j].kind.Fence? && forall i | j < i < |trace| :: IsBug(trace[i]) {
          assert j < n && front[j] == trace[j] && forall i | j < i < n :: front[i] == trace[i];
        }
      }
    }
  }

  /** No fence that is left repeats another one. */
  lemma {:induction false} NoFenceRepeated(trace: seq<TraceEvent>, k: nat)
    ensures !RepeatsFence(DropRepeatedFences(trace), k)
    ensures AfterFence(DropRepeatedFences(trace)) <==> AfterFence(trace)
  {
    if trace != [] {
      var n := |trace| - 1;
      var front, e := trace[..n], trace[n];
      NoFenceRepeated(front, k);
      var d, all := DropRepeatedFences(front), DropRepeatedFences(trace);
      if all == d + [e] {
        assert all[..|d|] == d && all[|d|] == e;
        assert forall i | 0 <= i < |d| :: all[i] == d[i];
        AfterFenceIff(d);
        if k < |d| && RepeatsFence(all, k) {
          assert RepeatsFence(d, k);
        }
      } else {
        assert all == d + [] == d;
      }
    }
  }

  lemma {:induction false} BugsNotDropped(trace: seq<TraceEvent>, e: TraceEvent)
    requires e in trace && IsBug(e)
    ensures e in DropRepeatedFences(trace)
  {
    var front, last := trace[..|trace| - 1], trace[|trace| - 1];
    assert trace == front + [last];
    if e != last {
      BugsNotDropped(front, e);
    }
  }

  /** An entry of the interval tree. */
  datatype Entry = Entry(begin: int, end: int, data: TraceEvent)

  class BugReport {
    var trace: seq<TraceEvent>

    constructor (trace: seq<TraceEvent>)
      ensures this.trace == trace
    {
      this.trace := trace;
    }

    method GetBugs() returns (bugs: seq<TraceEvent>)
      ensures bugs == Keep(trace, IsBug)
    {
      bugs := [];
      for k := 0 to |trace|
        invariant bugs == Keep(trace[..k], IsBug)
      {
        KeepStep(trace, k, IsBug);
        if IsBug(trace[k]) {
          bugs := bugs + [trace[k]];
        }
      }
      assert trace[..|trace|] == trace;
    }

    /** The first of the bugs with each stack. */
    method FindUniqueBugs(bugs: seq<TraceEvent>) returns (uniqueBugs: seq<TraceEvent>)
      requires forall b | b in bugs :: IsBug(b)
      ensures uniqueBugs == FirstOfStacks(bugs)
    {
      var uniqueStacks := set b | b in bugs :: b.callstack;
      uniqueBugs := [];
      for k := 0 to |bugs|
        invariant uniqueBugs == FirstOfStacks(bugs[..k])
        invariant forall s :: s in uniqueStacks <==> HasStack(bugs, s) && NewStack(bugs[..k], s)
      {
        var b := bugs[k];
        assert bugs[..k + 1][..k] == bugs[..k];
        assert b in bugs;
        NewStackNext(bugs, k);
        if b.callstack in uniqueStacks {
          uniqueBugs := uniqueBugs + [b];
          uniqueStacks := uniqueStacks - {b.callstack};
        }
      }
      assert bugs[..|bugs|] == bugs;
    }

    /** Keep, of the bugs, the first one for each stack. */
    method OptRemoveRedtBugs() returns (newTrace: seq<TraceEvent>)
      ensures newTrace == DedupedBugs(trace)
      ensures forall e :: e in newTrace <==>
                e in trace && (!IsBug(e) || exists i :: FirstWithStack(trace, i) && trace[i] == e)
    {
      forall e ensures e in DedupedBugs(trace) <==>
                e in trace && (!IsBug(e) || exists i :: FirstWithStack(trace, i) && trace[i] == e) {
        DedupedIff(trace, e);
      }
      hide FirstWithStack;
      var bugs := GetBugs();
      forall b | b in bugs ensures IsBug(b) {
        KeepMembers(trace, IsBug, b);
      }
      var uniqueBugs := FindUniqueBugs(bugs);
      FirstOfBugs(trace);

      newTrace := [];
      for k := 0 to |trace|
        invariant newTrace == Keep(trace[..k], Retained(trace))
      {
        KeepStep(trace, k, Retained(trace));
        if !IsBug(trace[k]) {
          newTrace := newTrace + [trace[k]];
        } else if trace[k] in uniqueBugs {
          newTrace := newTrace + [trace[k]];
        }
      }
      assert trace[..|trace|] == trace;
    }

    method CollectBugAddresses() returns (addrs: set<Interval>)
      ensures addrs == AllBugIntervals(trace)
    {
      addrs := {};
      for k := 0 to |trace|
        invariant addrs == AllBugIntervals(trace[..k])
      {
        assert trace[..k + 1] == trace[..k] + [trace[k]];
        addrs := addrs + BugIntervals(trace[k]);
      }
      assert trace[..|trace|] == trace;
    }

    /** Keep, of the stores and flushes, those that touch a bug address. */
    method OptRemoveIrrelevant()
      modifies this
      ensures trace == Keep(old(trace), Relevant(AllBugIntervals(old(trace))))
    {
      hide Relevant, AllBugIntervals, Hit;
      var uniqueBugAddrs := CollectBugAddresses();
      var newTrace: seq<TraceEvent> := [];
      var n := |trace|;
      ghost var p := Relevant(uniqueBugAddrs);
      ghost var all := Keep(trace, p);
      assert trace[..n] == trace;
      while n > 0
        invariant 0 <= n <= |trace| && trace == old(trace)
        invariant all == Keep(trace[..n], p) + Reversed(newTrace)
      {
        n := n - 1;
        var e := trace[n];
        KeepStep(trace, n, p);
        RelevantMeaning(uniqueBugAddrs, e);
        ghost var before := Reversed(newTrace);
        if !IsAccess(e) || Hit(uniqueBugAddrs, e.kind.range) {
          ReversedStep(newTrace, e);
          newTrace := newTrace + [e];
        }
        assert all == Keep(trace[..n], p) + Reversed(newTrace);
      }
      trace := Reversed(newTrace);
    }

    /** Send the stores through the interval tree: each flush takes out the ones it overlaps, the rest
        come out at the end, and sorting puts all of them back into order. */
    method OptThroughIntervalTree()
      requires StrictTimes(trace) && WellFormedTrace(trace)
      modifies this
      ensures trace == Keep(old(trace), NotFlush())
    {
      var inFlight: set<Entry> := {};
      var newTrace: seq<TraceEvent> := [];
      for k := 0 to |trace|
        invariant trace == old(trace)
        invariant Conserved(trace[..k], newTrace, inFlight)
      {
        var e := trace[k];
        assert trace[..k + 1] == trace[..k] + [e];
        assert e !in trace[..k];
        ghost var seen := trace[..k];
        if e.kind.Flush? {
          var tes := set x | x in inFlight
            && Interval(x.begin, x.end).Overlaps(e.kind.range.address, e.kind.range.address + e.kind.range.length);
          newTrace, inFlight := TakeOut(tes, seen, newTrace, inFlight);
        } else if e.kind.Store? {
          inFlight := inFlight + {Entry(e.kind.range.address, e.kind.range.address + e.kind.range.length, e)};
        } else {
          newTrace := newTrace + [e];
        }
      }
      assert trace[..|trace|] == trace;
      newTrace, inFlight := TakeOut(inFlight, trace, newTrace, inFlight);
      ConservedSorts(trace, newTrace);
      trace := SortByTime(newTrace);
    }

    /** Move some entries of the tree, in whatever order, to the new trace. */
    method TakeOut(tes: set<Entry>, ghost seen: seq<TraceEvent>, newTrace: seq<TraceEvent>, inFlight: set<Entry>)
      returns (newTrace': seq<TraceEvent>, inFlight': set<Entry>)
      requires tes <= inFlight && Conserved(seen, newTrace, inFlight)
      ensures inFlight' == inFlight - tes && Conserved(seen, newTrace', inFlight')
    {
      newTrace', inFlight' := newTrace, inFlight;
      var left := tes;
      while left != {}
        invariant left <= tes && inFlight' == inFlight - (tes - left)
        invariant Conserved(seen, newTrace', inFlight')
        decreases left
      {
        var x :| x in left;
        newTrace', inFlight' := newTrace' + [x.data], inFlight' - {x};
        left := left - {x};
      }
    }

    /** Drop each fence that only follows another one. */
    method OptRemoveRepeatedFences(bugs: seq<TraceEvent>)
      requires forall e | e in trace :: e in bugs <==> IsBug(e)
      modifies this
      ensures trace == DropRepeatedFences(old(trace))
    {
      var newTrace: seq<TraceEvent> := [];
      var prevTe: seq<TraceEvent> := [];
      for k := 0 to |trace|
        invariant trace == old(trace)
        invariant newTrace == DropRepeatedFences(trace[..k])
        invariant |prevTe| <= 1 && (prevTe != [] && prevTe[0].kind.Fence? <==> AfterFence(trace[..k]))
      {
        var te := trace[k];
        assert te in trace && trace[..k + 1][..k] == trace[..k];
        if te in bugs {
          newTrace := newTrace + [te];
        } else if te.kind.Fence? && prevTe != [] && prevTe[0].kind.Fence? {
        } else {
          newTrace := newTrace + [te];
          prevTe := [te];
        }
      }
      assert trace[..|trace|] == trace;
      trace := newTrace;
    }

    method Optimize()
      requires StrictTimes(trace) && WellFormedTrace(trace)
      modifies this
      ensures trace == Optimized(old(trace))
      ensures forall k | 0 <= k < |old(trace)| && IsBug(old(trace)[k]) ::
                exists e :: e in trace && IsBug(e) && e.callstack == old(trace)[k].callstack
    {
      forall k | 0 <= k < |trace| && IsBug(trace[k])
        ensures exists e :: e in Optimized(trace) && IsBug(e) && e.callstack == trace[k].callstack
      {
        EveryStackKept(trace, k);
      }
      ghost var start := trace;
      var bugs := GetBugs();
      var deduped := OptRemoveRedtBugs();
      trace := deduped;
      KeepStrict(start, Retained(start));
      OptRemoveIrrelevant();
      KeepStrict(deduped, Relevant(AllBugIntervals(deduped)));
      assert WellFormedTrace(trace) && forall e | e in trace :: e in start by {
        forall e | e in trace ensures e.WellFormed() && e in start {
          KeepMembers(deduped, Relevant(AllBugIntervals(deduped)), e);
          KeepMembers(start, Retained(start), e);
        }
      }
      ghost var relevant := trace;
      OptThroughIntervalTree();
      forall e | e in trace ensures e in bugs <==> IsBug(e) {
        KeepMembers(relevant, NotFlush(), e);
        KeepMembers(start, IsBug, e);
      }
      OptRemoveRepeatedFences(bugs);
    }
  }

  function Reversed(xs: seq<TraceEvent>): seq<TraceEvent> {
    if xs == [] then [] else [xs[|xs| - 1]] + Reversed(xs[..|xs| - 1])
  }

  lemma ReversedStep(xs: seq<TraceEvent>, x: TraceEvent)
    ensures Reversed(xs + [x]) == [x] + Reversed(xs)
  {
    assert (xs + [x])[..|xs|] == xs;
  }

  lemma RelevantMeaning(intervals: set<Interval>, e: TraceEvent)
    ensures Relevant(intervals)(e) <==> !IsAccess(e) || Hit(intervals, e.kind.range)
  {
  }

  ghost predicate InTree(inFlight: set<Entry>, e: TraceEvent) {
    e.kind.Store? && Entry(e.kind.range.address, e.kind.range.address + e.kind.range.length, e) in inFlight
  }

  /** Every event seen, but for flushes, is once in the new trace or once in the tree, and nothing else is. */
  ghost predicate Conserved(seen: seq<TraceEvent>, newTrace: seq<TraceEvent>, inFlight: set<Entry>) {
    && NoDuplicates(newTrace)
    && (forall x | x in inFlight ::
      InTree(inFlight, x.data) && x == Entry(x.data.kind.range.address,
                                             x.data.kind.range.address + x.data.kind.range.length, x.data))
    && (forall e :: e in newTrace ==> !InTree(inFlight, e))
    && (forall e :: e in newTrace || InTree(inFlight, e) <==> e in seen && !e.kind.Flush?)
  }

  /** When the tree is empty, sorting the new trace gives exactly the events without the flushes, in
      their original order. */
  lemma ConservedSorts(trace: seq<TraceEvent>, newTrace: seq<TraceEvent>)
    requires StrictTimes(trace) && Conserved(trace, newTrace, {})
    ensures SortByTime(newTrace) == Keep(trace, NotFlush())
  {
    var sorted := SortByTime(newTrace);
    SortByTimeSorts(newTrace);
    PermutationKeepsDistinct(newTrace, sorted);
    forall e ensures e in sorted <==> e in Keep(trace, NotFlush()) {
      KeepMembers(trace, NotFlush(), e);
      assert !InTree({}, e);
    }
    KeepStrict(trace, NotFlush());
    SortedNoDuplicates(sorted, trace);
    SameSortedListing(sorted, Keep(trace, NotFlush()));
  }

  lemma {:induction false} FirstOfBugs(trace: seq<TraceEvent>)
    ensures FirstOfStacks(Keep(trace, IsBug)) == FirstOfStacks(trace)
  {
    if trace != [] {
      var front, e := trace[..|trace| - 1], trace[|trace| - 1];
      FirstOfBugs(front);
      if IsBug(e) {
        var bugs := Keep(front, IsBug);
        assert (bugs + [e])[..|bugs|] == bugs;
        NewStackOfBugs(front, e.callstack);
        var more := bugs + [e];
        assert Keep(trace, IsBug) == more && more[..|more| - 1] == bugs && more[|more| - 1] == e;
      } else {
        assert Keep(trace, IsBug) == Keep(front, IsBug) + [] == Keep(front, IsBug);
      }
    }
  }

  lemma NewStackOfBugs(trace: seq<TraceEvent>, stack: seq<Location>)
    ensures NewStack(Keep(trace, IsBug), stack) <==> NewStack(trace, stack)
  {
    var bugs := Keep(trace, IsBug);
    forall e ensures e in bugs <==> e in trace && IsBug(e) {
      KeepMembers(trace, IsBug, e);
    }
    if NewStack(bugs, stack) {
      forall k | 0 <= k < |trace| && IsBug(trace[k]) ensures trace[k].callstack != stack {
        var i :| 0 <= i < |bugs| && bugs[i] == trace[k];
      }
    }
    if NewStack(trace, stack) {
      forall i | 0 <= i < |bugs| && IsBug(bugs[i]) ensures bugs[i].callstack != stack {
        var k :| 0 <= k < |trace| && trace[k] == bugs[i];
      }
    }
  }
}
