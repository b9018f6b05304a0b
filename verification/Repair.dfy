/**
 Soundness of the repair (src/BugFixer.cpp:161-288, src/BugFixer.cpp:511-538): executions whose trace
 the fixer has seen, what they become when the fixes of the map are in the program, and which bytes
 are then persisted where the bug was reported.
 */
module Repair {
  import P = Persistence
  import opened Addresses
  import opened Traces
  import opened Mapping
  import opened Fixes
  import opened Raising
  import opened BugFixing
  import opened Conservation

  /** One step of an execution: what it does to memory, and the instruction that does it. */
  datatype Step = Step(op: P.Op, inst: Inst)

  /** The step is what the event recorded. A store at a mapped location is executed by one of the
      store instructions there. */
  ghost predicate Records(env: Env, s: Step, e: TraceEvent) {
    match e.kind
    case Store(r) =>
      && s.op.Store? && s.op.address == r.address && |s.op.data| == r.length
      && (e.callstack != [] && env.Mapped(e.callstack[0]) ==> StoreOf(env, env.fixLocs[e.callstack[0]], s.inst))
    case Flush(r) => s.op == P.Flush(P.Line(r.address), P.Line(r.End()))
    case Fence => s.op == P.Fence
    case _ => s.op == P.Nop
  }

  ghost predicate Recorded(env: Env, steps: seq<Step>, hist: seq<TraceEvent>) {
    && |steps| == |hist|
    && forall k | 0 <= k < |hist| :: Records(env, steps[k], hist[k])
  }

  // ----- The repaired execution -----------------------------------------------------------------------

  function FixAt(m: FixMap, i: Inst): FixType {
    if FixLoc(i, i) in m then m[FixLoc(i, i)].kind else NoFix
  }

  /** What a primitive fix inserts behind a store: the flush first, the fence behind it. */
  function Inserted(t: FixType, address: nat): seq<P.Op> {
    match t
    case AddFlushOnly => [P.Clwb(address)]
    case AddFenceOnly => [P.Fence]
    case AddFlushAndFence => [P.Clwb(address), P.Fence]
    case _ => []
  }

  function After(m: FixMap, s: Step): seq<P.Op> {
    if s.op.Store? then Inserted(FixAt(m, s.inst), s.op.address) else []
  }

  function Repaired(m: FixMap, steps: seq<Step>): seq<P.Op> {
    if steps == [] then []
    else
      var s := steps[|steps| - 1];
      Repaired(m, steps[..|steps| - 1]) + ([s.op] + After(m, s))
  }

  function Original(steps: seq<Step>): seq<P.Op> {
    if steps == [] then [] else Original(steps[..|steps| - 1]) + [steps[|steps| - 1].op]
  }

  lemma {:induction false} OnlyAddsMore(orig: seq<P.Op>, fixed: seq<P.Op>, more: seq<P.Op>)
    requires P.OnlyAdds(orig, fixed) && forall k | 0 <= k < |more| :: !more[k].Store?
    ensures P.OnlyAdds(orig, fixed + more)
  {
    hide P.OnlyAdds;
    if more == [] {
      assert fixed + more == fixed;
    } else {
      var n := |more| - 1;
      OnlyAddsMore(orig, fixed, more[..n]);
      P.OnlyAddsAppend(orig, fixed + more[..n], more[n]);
      assert fixed + more == fixed + more[..n] + [more[n]];
    }
  }

  lemma AfterHasNoStores(m: FixMap, s: Step)
    ensures forall k | 0 <= k < |After(m, s)| :: !After(m, s)[k].Store?
  {
  }

  lemma RepairedAddsStep(m: FixMap, front: seq<Step>, s: Step)
    requires P.OnlyAdds(Original(front), Repaired(m, front))
    ensures P.OnlyAdds(Original(front) + [s.op], Repaired(m, front) + ([s.op] + After(m, s)))
  {
    hide P.OnlyAdds, After, Original, Repaired;
    AfterHasNoStores(m, s);
    P.OnlyAddsAppend(Original(front), Repaired(m, front), s.op);
    OnlyAddsMore(Original(front) + [s.op], Repaired(m, front) + [s.op], After(m, s));
    assert Repaired(m, front) + ([s.op] + After(m, s)) == Repaired(m, front) + [s.op] + After(m, s);
  }

  lemma {:induction false} RepairedAdds(m: FixMap, steps: seq<Step>)
    ensures P.OnlyAdds(Original(steps), Repaired(m, steps))
  {
    hide After;
    if steps != [] {
      var front, s := steps[..|steps| - 1], steps[|steps| - 1];
      RepairedAdds(m, front);
      RepairedAddsStep(m, front, s);
    }
  }

  /** The repaired program does what the original did, with flushes and fences added: it reads the
      same everywhere, and what was persisted still is. */
  lemma RepairedOnlyAdds(m: FixMap, steps: seq<Step>)
    ensures P.OnlyAdds(Original(steps), Repaired(m, steps))
    ensures P.Run(Repaired(m, steps)).image == P.Run(Original(steps)).image
    ensures forall b :: P.Run(Original(steps)).Persisted(b) ==> P.Run(Repaired(m, steps)).Persisted(b)
  {
    hide P.OnlyAdds, P.Run, Repaired, Original;
    RepairedAdds(m, steps);
    P.DoNoHarm(Original(steps), Repaired(m, steps));
  }

  // ----- Positions in the repaired execution ------------------------------------------------------------

  /** Where step `i` stands in the repaired execution. */
  function Pos(m: FixMap, steps: seq<Step>, i: nat): nat
    requires i <= |steps|
  {
    |Repaired(m, steps[..i])|
  }

  lemma PosStep(m: FixMap, steps: seq<Step>, i: nat)
    requires i < |steps|
    ensures Repaired(m, steps[..i + 1]) == Repaired(m, steps[..i]) + ([steps[i].op] + After(m, steps[i]))
    ensures Pos(m, steps, i + 1) == Pos(m, steps, i) + 1 + |After(m, steps[i])|
  {
    assert steps[..i + 1][..i] == steps[..i];
  }

  lemma {:induction false} PosPrefix(m: FixMap, steps: seq<Step>, i: nat, n: nat)
    requires i <= n <= |steps|
    ensures Repaired(m, steps[..i]) <= Repaired(m, steps[..n])
    ensures Pos(m, steps, i) <= Pos(m, steps, n) && (i < n ==> Pos(m, steps, i + 1) <= Pos(m, steps, n))
    decreases n - i
  {
    if i < n {
      PosStep(m, steps, i);
      PosPrefix(m, steps, i + 1, n);
    }
  }

  /** Step `i` and what is inserted behind it, in place. */
  lemma At(m: FixMap, steps: seq<Step>, i: nat)
    requires i < |steps|
    ensures var r, p := Repaired(m, steps), Pos(m, steps, i);
            && p + 1 + |After(m, steps[i])| == Pos(m, steps, i + 1) <= |r|
            && r[p] == steps[i].op
            && forall k | 0 <= k < |After(m, steps[i])| :: r[p + 1 + k] == After(m, steps[i])[k]
  {
    hide Repaired, After;
    PosStep(m, steps, i);
    PosPrefix(m, steps, i + 1, |steps|);
    assert steps[..|steps|] == steps;
    var here := Repaired(m, steps[..i + 1]);
    assert forall k | 0 <= k < |here| :: Repaired(m, steps)[k] == here[k];
  }

  /** The step that an operation of the repaired execution belongs to. */
  lemma {:induction false} StepOf(m: FixMap, steps: seq<Step>, n: nat, p: nat) returns (i: nat)
    requires n <= |steps| && p < Pos(m, steps, n)
    ensures i < n && Pos(m, steps, i) <= p < Pos(m, steps, i + 1)
    decreases n
  {
    PosStep(m, steps, n - 1);
    if p < Pos(m, steps, n - 1) {
      i := StepOf(m, steps, n - 1, p);
    } else {
      i := n - 1;
    }
  }

  /** A fence follows step `i` and the flush inserted behind it. */
  ghost predicate FencedAfter(m: FixMap, steps: seq<Step>, i: int) {
    || (0 <= i < |steps| && FenceDuty in Duties(FixAt(m, steps[i].inst)))
    || exists k :: i < k < |steps| && Fences(m, steps, k)
  }

  ghost predicate Fences(m: FixMap, steps: seq<Step>, k: int) {
    0 <= k < |steps| && (steps[k].op.Fence? || P.Fence in After(m, steps[k]))
  }

  /** Step `i` is a store within one cache line whose fix is primitive and flushes. */
  predicate FlushedInPlace(m: FixMap, s: Step) {
    && s.op.Store? && s.op.data != []
    && P.Line(s.op.address) == P.Line(s.op.address + |s.op.data| - 1)
    && FixAt(m, s.inst).Primitive() && FlushDuty in Duties(FixAt(m, s.inst))
  }

  /** The flush inserted behind such a step, and the fence if its fix has one. */
  lemma FlushInserted(m: FixMap, s: Step)
    requires FlushedInPlace(m, s)
    ensures var ops := After(m, s);
            && 1 <= |ops| && (forall b: nat | s.op.Writes(b) :: ops[0].WritesBack(b))
            && (FenceDuty in Duties(FixAt(m, s.inst)) ==> |ops| == 2 && ops[1].Fence?)
  {
  }

  /** A fence that follows some step stands behind that step, and behind the flush inserted there. */
  lemma FenceFollows(m: FixMap, steps: seq<Step>, i: nat, latest: nat) returns (q: nat)
    requires i <= latest < |steps| && FlushedInPlace(m, steps[i]) && FlushedInPlace(m, steps[latest])
    requires FencedAfter(m, steps, latest)
    ensures Pos(m, steps, i) + 1 < q < |Repaired(m, steps)| && Repaired(m, steps)[q].Fence?
  {
    hide Repaired, After, FlushedInPlace, Duties, Pos;
    FlushInserted(m, steps[i]);
    FlushInserted(m, steps[latest]);
    PosPrefix(m, steps, i, latest);
    PosStep(m, steps, i);
    if FenceDuty in Duties(FixAt(m, steps[latest].inst)) {
      At(m, steps, latest);
      q := Pos(m, steps, latest) + 2;
      assert Repaired(m, steps)[Pos(m, steps, latest) + 1 + 1] == After(m, steps[latest])[1];
    } else {
      var k :| latest < k < |steps| && Fences(m, steps, k);
      At(m, steps, k);
      PosPrefix(m, steps, i, k);
      if steps[k].op.Fence? {
        q := Pos(m, steps, k);
      } else {
        var n :| 0 <= n < |After(m, steps[k])| && After(m, steps[k])[n] == P.Fence;
        q := Pos(m, steps, k) + 1 + n;
      }
    }
  }

  /** A flushed store, and any store before it, is secured if a fence follows some step not before it. */
  lemma SecuredBy(m: FixMap, steps: seq<Step>, i: nat, b: nat, latest: nat, p: nat)
    requires i <= latest < |steps| && FlushedInPlace(m, steps[i]) && steps[i].op.Writes(b)
    requires FlushedInPlace(m, steps[latest]) && FencedAfter(m, steps, latest)
    requires p <= Pos(m, steps, i)
    ensures P.Secured(Repaired(m, steps), p, b)
  {
    hide Repaired, After, FlushedInPlace, FencedAfter, Pos;
    var r, j := Repaired(m, steps), Pos(m, steps, i) + 1;
    FlushInserted(m, steps[i]);
    At(m, steps, i);
    assert r[Pos(m, steps, i) + 1 + 0] == After(m, steps[i])[0];
    var q := FenceFollows(m, steps, i, latest);
    assert r[j].WritesBack(b) && r[q].Fence? && p < j < q;
  }

  /** Conversely, a store can be secured only if a fence follows it. */
  lemma SecuredNeedsFence(m: FixMap, steps: seq<Step>, i: nat, b: nat)
    requires i < |steps| && FlushedInPlace(m, steps[i]) && P.Secured(Repaired(m, steps), Pos(m, steps, i), b)
    ensures FencedAfter(m, steps, i)
  {
    hide Repaired;
    var r := Repaired(m, steps);
    assert steps[..|steps|] == steps;
    var j, q :| Pos(m, steps, i) < j < q < |r| && r[j].WritesBack(b) && r[q].Fence?;
    var k := StepOf(m, steps, |steps|, q);
    At(m, steps, k);
    if k < i {
      PosPrefix(m, steps, k + 1, i);
      assert false;
    } else if k == i {
      assert r[q] == After(m, steps[i])[q - Pos(m, steps, i) - 1];
    } else {
      assert r[q] == steps[k].op || r[q] == After(m, steps[k])[q - Pos(m, steps, k) - 1];
      assert Fences(m, steps, k);
    }
  }

  // ----- Soundness for one bug ---------------------------------------------------------------------------

  ghost predicate AllPersisted(ops: seq<P.Op>, r: AddressInfo) {
    forall b: nat | r.Has(b) :: P.Run(ops).Persisted(b)
  }

  /** Each store that the scan collected is flushed by a fix in place. */
  ghost predicate HitsFlushed(m: FixMap, steps: seq<Step>, f: Finding) {
    forall k | 0 <= k < |f.hits| :: f.hits[k] < |steps| && FlushedInPlace(m, steps[f.hits[k]])
  }

  /** The latest collected store of byte `b`: no step behind it writes `b`. */
  lemma CollectedWriter(env: Env, steps: seq<Step>, hist: seq<TraceEvent>, r: AddressInfo, b: nat, i: nat)
    returns (w: nat)
    requires WellFormedTrace(hist) && Recorded(env, steps, hist) && r.Valid() && r.Has(b)
    requires !ScanBack(hist, r, []).stop.AtFlush?
    requires i < |steps| && steps[i].op.Writes(b)
    ensures i <= w < |steps| && w in ScanBack(hist, r, []).hits && steps[w].op.Writes(b)
  {
    hide ScanBack, AddressInfo.Overlaps;
    var f := ScanBack(hist, r, []);
    ScanBackHits(hist, r, []);
    assert Records(env, steps[i], hist[i]) && hist[i] in hist;
    OverlapsIff(hist[i].kind.range, r);
    assert hist[i].kind.range.Has(b) && hist[i].StoresInto(r);
    if Lowest(f) <= i {
      w := i;
    } else {
      var k := CoveringEvent(hist, r, b);
      w := f.hits[k];
      assert Records(env, steps[w], hist[w]);
    }
  }

  lemma {:induction false} CompleteHasFound(hist: seq<TraceEvent>, r: AddressInfo, collected: seq<AddressInfo>)
    requires ScanBack(hist, r, collected).stop.Complete?
    ensures ScanBack(hist, r, collected).events != []
    decreases |hist|
  {
    hide CoveredBy, AddressInfo.Overlaps;
    if hist != [] {
      var n, e := |hist| - 1, hist[|hist| - 1];
      if !e.StoresInto(r) && !e.FlushesInto(r) {
        CompleteHasFound(hist[..n], r, collected);
      }
    }
  }

  /** A scan that stopped before the start of the history has found a store of each byte of the range. */
  lemma CoveringEvent(hist: seq<TraceEvent>, r: AddressInfo, b: nat) returns (k: nat)
    requires r.Has(b) && ScanBack(hist, r, []).stop.Complete?
    ensures var es := ScanBack(hist, r, []).events; k < |es| && es[k].kind.Store? && es[k].kind.range.Has(b)
  {
    var f := ScanBack(hist, r, []);
    assert !CoveredBy([], r) by {
      assert r.Has(b) && !InAny([], b);
    }
    CompleteHasFound(hist, r, []);
    hide ScanBack;
    ScanBackStops(hist, r, []);
    assert [] + StoredRanges(f.events) == StoredRanges(f.events);
    assert CoveredBy(StoredRanges(f.events), r);
    RangesOfEvents(f.events, b);
    k :| 0 <= k < |f.events| && f.events[k].kind.Store? && f.events[k].kind.range.Has(b);
  }

  /** The repair of a bug, with a flush in place behind each collected store, works exactly when, in the
      repaired program, a fence follows the latest of these stores. The stores need not cover the range:
      bytes that were never stored have nothing to lose. */
  lemma RepairIff(env: Env, m: FixMap, steps: seq<Step>, hist: seq<TraceEvent>, r: AddressInfo)
    requires WellFormedTrace(hist) && Recorded(env, steps, hist) && r.Valid()
    requires !ScanBack(hist, r, []).stop.AtFlush? && ScanBack(hist, r, []).hits != []
    requires HitsFlushed(m, steps, ScanBack(hist, r, []))
    ensures AllPersisted(Repaired(m, steps), r) <==> FencedAfter(m, steps, Latest(ScanBack(hist, r, [])))
  {
    var f := ScanBack(hist, r, []);
    var ops := Repaired(m, steps);
    ScanBackHits(hist, r, []);
    var latest := f.hits[0];
    if FencedAfter(m, steps, latest) {
      forall b: nat | r.Has(b) ensures P.Run(ops).Persisted(b) {
        forall p | 0 <= p < |ops| && ops[p].Writes(b) ensures P.Secured(ops, p, b) {
          var i := StoreStep(m, steps, p, b);
          var w := CollectedWriter(env, steps, hist, r, b, i);
          PosPrefix(m, steps, i, w);
          SecuredBy(m, steps, w, b, latest, p);
        }
        P.PersistedIff(ops, b);
      }
    }
    if AllPersisted(ops, r) {
      var b := SharedByte(env, steps, hist, r, latest);
      P.PersistedIff(ops, b);
      At(m, steps, latest);
      assert ops[Pos(m, steps, latest)].Writes(b);
      SecuredNeedsFence(m, steps, latest, b);
    }
  }

  function Latest(f: Finding): int {
    if f.hits == [] then -1 else f.hits[0]
  }

  lemma StoreStep(m: FixMap, steps: seq<Step>, p: nat, b: nat) returns (i: nat)
    requires p < |Repaired(m, steps)| && Repaired(m, steps)[p].Writes(b)
    ensures i < |steps| && p == Pos(m, steps, i) && steps[i].op.Writes(b)
  {
    assert steps[..|steps|] == steps;
    i := StepOf(m, steps, |steps|, p);
    At(m, steps, i);
    if p != Pos(m, steps, i) {
      assert Repaired(m, steps)[p] == After(m, steps[i])[p - Pos(m, steps, i) - 1];
      assert false;
    }
  }

  lemma SharedByte(env: Env, steps: seq<Step>, hist: seq<TraceEvent>, r: AddressInfo, i: nat) returns (b: nat)
    requires WellFormedTrace(hist) && Recorded(env, steps, hist) && r.Valid()
    requires i < |hist| && hist[i].StoresInto(r)
    ensures r.Has(b) && steps[i].op.Writes(b)
  {
    assert hist[i] in hist && Records(env, steps[i], hist[i]);
    OverlapsIff(hist[i].kind.range, r);
    b :| hist[i].kind.range.Has(b) && r.Has(b);
  }

  /** Only the fixes of the collected stores write back lines of the range. */
  ghost predicate OnlyHitsFlush(m: FixMap, steps: seq<Step>, f: Finding, r: AddressInfo) {
    forall k, b: nat | 0 <= k < |steps| && k !in f.hits && r.Has(b) :: !FlushesAt(m, steps[k], b)
  }

  ghost predicate FlushesAt(m: FixMap, s: Step, b: nat) {
    s.op.WritesBack(b) || exists n :: 0 <= n < |After(m, s)| && After(m, s)[n].WritesBack(b)
  }

  /** The collected stores have the fix of the verdict, and each is within one cache line. */
  ghost predicate HitsFixed(m: FixMap, steps: seq<Step>, f: Finding) {
    forall k | 0 <= k < |f.hits| ::
      && f.hits[k] < |steps|
      && FixAt(m, steps[f.hits[k]].inst) == KindFor(f.MissingFlush(), f.MissingFence())
      && var op := steps[f.hits[k]].op;
         op.Store? && op.data != [] && P.Line(op.address) == P.Line(op.address + |op.data| - 1)
  }

  /** A scan that runs off the start of the trace gives a working repair exactly when it has passed a fence,
      so that flushes are asked for, and a fence follows the latest collected store. */
  lemma RunOffIff(env: Env, m: FixMap, steps: seq<Step>, hist: seq<TraceEvent>, r: AddressInfo)
    requires WellFormedTrace(hist) && Recorded(env, steps, hist) && r.Valid()
    requires ScanBack(hist, r, []).stop.RanOff? && ScanBack(hist, r, []).hits != []
    requires HitsFixed(m, steps, ScanBack(hist, r, [])) && OnlyHitsFlush(m, steps, ScanBack(hist, r, []), r)
    ensures AllPersisted(Repaired(m, steps), r)
            <==> FenceIn(hist, 0, |hist|) && FencedAfter(m, steps, Latest(ScanBack(hist, r, [])))
  {
    hide ScanBack, Repaired, After, FenceIn, FencedAfter;
    var f := ScanBack(hist, r, []);
    ScanBackHits(hist, r, []);
    ScanBackFence(hist, r, []);
    if f.fence {
      RepairIff(env, m, steps, hist, r);
    } else {
      var latest := f.hits[0];
      var b := SharedByte(env, steps, hist, r, latest);
      forall k | 0 <= k < |steps| ensures !FlushesAt(m, steps[k], b) {
        if k in f.hits {
          FenceOnlyFlushesNothing(m, steps[k], b);
        }
      }
      NeverFlushed(m, steps, latest, b);
    }
  }

  /** A byte that is stored and that no step of the repaired program flushes is not persisted. */
  lemma NeverFlushed(m: FixMap, steps: seq<Step>, i: nat, b: nat)
    requires i < |steps| && steps[i].op.Writes(b)
    requires forall k | 0 <= k < |steps| :: !FlushesAt(m, steps[k], b)
    ensures !P.Run(Repaired(m, steps)).Persisted(b)
  {
    hide Repaired, After, FlushesAt;
    var ops := Repaired(m, steps);
    At(m, steps, i);
    assert ops[Pos(m, steps, i)].Writes(b);
    forall j | 0 <= j < |ops| ensures !ops[j].WritesBack(b) {
      if ops[j].WritesBack(b) {
        var k := FlushingStep(m, steps, j, b);
        assert false;
      }
    }
    P.PersistedIff(ops, b);
  }

  lemma FlushingStep(m: FixMap, steps: seq<Step>, p: nat, b: nat) returns (k: nat)
    requires p < |Repaired(m, steps)| && Repaired(m, steps)[p].WritesBack(b)
    ensures k < |steps| && FlushesAt(m, steps[k], b)
  {
    hide Repaired, After;
    assert steps[..|steps|] == steps;
    k := StepOf(m, steps, |steps|, p);
    At(m, steps, k);
    if p != Pos(m, steps, k) {
      assert Repaired(m, steps)[p] == After(m, steps[k])[p - Pos(m, steps, k) - 1];
    }
  }

  lemma FenceOnlyFlushesNothing(m: FixMap, s: Step, b: nat)
    requires s.op.Store? && FixAt(m, s.inst).AddFenceOnly?
    ensures !FlushesAt(m, s, b)
  {
  }

  // ----- Soundness of the whole repair ---------------------------------------------------------------------

  /** The bug is one the fixer treats in place: the scan for it did not stop at a flush, the stores found
      are at mapped locations, and their fixes are still where step 1 put them. */
  ghost predicate Treated(env: Env, bugs: seq<nat>, bug: nat, m': FixMap)
    requires WellFormedTrace(env.trace) && forall k | 0 <= k < |bugs| :: bugs[k] < |env.trace|
  {
    && bug < |env.trace| && env.trace[bug].kind.AssertPersisted?
    && BugsAdds(env, bugs).Some?
    && var f := ScanBack(env.trace[..bug], env.trace[bug].kind.range, []);
       && !f.stop.AtFlush?
       && forall k | 0 <= k < |f.events| :: Kept(env, f.events[k], AddAll(map[], BugsAdds(env, bugs).value), m')
  }

  ghost predicate Kept(env: Env, e: TraceEvent, m: FixMap, m': FixMap) {
    && e.callstack != [] && env.Mapped(e.callstack[0])
    && forall i | StoreOf(env, env.fixLocs[e.callstack[0]], i) && FixLoc(i, i) in m ::
         FixLoc(i, i) in m' && m'[FixLoc(i, i)].kind == m[FixLoc(i, i)].kind
  }

  /** The fixes of all bugs together repair each bug that is treated in place with a verdict that asks for
      flushes: whatever the execution behind the trace was, after the repair its range is persisted at
      the bug exactly when a fence follows the latest collected store. That is always so when the verdict
      also asks for a fence, and otherwise when the original program has a fence there. A verdict asks
      for flushes unless the scan ran off without passing a fence. */
  lemma RepairSound(env: Env, bugs: seq<nat>, k: nat, m': FixMap, steps: seq<Step>)
    requires CallSitesApart(env) && WellFormedTrace(env.trace)
    requires forall k | 0 <= k < |bugs| :: bugs[k] < |env.trace|
    requires k < |bugs| && Treated(env, bugs, bugs[k], m')
    requires Recorded(env, steps, env.trace[..bugs[k]])
    ensures var r, hist := env.trace[bugs[k]].kind.range, env.trace[..bugs[k]];
            var f := ScanBack(hist, r, []);
            && (f.MissingFlush() <==> !f.stop.RanOff? || FenceIn(hist, 0, |hist|))
            && (f.MissingFlush() ==> (AllPersisted(Repaired(m', steps), r) <==> FencedAfter(m', steps, Latest(f))))
            && (f.MissingFlush() && f.MissingFence() ==> AllPersisted(Repaired(m', steps), r))
            && (f.MissingFlush() && FenceIn(hist, Latest(f), |hist|) ==> AllPersisted(Repaired(m', steps), r))
  {
    assert env.trace[bugs[k]].kind.AssertPersisted? && BugsAdds(env, bugs).Some?;
    hide BugsAdds, BugAdds, ScanBack, Repaired, FlushedInPlace, Treated, HitsFlushed, FencedAfter, AllPersisted,
      Recorded, FenceIn, FixAt, CallSitesApart;
    var r, hist := env.trace[bugs[k]].kind.range, env.trace[..bugs[k]];
    var f := ScanBack(hist, r, []);
    assert env.trace[bugs[k]] in env.trace;
    TreatedHasHits(env, bugs, k);
    TreatedStops(env, bugs, k, m');
    if f.stop.RanOff? {
      WholeFence(hist, r);
    }
    if f.MissingFlush() {
      LatestIsStore(hist, r);
      FoundFlushed(env, bugs, k, m', steps, hist);
      RepairIff(env, m', steps, hist, r);
      if f.MissingFence() {
        FencedByFix(m', steps, f.hits[0], VerdictKind(env, bugs[k]));
      }
      if FenceIn(hist, Latest(f), |hist|) {
        FencedByProgram(env, m', steps, hist, Latest(f));
      }
    }
  }

  lemma LatestIsStore(hist: seq<TraceEvent>, r: AddressInfo)
    requires !ScanBack(hist, r, []).stop.AtFlush? && ScanBack(hist, r, []).hits != []
    ensures var i := Latest(ScanBack(hist, r, [])); 0 <= i < |hist| && hist[i].kind.Store?
  {
    ScanBackHits(hist, r, []);
  }

  lemma WholeFence(hist: seq<TraceEvent>, r: AddressInfo)
    requires ScanBack(hist, r, []).stop.RanOff?
    ensures ScanBack(hist, r, []).fence <==> FenceIn(hist, 0, |hist|)
  {
    ScanBackHits(hist, r, []);
    ScanBackFence(hist, r, []);
  }

  lemma TreatedStops(env: Env, bugs: seq<nat>, k: nat, m': FixMap)
    requires WellFormedTrace(env.trace) && forall k | 0 <= k < |bugs| :: bugs[k] < |env.trace|
    requires k < |bugs| && Treated(env, bugs, bugs[k], m')
    ensures !ScanBack(env.trace[..bugs[k]], env.trace[bugs[k]].kind.range, []).stop.AtFlush?
  {
  }

  /** A fence follows a store whose fix has one. */
  lemma FencedByFix(m: FixMap, steps: seq<Step>, i: nat, kind: FixType)
    requires i < |steps| && FenceDuty in Duties(kind)
    requires Duties(kind) <= Duties(FixAt(m, steps[i].inst))
    ensures FencedAfter(m, steps, i)
  {
    assert FenceDuty in Duties(FixAt(m, steps[i].inst));
  }

  /** A fence follows where the program has one of its own. */
  lemma FencedByProgram(env: Env, m: FixMap, steps: seq<Step>, hist: seq<TraceEvent>, i: nat)
    requires Recorded(env, steps, hist) && i < |hist| && hist[i].kind.Store? && FenceIn(hist, i, |hist|)
    ensures FencedAfter(m, steps, i)
  {
    var j :| 0 <= j < |hist| && i <= j && hist[j].kind.Fence?;
    assert Records(env, steps[j], hist[j]);
    assert Fences(m, steps, j);
  }

  /** The stores found for the bug, on its own history or on another one, have their fixes in place. */
  lemma FoundFlushed(env: Env, bugs: seq<nat>, n: nat, m': FixMap, steps: seq<Step>, h: seq<TraceEvent>)
    requires CallSitesApart(env) && WellFormedTrace(env.trace) && WellFormedTrace(h)
    requires forall k | 0 <= k < |bugs| :: bugs[k] < |env.trace|
    requires n < |bugs| && Treated(env, bugs, bugs[n], m') && Recorded(env, steps, h)
    requires var r, history := env.trace[bugs[n]].kind.range, env.trace[..bugs[n]];
             var f0, f := ScanBack(h, r, []), ScanBack(history, r, []);
             f0.events == f.events && f.MissingFlush()
    ensures var f0 := ScanBack(h, env.trace[bugs[n]].kind.range, []);
            && HitsFlushed(m', steps, f0)
            && forall i | 0 <= i < |f0.hits| ::
                 f0.hits[i] < |steps| &&
                 Duties(VerdictKind(env, bugs[n])) <= Duties(FixAt(m', steps[f0.hits[i]].inst))
  {
    assert env.trace[bugs[n]].kind.AssertPersisted?;
    hide ScanBack, BugsAdds, AddAll, FlushedInPlace, Treated, VerdictKind, FixAt;
    var r := env.trace[bugs[n]].kind.range;
    var f0 := ScanBack(h, r, []);
    ScanBackHits(h, r, []);
    forall i | 0 <= i < |f0.hits|
      ensures f0.hits[i] < |steps| && FlushedInPlace(m', steps[f0.hits[i]])
      ensures Duties(VerdictKind(env, bugs[n])) <= Duties(FixAt(m', steps[f0.hits[i]].inst))
    {
      assert f0.events[i] in f0.events && Records(env, steps[f0.hits[i]], h[f0.hits[i]]);
      EventFlushed(env, bugs, n, m', f0.events[i], steps[f0.hits[i]]);
    }
  }

  lemma TreatedHasHits(env: Env, bugs: seq<nat>, k: nat)
    requires WellFormedTrace(env.trace) && forall k | 0 <= k < |bugs| :: bugs[k] < |env.trace|
    requires k < |bugs| && env.trace[bugs[k]].kind.AssertPersisted? && BugsAdds(env, bugs).Some?
    ensures ScanBack(env.trace[..bugs[k]], env.trace[bugs[k]].kind.range, []).hits != []
  {
    hide EventsAdds, ScanBack;
    BugsAddsMeaning(env, bugs, Add(FixLoc(Inst(0, 0), Inst(0, 0)), Desc(NoFix, [], 0)));
    assert BugAdds(env, bugs[k]).Some?;
  }

  /** A step that executed an operation found for a treated bug has a flush in place, and all duties
      of the verdict. */
  lemma EventFlushed(env: Env, bugs: seq<nat>, k: nat, m': FixMap, e: TraceEvent, s: Step)
    requires CallSitesApart(env) && WellFormedTrace(env.trace)
    requires forall k | 0 <= k < |bugs| :: bugs[k] < |env.trace|
    requires k < |bugs| && Treated(env, bugs, bugs[k], m')
    requires ScanBack(env.trace[..bugs[k]], env.trace[bugs[k]].kind.range, []).MissingFlush()
    requires e in ScanBack(env.trace[..bugs[k]], env.trace[bugs[k]].kind.range, []).events && Records(env, s, e)
    ensures FlushedInPlace(m', s) && Duties(VerdictKind(env, bugs[k])) <= Duties(FixAt(m', s.inst))
  {
    hide BugsAdds, BugAdds, AddAll, AllMerge, ScanBack, AddressInfo.Overlaps;
    var bug := bugs[k];
    var r, hist := env.trace[bug].kind.range, env.trace[..bug];
    var f := ScanBack(hist, r, []);
    ScanBackHits(hist, r, []);
    var n :| 0 <= n < |f.events| && f.events[n] == e;
    assert hist[f.hits[n]] == e && e.StoresInto(r);
    assert e in env.trace && e.WellFormed();
    assert Kept(env, e, AddAll(map[], BugsAdds(env, bugs).value), m');
    LocationFlushed(env, bugs, k, m', e, e, s);
  }

  /** So has a step that executed another store of one line at the same location. */
  lemma LocationFlushed(env: Env, bugs: seq<nat>, k: nat, m': FixMap, found: TraceEvent, e: TraceEvent, s: Step)
    requires CallSitesApart(env) && WellFormedTrace(env.trace)
    requires forall k | 0 <= k < |bugs| :: bugs[k] < |env.trace|
    requires k < |bugs| && Treated(env, bugs, bugs[k], m')
    requires var f := ScanBack(env.trace[..bugs[k]], env.trace[bugs[k]].kind.range, []);
             f.MissingFlush() && found in f.events
    requires e.kind.Store? && e.WellFormed() && Records(env, s, e) && e.callstack[0] == found.callstack[0]
    requires e == found || e.kind.range.IsSingleCacheLine()
    ensures FlushedInPlace(m', s) && Duties(VerdictKind(env, bugs[k])) <= Duties(FixAt(m', s.inst))
  {
    hide BugsAdds, BugAdds, AddAll, AllMerge, ScanBack, AddressInfo.Overlaps;
    var bug := bugs[k];
    var f := ScanBack(env.trace[..bug], env.trace[bug].kind.range, []);
    var n :| 0 <= n < |f.events| && f.events[n] == found;
    assert Kept(env, found, AddAll(map[], BugsAdds(env, bugs).value), m');
    BugsAreCharged(env, bugs, k, found, s.inst);
    StoreFixesArePrimitive(env, bugs, s.inst);
    EndExact(e.kind.range);
    assert FlushDuty in Duties(VerdictKind(env, bug));
  }

  /** A fix at a single store is never a raised one. */
  lemma StoreFixesArePrimitive(env: Env, bugs: seq<nat>, i: Inst)
    requires CallSitesApart(env) && WellFormedTrace(env.trace)
    requires forall k | 0 <= k < |bugs| :: bugs[k] < |env.trace|
    requires BugsAdds(env, bugs).Some? && i in env.stores
    ensures var m := AddAll(map[], BugsAdds(env, bugs).value);
            FixLoc(i, i) in m ==> m[FixLoc(i, i)].kind.Primitive()
  {
    hide BugsAdds, BugAdds, AddAll, AllMerge;
    var adds, fl := BugsAdds(env, bugs).value, FixLoc(i, i);
    StepOneNeverClashes(env, bugs);
    FixMapIsJoin(map[], adds, fl);
    if DutyAddedAt(adds, fl, CloneDuty) {
      var n :| 0 <= n < |adds| && adds[n].loc == fl && CloneDuty in Duties(adds[n].desc.kind);
      BugsAddsMeaning(env, bugs, adds[n]);
      var k :| 0 <= k < |bugs| && adds[n] in BugAdds(env, bugs[k]).value;
      BugAddsWellPlaced(env, bugs[k], adds[n]);
    }
  }

  /** When a single store covers the range, the repair is sound whatever the verdict. */
  lemma SingleStoreSound(env: Env, bugs: seq<nat>, k: nat, m': FixMap, steps: seq<Step>)
    requires CallSitesApart(env) && WellFormedTrace(env.trace)
    requires forall k | 0 <= k < |bugs| :: bugs[k] < |env.trace|
    requires k < |bugs| && Treated(env, bugs, bugs[k], m')
    requires Recorded(env, steps, env.trace[..bugs[k]])
    requires ScanBack(env.trace[..bugs[k]], env.trace[bugs[k]].kind.range, []).stop.Complete?
    requires |ScanBack(env.trace[..bugs[k]], env.trace[bugs[k]].kind.range, []).hits| == 1
    ensures AllPersisted(Repaired(m', steps), env.trace[bugs[k]].kind.range)
  {
    var r, hist := env.trace[bugs[k]].kind.range, env.trace[..bugs[k]];
    RepairSound(env, bugs, k, m', steps);
    ScanBackFence(hist, r, []);
  }
}
