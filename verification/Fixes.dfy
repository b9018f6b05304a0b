/**
 Fixes and the map that collects them (src/BugFixer.hpp:54-131). A fix is understood by its duties;
 adding a fix to the map joins the duties of the fixes at its location.
 */
module Fixes {
  import opened Traces
  import opened Mapping

  datatype FixType =
    | NoFix
    | AddFlushOnly
    | AddFenceOnly
    | AddFlushAndFence
    | AddPersistCallstackOptNoFence
    | AddPersistCallstackOpt
    | RemoveFlushOnly
    | RemoveFlushConditional
  {
    predicate Primitive() {
      AddFlushOnly? || AddFenceOnly? || AddFlushAndFence?
    }

    /** A fix that was raised to a call site and clones the functions below it. */
    predicate Subprogram() {
      AddPersistCallstackOptNoFence? || AddPersistCallstackOpt?
    }

    predicate Repairs() {
      Primitive() || Subprogram()
    }
  }

  /** What a fix has to bring about: that stores are flushed, that a fence follows, and that this is
      done in clones of the functions on a call stack. */
  datatype Duty = FlushDuty | FenceDuty | CloneDuty

  function Duties(t: FixType): set<Duty> {
    match t
    case AddFlushOnly => {FlushDuty}
    case AddFenceOnly => {FenceDuty}
    case AddFlushAndFence => {FlushDuty, FenceDuty}
    case AddPersistCallstackOptNoFence => {FlushDuty, CloneDuty}
    case AddPersistCallstackOpt => {FlushDuty, FenceDuty, CloneDuty}
    case _ => {}
  }

  /** The least fix with the given duties. */
  function LeastFix(duties: set<Duty>): FixType {
    if CloneDuty in duties then
      if FenceDuty in duties then AddPersistCallstackOpt else AddPersistCallstackOptNoFence
    else if FlushDuty in duties then
      if FenceDuty in duties then AddFlushAndFence else AddFlushOnly
    else if FenceDuty in duties then AddFenceOnly
    else NoFix
  }

  datatype FixDesc = FixDesc(kind: FixType, dynStack: seq<Location>, stackIdx: nat,
                             originals: seq<FixLoc>, points: seq<Inst>)
  {
    /** Equality of descriptions: the call stack is not looked at. */
    predicate SameAs(other: FixDesc) {
      kind == other.kind && originals == other.originals && points == other.points
    }

    /** Only conditional removals have originals and points. */
    predicate AsConstructed() {
      !kind.RemoveFlushConditional? ==> originals == [] && points == []
    }

    /** A description of one of the repairing kinds, as its constructor makes it. */
    predicate Repairing() {
      kind.Repairs() && originals == [] && points == []
    }
  }

  function Desc(kind: FixType, stack: seq<Location>, stackIdx: nat): FixDesc {
    FixDesc(kind, stack, stackIdx, [], [])
  }

  type FixMap = map<FixLoc, FixDesc>

  // ----- Adding one fix -------------------------------------------------------------------------

  /** `AssertFails` ends the fixer. */
  datatype AddResult = Added | Redundant | AssertFails

  /** The pairs of an old and a new fix at one location that the fixer has a rule for. */
  predicate Mergeable(a: FixDesc, b: FixDesc) {
    || a.SameAs(b)
    || (a.kind.Primitive() && (b.kind.Primitive() || b.kind.AddPersistCallstackOpt?))
    || (a.kind.AddPersistCallstackOpt? && b.kind.Repairs())
    || (a.kind.AddPersistCallstackOptNoFence? && b.kind.Repairs() && !b.kind.AddFlushOnly?)
    || (a.kind.RemoveFlushConditional? && b.kind.RemoveFlushConditional?)
  }

  /** The fix that then stands at the location: one with the duties of both. A new fix with all
      duties also brings its own call stack; in every other case the old stack stays. */
  function Joined(a: FixDesc, b: FixDesc): FixDesc {
    if a.SameAs(b) then a
    else if a.kind.RemoveFlushConditional? then
      a.(originals := a.originals + b.originals, points := a.points + b.points)
    else if b.kind.AddPersistCallstackOpt? && !a.kind.AddPersistCallstackOpt? then b
    else a.(kind := LeastFix(Duties(a.kind) + Duties(b.kind)))
  }

  function ResultOfAdd(m: FixMap, fl: FixLoc, desc: FixDesc): AddResult {
    if !fl.IsValid() || desc.kind.NoFix? then AssertFails
    else if fl !in m then Added
    else if !Mergeable(m[fl], desc) then AssertFails
    else if Joined(m[fl], desc) != m[fl] then Added
    else Redundant
  }

  function MapAfterAdd(m: FixMap, fl: FixLoc, desc: FixDesc): FixMap {
    if ResultOfAdd(m, fl, desc).AssertFails? then m
    else if fl in m then m[fl := Joined(m[fl], desc)]
    else m[fl := desc]
  }

  /** For repairing fixes the answer "added" means that the type of some entry changed. */
  lemma AddedIffTypeChanged(m: FixMap, fl: FixLoc, desc: FixDesc)
    requires desc.Repairing() && (fl in m ==> m[fl].Repairing())
    requires !ResultOfAdd(m, fl, desc).AssertFails?
    ensures var m' := MapAfterAdd(m, fl, desc);
            ResultOfAdd(m, fl, desc).Added? <==> fl !in m || m'[fl].kind != m[fl].kind
    ensures Duties(MapAfterAdd(m, fl, desc)[fl].kind)
            == (if fl in m then Duties(m[fl].kind) else {}) + Duties(desc.kind)
    ensures MapAfterAdd(m, fl, desc)[fl].Repairing()
  {
  }

  /** The last `assert(false)` of the fixer is not dead for fixes in general: among repairing fixes it is
      reached exactly when a raised fix without a fence meets a primitive one, except for a primitive that
      fences coming second. */
  lemma UnmergedPairs(a: FixDesc, b: FixDesc)
    requires a.Repairing() && b.Repairing()
    ensures !Mergeable(a, b) <==>
            || (a.kind.Primitive() && b.kind.AddPersistCallstackOptNoFence?)
            || (a.kind.AddPersistCallstackOptNoFence? && b.kind.AddFlushOnly?)
  {
  }

  /** Among all kinds of fixes, descriptions being as their constructors make them, it is also reached by every
      pair with a removal in it, except for two of the same kind. */
  lemma AllUnmergedPairs(a: FixDesc, b: FixDesc)
    requires a.AsConstructed() && b.AsConstructed() && !a.kind.NoFix? && !b.kind.NoFix?
    ensures !Mergeable(a, b) <==>
            || (a.kind.Primitive() && b.kind.AddPersistCallstackOptNoFence?)
            || (a.kind.AddPersistCallstackOptNoFence? && b.kind.AddFlushOnly?)
            || (a.kind != b.kind && !(a.kind.Repairs() && b.kind.Repairs()))
  {
  }

  /** So an addition fails exactly if its range spans blocks, if there is nothing to fix, or if it meets such a pair. */
  lemma AdditionFailsIff(m: FixMap, fl: FixLoc, desc: FixDesc)
    requires desc.AsConstructed() && (fl in m ==> m[fl].AsConstructed() && !m[fl].kind.NoFix?)
    ensures ResultOfAdd(m, fl, desc).AssertFails? <==>
              || fl.first.block != fl.last.block
              || desc.kind.NoFix?
              || (fl in m && m[fl].kind.Primitive() && desc.kind.AddPersistCallstackOptNoFence?)
              || (fl in m && m[fl].kind.AddPersistCallstackOptNoFence? && desc.kind.AddFlushOnly?)
              || (fl in m && m[fl].kind != desc.kind && !(m[fl].kind.Repairs() && desc.kind.Repairs()))
    ensures ResultOfAdd(m, fl, desc).AssertFails? ==> MapAfterAdd(m, fl, desc) == m
  {
    if fl in m && !desc.kind.NoFix? {
      AllUnmergedPairs(m[fl], desc);
    }
  }

  // ----- Adding many fixes ----------------------------------------------------------------------

  datatype Add = Add(loc: FixLoc, desc: FixDesc)

  /** The map after adding fixes one by one. */
  function AddAll(m: FixMap, adds: seq<Add>): FixMap {
    if adds == [] then m
    else
      var last := adds[|adds| - 1];
      MapAfterAdd(AddAll(m, adds[..|adds| - 1]), last.loc, last.desc)
  }

  /** None of these additions fails. */
  predicate AllMerge(m: FixMap, adds: seq<Add>) {
    adds != [] ==>
      var front, last := adds[..|adds| - 1], adds[|adds| - 1];
      AllMerge(m, front) && !ResultOfAdd(AddAll(m, front), last.loc, last.desc).AssertFails?
  }

  ghost predicate AddedAt(adds: seq<Add>, fl: FixLoc) {
    exists i :: 0 <= i < |adds| && adds[i].loc == fl
  }

  ghost predicate DutyAddedAt(adds: seq<Add>, fl: FixLoc, d: Duty) {
    exists i :: 0 <= i < |adds| && adds[i].loc == fl && d in Duties(adds[i].desc.kind)
  }

  predicate AllRepairing(m: FixMap) {
    forall fl | fl in m :: m[fl].Repairing()
  }

  /** At no location do raised fixes without a fence and primitive fixes come together. */
  ghost predicate Peaceful(m: FixMap, adds: seq<Add>) {
    && AllRepairing(m)
    && (forall i | 0 <= i < |adds| :: adds[i].loc.IsValid() && adds[i].desc.Repairing())
    && (forall i, j | 0 <= i < |adds| && 0 <= j < |adds| && adds[i].loc == adds[j].loc ::
          !(adds[i].desc.kind.Primitive() && adds[j].desc.kind.AddPersistCallstackOptNoFence?))
    && (forall i | 0 <= i < |adds| && adds[i].loc in m ::
          && !(adds[i].desc.kind.Primitive() && m[adds[i].loc].kind.AddPersistCallstackOptNoFence?)
          && !(m[adds[i].loc].kind.Primitive() && adds[i].desc.kind.AddPersistCallstackOptNoFence?))
  }

  /** Where a fix of one of the two families stands, one of that family was put. */
  ghost predicate FamiliesTraced(m: FixMap, adds: seq<Add>, m': FixMap) {
    forall fl | fl in m' ::
      && m'[fl].Repairing()
      && (m'[fl].kind.Primitive() ==>
            (fl in m && m[fl].kind.Primitive()) || exists i ::
              0 <= i < |adds| && adds[i].loc == fl && adds[i].desc.kind.Primitive())
      && (m'[fl].kind.AddPersistCallstackOptNoFence? ==>
            || (fl in m && m[fl].kind.AddPersistCallstackOptNoFence?)
            || exists i :: 0 <= i < |adds| && adds[i].loc == fl && adds[i].desc.kind.AddPersistCallstackOptNoFence?)
  }

  lemma {:induction false} PeacefulMerges(m: FixMap, adds: seq<Add>)
    requires Peaceful(m, adds)
    ensures AllMerge(m, adds) && FamiliesTraced(m, adds, AddAll(m, adds))
  {
    if adds != [] {
      var front, last := adds[..|adds| - 1], adds[|adds| - 1];
      assert adds == front + [last];
      PeacefulFront(m, front, last);
      PeacefulMerges(m, front);
      var before := AddAll(m, front);
      if last.loc in before {
        PeacefulLast(m, front, last, before);
        UnmergedPairs(before[last.loc], last.desc);
      }
      assert adds[|adds| - 1].loc.IsValid();
      FamiliesTracedStep(m, front, last);
    }
  }

  lemma PeacefulLast(m: FixMap, front: seq<Add>, last: Add, before: FixMap)
    requires Peaceful(m, front + [last]) && FamiliesTraced(m, front, before) && last.loc in before
    ensures !(before[last.loc].kind.Primitive() && last.desc.kind.AddPersistCallstackOptNoFence?)
    ensures !(before[last.loc].kind.AddPersistCallstackOptNoFence? && last.desc.kind.Primitive())
  {
    var adds := front + [last];
    assert adds[|front|] == last;
    assert forall i | 0 <= i < |front| :: front[i] == adds[i];
  }

  lemma FamiliesTracedStep(m: FixMap, front: seq<Add>, last: Add)
    requires FamiliesTraced(m, front, AddAll(m, front)) && last.desc.Repairing()
    ensures FamiliesTraced(m, front + [last], MapAfterAdd(AddAll(m, front), last.loc, last.desc))
  {
    var adds, before := front + [last], AddAll(m, front);
    var after := MapAfterAdd(before, last.loc, last.desc);
    assert adds[|front|] == last;
    assert forall i | 0 <= i < |front| :: adds[i] == front[i];
    forall fl | fl in after
      ensures after[fl].Repairing()
      ensures after[fl].kind.Primitive() ==>
                (fl in m && m[fl].kind.Primitive()) || exists i ::
                  0 <= i < |adds| && adds[i].loc == fl && adds[i].desc.kind.Primitive()
      ensures after[fl].kind.AddPersistCallstackOptNoFence? ==>
                || (fl in m && m[fl].kind.AddPersistCallstackOptNoFence?)
                || exists i :: 0 <= i < |adds| && adds[i].loc == fl && adds[i].desc.kind.AddPersistCallstackOptNoFence?
    {
      if fl in before {
        if before[fl].kind.Primitive() && !(fl in m && m[fl].kind.Primitive()) {
          var i :| 0 <= i < |front| && front[i].loc == fl && front[i].desc.kind.Primitive();
          assert adds[i].loc == fl && adds[i].desc.kind.Primitive();
        }
        if before[fl].kind.AddPersistCallstackOptNoFence? && !(fl in m && m[fl].kind.AddPersistCallstackOptNoFence?) {
          var i :| 0 <= i < |front| && front[i].loc == fl && front[i].desc.kind.AddPersistCallstackOptNoFence?;
          assert adds[i].loc == fl && adds[i].desc.kind.AddPersistCallstackOptNoFence?;
        }
      }
    }
  }

  /** The fix map is a join: the type that ends up at a location has exactly the duties of the
      fixes added there. */
  lemma {:induction false} FixMapIsJoin(m: FixMap, adds: seq<Add>, fl: FixLoc)
    requires Peaceful(m, adds)
    ensures fl in AddAll(m, adds) <==> fl in m || AddedAt(adds, fl)
    ensures fl in AddAll(m, adds) ==> AddAll(m, adds)[fl].Repairing()
    ensures fl in AddAll(m, adds) ==>
              forall d :: d in Duties(AddAll(m, adds)[fl].kind)
                <==> (fl in m && d in Duties(m[fl].kind)) || DutyAddedAt(adds, fl, d)
  {
    if adds != [] {
      var front, last := adds[..|adds| - 1], adds[|adds| - 1];
      assert adds == front + [last];
      PeacefulFront(m, front, last);
      FixMapIsJoin(m, front, fl);
      PeacefulMerges(m, adds);
      AddedAtLast(front, last, fl);
      JoinStep(AddAll(m, front), last, fl);
    }
  }

  lemma PeacefulFront(m: FixMap, front: seq<Add>, last: Add)
    requires Peaceful(m, front + [last])
    ensures Peaceful(m, front)
  {
    var adds := front + [last];
    assert forall i | 0 <= i < |front| :: front[i] == adds[i];
  }

  lemma AddedAtLast(front: seq<Add>, last: Add, fl: FixLoc)
    ensures AddedAt(front + [last], fl) <==> AddedAt(front, fl) || last.loc == fl
    ensures forall d :: DutyAddedAt(front + [last], fl, d)
                        <==> DutyAddedAt(front, fl, d) || (last.loc == fl && d in Duties(last.desc.kind))
  {
    var adds := front + [last];
    assert adds[|front|] == last;
    assert forall i | 0 <= i < |front| :: front[i] == adds[i];
  }

  lemma JoinStep(m: FixMap, a: Add, fl: FixLoc)
    requires a.desc.Repairing() && (fl in m ==> m[fl].Repairing())
    requires !ResultOfAdd(m, a.loc, a.desc).AssertFails?
    ensures var m' := MapAfterAdd(m, a.loc, a.desc);
            && (fl in m' <==> fl in m || a.loc == fl)
            && (fl in m' ==> m'[fl].Repairing())
            && (fl in m' ==> Duties(m'[fl].kind)
                             == (if fl in m then Duties(m[fl].kind) else {})
                               + (if a.loc == fl then Duties(a.desc.kind) else {}))
  {
    if a.loc == fl {
      AddedIffTypeChanged(m, fl, a.desc);
    }
  }

  /** The order in which fixes are added, and how often, does not matter for the locations and types
      of the map. */
  lemma OrderOfFixesIrrelevant(adds: seq<Add>, adds': seq<Add>, fl: FixLoc)
    requires Peaceful(map[], adds) && forall a :: a in adds <==> a in adds'
    ensures fl in AddAll(map[], adds) <==> fl in AddAll(map[], adds')
    ensures fl in AddAll(map[], adds) ==> AddAll(map[], adds)[fl].kind == AddAll(map[], adds')[fl].kind
  {
    assert Peaceful(map[], adds') by {
      forall i | 0 <= i < |adds'| ensures adds'[i].loc.IsValid() && adds'[i].desc.Repairing() {
        assert adds'[i] in adds;
      }
      forall i, j | 0 <= i < |adds'| && 0 <= j < |adds'| && adds'[i].loc == adds'[j].loc
        ensures !(adds'[i].desc.kind.Primitive() && adds'[j].desc.kind.AddPersistCallstackOptNoFence?)
      {
        assert adds'[i] in adds && adds'[j] in adds;
      }
    }
    FixMapIsJoin(map[], adds, fl);
    FixMapIsJoin(map[], adds', fl);
    AddedAtMembers(adds, adds', fl);
    AddedAtMembers(adds', adds, fl);
    if fl in AddAll(map[], adds) {
      var t, t' := AddAll(map[], adds)[fl].kind, AddAll(map[], adds')[fl].kind;
      assert forall d :: d in Duties(t) <==> d in Duties(t');
      SameDutiesSameType(t, t');
    }
  }

  lemma AddedAtMembers(xs: seq<Add>, ys: seq<Add>, fl: FixLoc)
    requires forall x :: x in xs ==> x in ys
    ensures AddedAt(xs, fl) ==> AddedAt(ys, fl)
    ensures forall d :: DutyAddedAt(xs, fl, d) ==> DutyAddedAt(ys, fl, d)
  {
    if AddedAt(xs, fl) {
      var i :| 0 <= i < |xs| && xs[i].loc == fl;
      assert xs[i] in ys;
    }
    forall d | DutyAddedAt(xs, fl, d) ensures DutyAddedAt(ys, fl, d) {
      var i :| 0 <= i < |xs| && xs[i].loc == fl && d in Duties(xs[i].desc.kind);
      assert xs[i] in ys;
    }
  }

  lemma SameDutiesSameType(t: FixType, t': FixType)
    requires t.Repairs() && t'.Repairs()
    requires forall d :: d in Duties(t) <==> d in Duties(t')
    ensures t == t'
  {
    assert FlushDuty in Duties(t) <==> FlushDuty in Duties(t');
    assert FenceDuty in Duties(t) <==> FenceDuty in Duties(t');
    assert CloneDuty in Duties(t) <==> CloneDuty in Duties(t');
  }

  /** Types and locations are all that the map conserves: of two fixes at one place, the second replaces the call
      stack of the first exactly if it is the first raised fix with a fence. */
  lemma SecondStackReplacesFirst(fl: FixLoc, a: FixDesc, b: FixDesc)
    requires fl.IsValid() && a.Repairing() && b.Repairing() && AllMerge(map[], [Add(fl, a), Add(fl, b)])
    ensures AddAll(map[], [Add(fl, a), Add(fl, b)]).Keys == {fl}
    ensures AddAll(map[], [Add(fl, a), Add(fl, b)])[fl].dynStack
            == if b.kind.AddPersistCallstackOpt? && !a.kind.AddPersistCallstackOpt? then b.dynStack else a.dynStack
  {
    var x, y := Add(fl, a), Add(fl, b);
    assert [x, y][..1] == [x] && [x][..0] == [];
    assert AddAll(map[], [x]) == map[fl := a];
    assert AddAll(map[], [x, y]) == map[fl := Joined(a, b)];
  }
}
