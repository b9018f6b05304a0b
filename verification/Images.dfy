/**
 What a function looks like after any number of changes by the fixer (src/FixGenerator.cpp:429-665): each instruction
 of the original is still there, a call possibly redirected, with added flushes and fences behind it.
 */
module Images {
  import opened Fixes
  import opened Ir
  import opened Flushing
  import opened FixGeneration
  import opened Application

  /** What is put behind a store, by its identity and its pointer. */
  type Behinds = (nat, nat) -> seq<Instr>

  predicate AllRepairs(code: seq<Instr>) {
    forall i | i in code :: i.IsRepair()
  }

  predicate SameInstr(i: Instr, j: Instr) {
    i == j || (i.Call? && j.Call? && i.id == j.id)
  }

  /** A change that keeps every instruction, adds only flushes and fences, none of them behind what was added before,
      and puts `add` behind the stores. */
  ghost predicate Adds(change: Instr -> seq<Instr>, add: Behinds) {
    forall i ::
      && change(i) != [] && SameInstr(change(i)[0], i) && AllRepairs(change(i)[1..])
      && (i.IsRepair() ==> change(i) == [i])
      && (i.Store? ==> change(i) == [i] + add(i.id, i.ptr))
  }

  /** `f` is `f0` after such a change. */
  ghost predicate Image(f0: Function, f: Function, add: Behinds) {
    exists change :: Adds(change, add) && f == ExpandFunction(f0, change)
  }

  // ----- The changes of the fixer ---------------------------------------------------------------------------

  const NOTHING: Behinds := (id: nat, ptr: nat) => []

  function FlushBehind(pm: PmDesc, fn: Name): Behinds {
    (id: nat, ptr: nat) => if pm.IsFlushPoint(fn, ptr) then [Flush(ptr, true)] else []
  }

  function FixBehind(at: nat, kind: FixType): Behinds {
    (id: nat, ptr: nat) => if id == at then Behind(kind, ptr) else []
  }

  lemma FlushAllAdds(pm: PmDesc, fn: Name)
    ensures Adds(FlushAll(pm, fn), FlushBehind(pm, fn))
  {
  }

  lemma FixStoreAdds(id: nat, kind: FixType)
    requires kind.Primitive()
    ensures Adds(FixStore(id, FlushDuty in Duties(kind), FenceDuty in Duties(kind)), FixBehind(id, kind))
  {
    hide FixStore, Duties;
    forall i
      ensures var c := FixStore(id, FlushDuty in Duties(kind), FenceDuty in Duties(kind))(i);
              && c != [] && c[0] == i && AllRepairs(c[1..])
              && (i.IsRepair() ==> c == [i])
              && (i.Store? ==> c == [i] + FixBehind(id, kind)(i.id, i.ptr))
    {
      FixStoreIs(i, id, kind);
    }
  }

  lemma RedirectedAdds(ids: seq<nat>, from: Name, to: Name)
    ensures Adds(Redirected(ids, from, to), NOTHING)
  {
  }

  lemma FenceCallAdds(id: nat)
    ensures Adds(FenceCall(id), NOTHING)
  {
  }

  // ----- One change after another ---------------------------------------------------------------------------

  lemma {:induction false} RepairsStay(code: seq<Instr>, change: Instr -> seq<Instr>, add: Behinds)
    requires Adds(change, add) && AllRepairs(code)
    ensures Expand(code, change) == code
  {
    if code != [] {
      var front, i := code[..|code| - 1], code[|code| - 1];
      assert code == front + [i] && i in code;
      RepairsStay(front, change, add);
    }
  }

  /** What two changes make of one instruction. */
  lemma TwoChanges(i: Instr, one: Instr -> seq<Instr>, two: Instr -> seq<Instr>, a: Behinds, b: Behinds)
    requires Adds(one, a) && Adds(two, b)
    ensures var c := Expand(one(i), two);
            && c == two(one(i)[0]) + one(i)[1..]
            && c != [] && SameInstr(c[0], i) && AllRepairs(c[1..])
            && (i.IsRepair() ==> c == [i])
            && (i.Store? ==> c == [i] + (b(i.id, i.ptr) + a(i.id, i.ptr)))
  {
    hide Expand;
    var h, t := one(i)[0], one(i)[1..];
    assert one(i) == [h] + t;
    ExpandHead(h, t, two);
    RepairsStay(t, two, b);
    var c := two(h) + t;
    assert c[1..] == two(h)[1..] + t;
  }

  lemma ImageThen(f0: Function, f: Function, a: Behinds, two: Instr -> seq<Instr>, b: Behinds)
    requires Image(f0, f, a) && Adds(two, b)
    ensures Image(f0, ExpandFunction(f, two), (id: nat, ptr: nat) => b(id, ptr) + a(id, ptr))
  {
    hide Expand, Adds;
    var one :| Adds(one, a) && f == ExpandFunction(f0, one);
    var both := (i: Instr) => Expand(one(i), two);
    BothAdd(one, two, a, b);
    forall k | 0 <= k < |f0.blocks|
      ensures Expand(Expand(f0.blocks[k].code, one), two) == Expand(f0.blocks[k].code, both)
    {
      ExpandTwice(f0.blocks[k].code, one, two, both);
    }
    assert ExpandFunction(f, two) == ExpandFunction(f0, both);
  }

  lemma BothAdd(one: Instr -> seq<Instr>, two: Instr -> seq<Instr>, a: Behinds, b: Behinds)
    requires Adds(one, a) && Adds(two, b)
    ensures Adds((i: Instr) => Expand(one(i), two), (id: nat, ptr: nat) => b(id, ptr) + a(id, ptr))
  {
    hide Expand, AllRepairs, SameInstr;
    var both, ab := (i: Instr) => Expand(one(i), two), (id: nat, ptr: nat) => b(id, ptr) + a(id, ptr);
    forall i
      ensures && both(i) != [] && SameInstr(both(i)[0], i) && AllRepairs(both(i)[1..])
              && (i.IsRepair() ==> both(i) == [i])
              && (i.Store? ==> both(i) == [i] + ab(i.id, i.ptr))
    {
      TwoChanges(i, one, two, a, b);
    }
  }

  /** Nothing is said of a function but what stands behind its stores. */
  lemma ImageSame(f0: Function, f: Function, a: Behinds, b: Behinds)
    requires Image(f0, f, a) && forall id, ptr :: a(id, ptr) == b(id, ptr)
    ensures Image(f0, f, b)
  {
    var change :| Adds(change, a) && f == ExpandFunction(f0, change);
    assert Adds(change, b);
  }

  lemma ImageUnchanged(f: Function)
    ensures Image(f, f, NOTHING)
  {
    hide Expand;
    var same := (i: Instr) => [i];
    assert Adds(same, NOTHING);
    forall k | 0 <= k < |f.blocks| ensures Expand(f.blocks[k].code, same) == f.blocks[k].code {
      NothingChanged(f.blocks[k].code, same);
    }
    assert f == ExpandFunction(f, same);
  }

  /** A change that puts nothing behind stores keeps what there is. */
  lemma ImageKept(f0: Function, f: Function, a: Behinds, two: Instr -> seq<Instr>)
    requires Image(f0, f, a) && Adds(two, NOTHING)
    ensures Image(f0, ExpandFunction(f, two), a)
  {
    hide Adds, Image;
    ImageThen(f0, f, a, two, NOTHING);
    forall id, ptr ensures NOTHING(id, ptr) + a(id, ptr) == a(id, ptr) {
      assert [] + a(id, ptr) == a(id, ptr);
    }
    ImageSame(f0, ExpandFunction(f, two), (id: nat, ptr: nat) => NOTHING(id, ptr) + a(id, ptr), a);
  }

  // ----- The fence behind a store ---------------------------------------------------------------------------

  /** Behind instruction `k`, with only added instructions in between, is an added fence. */
  ghost predicate FenceSoon(code: seq<Instr>, k: nat) {
    exists m :: k < m < |code| && code[m] == Fence(true) && forall n | k < n < m :: code[n].IsRepair()
  }

  predicate IsStore(i: Instr, id: nat) {
    i.Store? && i.id == id
  }

  ghost predicate FencedStoreCode(code: seq<Instr>, id: nat) {
    forall k | 0 <= k < |code| && IsStore(code[k], id) :: FenceSoon(code, k)
  }

  /** Every store `id` of the function has an added fence behind it. */
  ghost predicate FencedStore(f: Function, id: nat) {
    forall b | b in f.blocks :: FencedStoreCode(b.code, id)
  }

  lemma FenceSoonFront(xs: seq<Instr>, ys: seq<Instr>, k: nat)
    requires k < |xs| && ys != [] && !ys[0].IsRepair()
    ensures FenceSoon(xs + ys, k) <==> FenceSoon(xs, k)
  {
    var all := xs + ys;
    if m :| k < m < |xs| && xs[m] == Fence(true) && forall n | k < n < m :: xs[n].IsRepair() {
      assert all[m] == Fence(true) && forall n | k < n < m :: all[n] == xs[n];
    }
    if m :| k < m < |all| && all[m] == Fence(true) && forall n | k < n < m :: all[n].IsRepair() {
      assert all[|xs|] == ys[0];
      assert m < |xs| && xs[m] == all[m] && forall n | k < n < m :: all[n] == xs[n];
    }
  }

  lemma FenceSoonBack(xs: seq<Instr>, ys: seq<Instr>, k: nat)
    requires k < |ys|
    ensures FenceSoon(xs + ys, |xs| + k) <==> FenceSoon(ys, k)
  {
    var all := xs + ys;
    if m :| k < m < |ys| && ys[m] == Fence(true) && forall n | k < n < m :: ys[n].IsRepair() {
      assert all[|xs| + m] == Fence(true);
      assert forall n | |xs| + k < n < |xs| + m :: all[n] == ys[n - |xs|];
    }
    if m :| |xs| + k < m < |all| && all[m] == Fence(true) && forall n | |xs| + k < n < m :: all[n].IsRepair() {
      assert ys[m - |xs|] == Fence(true);
      assert forall n | k < n < m - |xs| :: ys[n] == all[|xs| + n];
    }
  }

  lemma FencedStoreConcat(xs: seq<Instr>, ys: seq<Instr>, id: nat)
    requires ys != [] && !ys[0].IsRepair()
    ensures FencedStoreCode(xs + ys, id) <==> FencedStoreCode(xs, id) && FencedStoreCode(ys, id)
  {
    hide FenceSoon;
    var all := xs + ys;
    forall k | 0 <= k < |xs| ensures all[k] == xs[k] && (FenceSoon(all, k) <==> FenceSoon(xs, k)) {
      FenceSoonFront(xs, ys, k);
    }
    forall k | 0 <= k < |ys| ensures all[|xs| + k] == ys[k] && (FenceSoon(all, |xs| + k) <==> FenceSoon(ys, k)) {
      FenceSoonBack(xs, ys, k);
    }
    if FencedStoreCode(all, id) {
      forall k | 0 <= k < |ys| && IsStore(ys[k], id) ensures FenceSoon(ys, k) {
        assert IsStore(all[|xs| + k], id);
      }
    }
    if FencedStoreCode(xs, id) && FencedStoreCode(ys, id) {
      forall k | 0 <= k < |all| && IsStore(all[k], id) ensures FenceSoon(all, k) {
        if k >= |xs| {
          assert all[k] == ys[k - |xs|] && FenceSoon(ys, k - |xs|);
        }
      }
    }
  }

  /** The image of one instruction. */
  lemma FencedImage(i: Instr, change: Instr -> seq<Instr>, add: Behinds, id: nat)
    requires Adds(change, add) && !i.IsRepair()
    ensures change(i) != [] && !change(i)[0].IsRepair()
    ensures FencedStoreCode(change(i), id) <==> (IsStore(i, id) ==> Fence(true) in add(i.id, i.ptr))
  {
    var c := change(i);
    assert forall k | 1 <= k < |c| :: c[k] == c[1..][k - 1] && c[k] in c[1..];
    if IsStore(i, id) {
      assert c[1..] == add(i.id, i.ptr);
      if Fence(true) in add(i.id, i.ptr) {
        var m :| 0 <= m < |c[1..]| && c[1..][m] == Fence(true);
        assert c[m + 1] == Fence(true);
        assert FenceSoon(c, 0);
      }
      if FencedStoreCode(c, id) {
        assert IsStore(c[0], id) && FenceSoon(c, 0);
      }
    }
  }

  predicate StoreIn(code: seq<Instr>, id: nat, ptr: nat) {
    Store(id, ptr) in code
  }

  lemma {:induction false} FencedExpand(code: seq<Instr>, change: Instr -> seq<Instr>, add: Behinds, id: nat)
    requires Adds(change, add) && forall i | i in code :: !i.IsRepair()
    ensures FencedStoreCode(Expand(code, change), id) <==>
              forall ptr | StoreIn(code, id, ptr) :: Fence(true) in add(id, ptr)
  {
    hide Adds, FenceSoon;
    if code == [] {
    } else {
      var front, i := code[..|code| - 1], code[|code| - 1];
      assert code == front + [i];
      FencedExpand(front, change, add, id);
      FencedImage(i, change, add, id);
      FencedStoreConcat(Expand(front, change), change(i), id);
      assert forall ptr :: StoreIn(code, id, ptr) <==> StoreIn(front, id, ptr) || i == Store(id, ptr);
    }
  }

  ghost predicate HasStore(f: Function, id: nat, ptr: nat) {
    exists b :: b in f.blocks && StoreIn(b.code, id, ptr)
  }

  predicate PlainFunction(f: Function) {
    forall b | b in f.blocks :: forall i | i in b.code :: !i.IsRepair()
  }

  /** Whether a function has a fence behind a store is told by what has been put there. */
  lemma FencedStoreIff(f0: Function, f: Function, add: Behinds, id: nat)
    requires PlainFunction(f0) && Image(f0, f, add)
    ensures FencedStore(f, id) <==> forall ptr | HasStore(f0, id, ptr) :: Fence(true) in add(id, ptr)
  {
    hide Expand, Adds, FencedStoreCode, StoreIn;
    var change :| Adds(change, add) && f == ExpandFunction(f0, change);
    forall k | 0 <= k < |f0.blocks|
      ensures FencedStoreCode(f.blocks[k].code, id) <==>
                forall ptr | StoreIn(f0.blocks[k].code, id, ptr) :: Fence(true) in add(id, ptr)
    {
      assert f0.blocks[k] in f0.blocks;
      FencedExpand(f0.blocks[k].code, change, add, id);
    }
    if FencedStore(f, id) {
      forall ptr | HasStore(f0, id, ptr) ensures Fence(true) in add(id, ptr) {
        var b :| b in f0.blocks && StoreIn(b.code, id, ptr);
        var k :| 0 <= k < |f0.blocks| && f0.blocks[k] == b;
        assert f.blocks[k] in f.blocks;
      }
    }
    if forall ptr | HasStore(f0, id, ptr) :: Fence(true) in add(id, ptr) {
      forall b | b in f.blocks ensures FencedStoreCode(b.code, id) {
        var k :| 0 <= k < |f.blocks| && f.blocks[k] == b;
        assert f0.blocks[k] in f0.blocks;
        forall ptr | StoreIn(f0.blocks[k].code, id, ptr) ensures Fence(true) in add(id, ptr) {
          assert HasStore(f0, id, ptr);
        }
      }
    }
  }

  // ----- What is directly behind a store --------------------------------------------------------------------

  ghost predicate BehindAt(code: seq<Instr>, k: nat, more: seq<Instr>)
    requires k < |code|
  {
    k + 1 + |more| <= |code| && code[k + 1..k + 1 + |more|] == more
  }

  ghost predicate BehindCode(code: seq<Instr>, id: nat, add: Behinds) {
    forall k | 0 <= k < |code| && IsStore(code[k], id) :: BehindAt(code, k, add(id, code[k].ptr))
  }

  lemma BehindConcat(xs: seq<Instr>, ys: seq<Instr>, id: nat, add: Behinds)
    requires BehindCode(xs, id, add) && BehindCode(ys, id, add)
    ensures BehindCode(xs + ys, id, add)
  {
    var all := xs + ys;
    forall k | 0 <= k < |all| && IsStore(all[k], id) ensures BehindAt(all, k, add(id, all[k].ptr)) {
      var more := add(id, all[k].ptr);
      if k < |xs| {
        assert all[k] == xs[k] && BehindAt(xs, k, more);
        assert all[k + 1..k + 1 + |more|] == xs[k + 1..k + 1 + |more|];
      } else {
        var j := k - |xs|;
        assert all[k] == ys[j] && BehindAt(ys, j, more);
        assert all[k + 1..k + 1 + |more|] == ys[j + 1..j + 1 + |more|];
      }
    }
  }

  lemma BehindImage(i: Instr, change: Instr -> seq<Instr>, add: Behinds, id: nat)
    requires Adds(change, add)
    ensures BehindCode(change(i), id, add)
  {
    var c := change(i);
    assert forall k | 1 <= k < |c| :: c[k] == c[1..][k - 1] && c[k] in c[1..];
    if IsStore(c[0], id) {
      assert c == [i] + add(i.id, i.ptr);
      assert c[1..1 + |add(i.id, i.ptr)|] == add(i.id, i.ptr);
      assert BehindAt(c, 0, add(id, c[0].ptr));
    }
  }

  lemma {:induction false} BehindExpand(code: seq<Instr>, change: Instr -> seq<Instr>, add: Behinds, id: nat)
    requires Adds(change, add)
    ensures BehindCode(Expand(code, change), id, add)
  {
    hide Adds, BehindCode;
    if code == [] {
      BehindNothing(id, add);
    } else {
      var front, i := code[..|code| - 1], code[|code| - 1];
      BehindExpand(front, change, add, id);
      BehindImage(i, change, add, id);
      BehindConcat(Expand(front, change), change(i), id, add);
    }
  }

  lemma BehindNothing(id: nat, add: Behinds)
    ensures BehindCode([], id, add)
  {
  }

  /** Behind each store of the function stands what has been put there. */
  lemma BehindStores(f0: Function, f: Function, add: Behinds, id: nat)
    requires Image(f0, f, add)
    ensures forall b | b in f.blocks :: BehindCode(b.code, id, add)
  {
    hide Expand, Adds, BehindCode;
    var change :| Adds(change, add) && f == ExpandFunction(f0, change);
    forall b | b in f.blocks ensures BehindCode(b.code, id, add) {
      var k :| 0 <= k < |f.blocks| && f.blocks[k] == b;
      BehindExpand(f0.blocks[k].code, change, add, id);
    }
  }

  // ----- All that is behind a store -------------------------------------------------------------------------

  /** The added flushes and fences behind each store `id` are just these. */
  ghost predicate RunsAre(code: seq<Instr>, id: nat, add: Behinds) {
    forall k | 0 <= k < |code| && IsStore(code[k], id) :: RepairRun(code[k + 1..]) == add(id, code[k].ptr)
  }

  lemma {:induction false} RunEnds(xs: seq<Instr>, ys: seq<Instr>)
    requires ys != [] && !ys[0].IsRepair()
    ensures RepairRun(xs + ys) == RepairRun(xs)
  {
    if xs == [] {
      assert xs + ys == ys;
    } else {
      assert (xs + ys)[1..] == xs[1..] + ys && (xs + ys)[0] == xs[0];
      RunEnds(xs[1..], ys);
    }
  }

  lemma RunsConcat(xs: seq<Instr>, ys: seq<Instr>, id: nat, add: Behinds)
    requires RunsAre(xs, id, add) && RunsAre(ys, id, add) && ys != [] && !ys[0].IsRepair()
    ensures RunsAre(xs + ys, id, add)
  {
    hide RepairRun;
    var all := xs + ys;
    forall k | 0 <= k < |all| && IsStore(all[k], id) ensures RepairRun(all[k + 1..]) == add(id, all[k].ptr) {
      if k < |xs| {
        assert all[k] == xs[k] && all[k + 1..] == xs[k + 1..] + ys;
        RunEnds(xs[k + 1..], ys);
      } else {
        assert all[k] == ys[k - |xs|] && all[k + 1..] == ys[k - |xs| + 1..];
      }
    }
  }

  lemma RunOfImage(i: Instr, change: Instr -> seq<Instr>, add: Behinds, id: nat)
    requires Adds(change, add) && !i.IsRepair()
    ensures change(i) != [] && !change(i)[0].IsRepair() && RunsAre(change(i), id, add)
  {
    var c := change(i);
    assert forall k | 1 <= k < |c| :: c[k] == c[1..][k - 1] && c[k] in c[1..];
    if IsStore(c[0], id) {
      assert c[1..] == add(i.id, i.ptr);
      RunBefore(c[1..], []);
      assert c[1..] + [] == c[1..] && RepairRun([]) == [];
    }
  }

  lemma {:induction false} RunsExpand(code: seq<Instr>, change: Instr -> seq<Instr>, add: Behinds, id: nat)
    requires Adds(change, add) && forall i | i in code :: !i.IsRepair()
    ensures RunsAre(Expand(code, change), id, add)
  {
    hide Adds, RepairRun;
    if code == [] {
      RunsOfNothing(id, add);
    } else {
      var front, i := code[..|code| - 1], code[|code| - 1];
      assert code == front + [i];
      RunsExpand(front, change, add, id);
      RunOfImage(i, change, add, id);
      RunsConcat(Expand(front, change), change(i), id, add);
    }
  }

  lemma RunsOfNothing(id: nat, add: Behinds)
    ensures RunsAre([], id, add)
  {
  }

  /** In a function that had nothing added to it, what stands behind each store is exactly what has been put there. */
  lemma RunsOfStores(f0: Function, f: Function, add: Behinds, id: nat)
    requires PlainFunction(f0) && Image(f0, f, add)
    ensures forall b | b in f.blocks :: RunsAre(b.code, id, add)
  {
    hide Expand, Adds, RunsAre;
    var change :| Adds(change, add) && f == ExpandFunction(f0, change);
    forall b | b in f.blocks ensures RunsAre(b.code, id, add) {
      var k :| 0 <= k < |f.blocks| && f.blocks[k] == b;
      assert f0.blocks[k] in f0.blocks;
      RunsExpand(f0.blocks[k].code, change, add, id);
    }
  }
}
