/**
 The rewriting of the program (src/FixGenerator.cpp:171-336, src/FixGenerator.cpp:429-665). The module
 being fixed is changed in place: instructions are inserted, functions cloned, calls redirected.
 */
module FixGeneration {
  import opened Options
  import opened Ir
  import opened Flushing

  // ----- Rewriting code instruction by instruction ------------------------------------------------------------

  function Expand(code: seq<Instr>, change: Instr -> seq<Instr>): seq<Instr> {
    if code == [] then [] else Expand(code[..|code| - 1], change) + change(code[|code| - 1])
  }

  function ExpandFunction(f: Function, change: Instr -> seq<Instr>): Function {
    Function(seq(|f.blocks|,
                 i requires 0 <= i < |f.blocks| => Block(Expand(f.blocks[i].code, change), f.blocks[i].succs)))
  }

  lemma {:induction false} ExpandHead(i: Instr, rest: seq<Instr>, change: Instr -> seq<Instr>)
    ensures Expand([i] + rest, change) == change(i) + Expand(rest, change)
    decreases |rest|
  {
    var code := [i] + rest;
    if rest == [] {
      assert code[..0] == [] && code[0] == i;
      assert [] + change(i) == change(i) + [];
    } else {
      var n := |rest| - 1;
      assert code[..|code| - 1] == [i] + rest[..n] && code[|code| - 1] == rest[n];
      ExpandHead(i, rest[..n], change);
      Regroup(change(i), Expand(rest[..n], change), change(rest[n]));
    }
  }

  lemma Regroup(x: seq<Instr>, y: seq<Instr>, z: seq<Instr>)
    ensures (x + y) + z == x + (y + z)
  {
  }

  lemma {:induction false} ExpandConcat(xs: seq<Instr>, ys: seq<Instr>, change: Instr -> seq<Instr>)
    ensures Expand(xs + ys, change) == Expand(xs, change) + Expand(ys, change)
  {
    if ys == [] {
      assert xs + ys == xs && Expand(xs, change) + [] == Expand(xs, change);
    } else {
      var n := |ys| - 1;
      assert (xs + ys)[..|xs + ys| - 1] == xs + ys[..n];
      ExpandConcat(xs, ys[..n], change);
    }
  }

  lemma ExpandNothing(change: Instr -> seq<Instr>)
    ensures Expand([], change) == []
  {
  }

  lemma {:induction false} SameChange(code: seq<Instr>, one: Instr -> seq<Instr>, two: Instr -> seq<Instr>)
    requires forall i | i in code :: one(i) == two(i)
    ensures Expand(code, one) == Expand(code, two)
  {
    if code != [] {
      var front, i := code[..|code| - 1], code[|code| - 1];
      assert code == front + [i];
      SameChange(front, one, two);
    }
  }

  lemma {:induction false} NothingChanged(code: seq<Instr>, change: Instr -> seq<Instr>)
    requires forall i | i in code :: change(i) == [i]
    ensures Expand(code, change) == code
  {
    if code != [] {
      var front, i := code[..|code| - 1], code[|code| - 1];
      assert code == front + [i];
      NothingChanged(front, change);
    }
  }

  /** Behind each flush point, a flush of its pointer. */
  function FlushAll(pm: PmDesc, fn: Name): Instr -> seq<Instr> {
    (i: Instr) => if i.Store? && pm.IsFlushPoint(fn, i.ptr) then [i, Flush(i.ptr, true)] else [i]
  }

  /** Behind the store `id`, a flush, or a fence, or both in this order. */
  function FixStore(id: nat, flush: bool, fence: bool): Instr -> seq<Instr> {
    (i: Instr) => [i] + if i.Store? && i.id == id
                        then (if flush then [Flush(i.ptr, true)] else []) + (if fence then [Fence(true)] else [])
                        else []
  }

  function FenceCall(id: nat): Instr -> seq<Instr> {
    (i: Instr) => if i.Call? && i.id == id then [i, Fence(true)] else [i]
  }

  /** Calls of `from` at the given instructions become calls of `to`. */
  function Redirected(ids: seq<nat>, from: Name, to: Name): Instr -> seq<Instr> {
    (i: Instr) => if i.Call? && i.callee == from && i.id in ids then [Call(i.id, to)] else [i]
  }

  lemma {:induction false} EraseConcat(xs: seq<Instr>, ys: seq<Instr>)
    ensures EraseCode(xs + ys) == EraseCode(xs) + EraseCode(ys)
  {
    if xs == [] {
      assert xs + ys == ys && [] + EraseCode(ys) == EraseCode(ys);
    } else {
      assert (xs + ys)[0] == xs[0] && (xs + ys)[1..] == xs[1..] + ys;
      EraseConcat(xs[1..], ys);
    }
  }

  /** A change that does nothing but add flushes and fences and replace callees by clones does not
      show in the erased code. */
  ghost predicate Invisible(change: Instr -> seq<Instr>) {
    forall i :: EraseCode(change(i)) == EraseCode([i])
  }

  lemma {:induction false} ExpandErased(code: seq<Instr>, change: Instr -> seq<Instr>)
    requires Invisible(change)
    ensures EraseCode(Expand(code, change)) == EraseCode(code)
  {
    if code != [] {
      var front, i := code[..|code| - 1], code[|code| - 1];
      assert code == front + [i];
      ExpandErased(front, change);
      EraseConcat(Expand(front, change), change(i));
      EraseConcat(front, [i]);
    }
  }

  lemma ExpandFunctionErased(f: Function, change: Instr -> seq<Instr>)
    requires Invisible(change)
    ensures EraseFunction(ExpandFunction(f, change)) == EraseFunction(f)
  {
    forall i | 0 <= i < |f.blocks| ensures EraseBlock(ExpandFunction(f, change).blocks[i]) == EraseBlock(f.blocks[i]) {
      ExpandErased(f.blocks[i].code, change);
    }
  }

  lemma EraseOfOne(i: Instr)
    ensures EraseCode([i]) == if i.IsRepair() then [] else if i.Call? then [Call(i.id, Origin(i.callee))] else [i]
    ensures i.IsRepair() ==> forall xs :: EraseCode(xs + [i]) == EraseCode(xs)
  {
    assert [i][1..] == [];
    if i.IsRepair() {
      forall xs ensures EraseCode(xs + [i]) == EraseCode(xs) {
        EraseConcat(xs, [i]);
      }
    }
  }

  lemma RepairErased(x: Instr, y: Instr)
    requires y.IsRepair()
    ensures EraseCode([x, y]) == EraseCode([x])
  {
    EraseOfOne(y);
    assert [x, y] == [x] + [y];
  }

  lemma FlushAllInvisible(pm: PmDesc, fn: Name)
    ensures Invisible(FlushAll(pm, fn))
  {
    forall i ensures EraseCode(FlushAll(pm, fn)(i)) == EraseCode([i]) {
      if i.Store? {
        RepairErased(i, Flush(i.ptr, true));
      }
    }
  }

  lemma FenceCallInvisible(id: nat)
    ensures Invisible(FenceCall(id))
  {
    forall i ensures EraseCode(FenceCall(id)(i)) == EraseCode([i]) {
      RepairErased(i, Fence(true));
    }
  }

  lemma FixStoreInvisible(id: nat, flush: bool, fence: bool)
    ensures Invisible(FixStore(id, flush, fence))
  {
    forall i ensures EraseCode(FixStore(id, flush, fence)(i)) == EraseCode([i]) {
      assert [i] + [] == [i];
      if i.Store? {
        RepairErased(i, Fence(true));
        RepairErased(i, Flush(i.ptr, true));
        EraseOfOne(Fence(true));
        assert [i] + ([] + []) == [i];
        assert [i] + ([] + [Fence(true)]) == [i, Fence(true)];
        assert [i] + ([Flush(i.ptr, true)] + []) == [i, Flush(i.ptr, true)];
        assert [i] + ([Flush(i.ptr, true)] + [Fence(true)]) == [i, Flush(i.ptr, true)] + [Fence(true)];
      }
    }
  }

  lemma RedirectedInvisible(ids: seq<nat>, from: Name, to: Name)
    requires Origin(from) == Origin(to)
    ensures Invisible(Redirected(ids, from, to))
  {
    forall i ensures EraseCode(Redirected(ids, from, to)(i)) == EraseCode([i]) {
      EraseOfOne(i);
      if i.Call? {
        EraseOfOne(Call(i.id, to));
      }
    }
  }

  // ----- Calls in rewritten code ---------------------------------------------------------------------------------

  /** Every call in the change of an instruction is that instruction, or one to `to` in its place. */
  ghost predicate CallsFrom(change: Instr -> seq<Instr>, from: Name, to: Name) {
    forall i, j | j in change(i) && j.Call? :: i.Call? && (j == i || (i.callee == from && j == Call(i.id, to)))
  }

  lemma {:induction false} ExpandCalls(code: seq<Instr>, change: Instr -> seq<Instr>, from: Name, to: Name, j: Instr)
    requires CallsFrom(change, from, to) && j in Expand(code, change) && j.Call?
    ensures exists i :: i in code && i.Call? && j in change(i) && (j == i || (i.callee == from && j == Call(i.id, to)))
  {
    var front, i := code[..|code| - 1], code[|code| - 1];
    assert code == front + [i];
    if j in change(i) {
    } else {
      ExpandCalls(front, change, from, to, j);
    }
  }

  lemma AddingKeepsCalls(pm: PmDesc, fn: Name, id: nat, flush: bool, fence: bool)
    ensures CallsFrom(FlushAll(pm, fn), fn, fn) && CallsFrom(FenceCall(id), fn, fn)
    ensures CallsFrom(FixStore(id, flush, fence), fn, fn)
  {
  }

  lemma RedirectingChangesCalls(ids: seq<nat>, from: Name, to: Name)
    ensures CallsFrom(Redirected(ids, from, to), from, to)
  {
  }

  /** Rewriting one function, or adding a rewritten clone of it, keeps the program an implementation. */
  lemma ImplementsAfter(base: Program, p: Program, fn: Name, target: Name, change: Instr -> seq<Instr>, from: Name,
                        to: Name)
    requires Implements(base, p) && fn in p && Invisible(change) && CallsFrom(change, from, to)
    requires Origin(from) == Origin(to) && (from in p ==> to in p) && (from !in p ==> to !in p)
    requires target == fn || (target !in p && target.Clone? && target.base == fn)
    ensures Implements(base, p[target := ExpandFunction(p[fn], change)])
  {
    var f := ExpandFunction(p[fn], change);
    var q := p[target := f];
    ExpandFunctionErased(p[fn], change);
    assert Origin(target) == Origin(fn);
    forall n | n in q
      ensures !n.Persistent? && Origin(n) in base && EraseFunction(q[n]) == base[Origin(n)]
      ensures forall b | b in q[n].blocks :: CallsMatch(base, q, b.code)
    {
      forall b | b in q[n].blocks ensures CallsMatch(base, q, b.code) {
        forall j | j in b.code && j.Call? ensures j.callee in q <==> Origin(j.callee) in base {
          if n == target {
            var k :| 0 <= k < |f.blocks| && f.blocks[k] == b;
            var old' := p[fn].blocks[k];
            assert old' in p[fn].blocks && CallsMatch(base, p, old'.code);
            ExpandCalls(old'.code, change, from, to, j);
            var i :| i in old'.code && i.Call? && j in change(i)
              && (j == i || (i.callee == from && j == Call(i.id, to)));
            assert i.callee in p <==> Origin(i.callee) in base;
          } else {
            assert b in p[n].blocks && CallsMatch(base, p, b.code);
          }
        }
      }
    }
  }

  // ----- What the changes achieve ----------------------------------------------------------------------------------

  /** The body of a clone flushes at every flush point. */
  lemma {:induction false} FlushAllFlushes(pm: PmDesc, fn: Name, code: seq<Instr>)
    ensures FlushedCode(pm, fn, Expand(code, FlushAll(pm, fn)))
  {
    if code != [] {
      var front, i := code[..|code| - 1], code[|code| - 1];
      FlushAllFlushes(pm, fn, front);
      var xs, ys := Expand(front, FlushAll(pm, fn)), FlushAll(pm, fn)(i);
      var all: seq<Instr> := xs + ys;
      forall k | 0 <= k < |all| && all[k].Store? && pm.IsFlushPoint(fn, all[k].ptr)
        ensures k + 1 < |all| && all[k + 1].Flush? && all[k + 1].ptr == all[k].ptr
      {
        if k < |xs| {
          assert xs[k].Store?;
        } else {
          assert ys[k - |xs|] == i;
        }
      }
    }
  }

  /** No call at the given instructions still goes to `from`. */
  predicate NoCalls(f: Function, ids: seq<nat>, from: Name) {
    forall b | b in f.blocks :: forall i | i in b.code && i.Call? && i.id in ids :: i.callee != from
  }

  /** Every call `id` is directly followed by a fence. */
  predicate FencedCalls(f: Function, id: nat) {
    forall b | b in f.blocks :: FencedCode(b.code, id)
  }

  predicate FencedCode(code: seq<Instr>, id: nat) {
    forall k | 0 <= k < |code| && code[k].Call? && code[k].id == id :: k + 1 < |code| && code[k + 1].Fence?
  }

  lemma {:induction false} FenceCallFences(code: seq<Instr>, id: nat)
    ensures FencedCode(Expand(code, FenceCall(id)), id)
  {
    if code != [] {
      var front, i := code[..|code| - 1], code[|code| - 1];
      FenceCallFences(front, id);
      var xs, ys := Expand(front, FenceCall(id)), FenceCall(id)(i);
      var all: seq<Instr> := xs + ys;
      forall k | 0 <= k < |all| && all[k].Call? && all[k].id == id
        ensures k + 1 < |all| && all[k + 1].Fence?
      {
        if k < |xs| {
          assert xs[k].Call?;
        } else {
          assert ys[k - |xs|] == i;
        }
      }
    }
  }

  /** Behind every store `id` are the flush of its pointer and the fence that are asked for. */
  predicate FixedCode(code: seq<Instr>, id: nat, flush: bool, fence: bool) {
    forall k | 0 <= k < |code| && code[k].Store? && code[k].id == id :: FixedAt(code, k, flush, fence)
  }

  predicate FixedAt(code: seq<Instr>, k: nat, flush: bool, fence: bool)
    requires k < |code| && code[k].Store?
  {
    && (flush ==> k + 1 < |code| && code[k + 1] == Flush(code[k].ptr, true))
    && (fence ==> var j := if flush then k + 2 else k + 1; j < |code| && code[j] == Fence(true))
  }

  predicate FixedStores(f: Function, id: nat, flush: bool, fence: bool) {
    forall b | b in f.blocks :: FixedCode(b.code, id, flush, fence)
  }

  lemma {:induction false} FixStoreFixes(code: seq<Instr>, id: nat, flush: bool, fence: bool)
    ensures FixedCode(Expand(code, FixStore(id, flush, fence)), id, flush, fence)
  {
    if code != [] {
      var front, i := code[..|code| - 1], code[|code| - 1];
      FixStoreFixes(front, id, flush, fence);
      var xs, ys := Expand(front, FixStore(id, flush, fence)), FixStore(id, flush, fence)(i);
      var all: seq<Instr> := xs + ys;
      forall k | 0 <= k < |all| && all[k].Store? && all[k].id == id ensures FixedAt(all, k, flush, fence) {
        if k < |xs| {
          assert xs[k].Store? && FixedAt(xs, k, flush, fence);
        } else {
          assert ys[k - |xs|] == i && k == |xs|;
        }
      }
    }
  }

  lemma {:induction false} RedirectedCalls(code: seq<Instr>, ids: seq<nat>, from: Name, to: Name, j: Instr)
    requires j in Expand(code, Redirected(ids, from, to)) && j.Call? && j.id in ids && from != to
    ensures j.callee != from
  {
    var front, i := code[..|code| - 1], code[|code| - 1];
    if j in Redirected(ids, from, to)(i) {
    } else {
      RedirectedCalls(front, ids, from, to, j);
    }
  }

  lemma RedirectedNoCalls(f: Function, ids: seq<nat>, from: Name, to: Name)
    requires from != to
    ensures NoCalls(ExpandFunction(f, Redirected(ids, from, to)), ids, from)
  {
    var g := ExpandFunction(f, Redirected(ids, from, to));
    forall b, j | b in g.blocks && j in b.code && j.Call? && j.id in ids ensures j.callee != from {
      var k :| 0 <= k < |g.blocks| && g.blocks[k] == b;
      RedirectedCalls(f.blocks[k].code, ids, from, to, j);
    }
  }

  lemma {:induction false} FlushAllKeepsCalls(code: seq<Instr>, pm: PmDesc, fn: Name, j: Instr)
    ensures j.Call? ==> (j in Expand(code, FlushAll(pm, fn)) <==> j in code)
  {
    if code != [] {
      var front, i := code[..|code| - 1], code[|code| - 1];
      assert code == front + [i];
      FlushAllKeepsCalls(front, pm, fn, j);
    }
  }

  lemma {:induction false} FenceCallKeepsCalls(code: seq<Instr>, id: nat, j: Instr)
    ensures j.Call? ==> (j in Expand(code, FenceCall(id)) <==> j in code)
  {
    if code != [] {
      var front, i := code[..|code| - 1], code[|code| - 1];
      assert code == front + [i];
      FenceCallKeepsCalls(front, id, j);
    }
  }

  // ----- What stands behind a store ---------------------------------------------------------------------

  /** The added flushes and fences that code starts with. */
  function RepairRun(code: seq<Instr>): seq<Instr> {
    if code == [] || !code[0].IsRepair() then [] else [code[0]] + RepairRun(code[1..])
  }

  lemma {:induction false} RunBefore(xs: seq<Instr>, ys: seq<Instr>)
    requires forall i | i in xs :: i.IsRepair()
    ensures RepairRun(xs + ys) == xs + RepairRun(ys)
  {
    if xs == [] {
      assert xs + ys == ys && [] + RepairRun(ys) == RepairRun(ys);
    } else {
      assert (xs + ys)[1..] == xs[1..] + ys && xs[0] in xs;
      assert forall i | i in xs[1..] :: i in xs;
      RunBefore(xs[1..], ys);
      assert xs == [xs[0]] + xs[1..];
    }
  }

  lemma {:induction false} RunFlushed(code: seq<Instr>, pm: PmDesc, fn: Name)
    ensures RepairRun(Expand(code, FlushAll(pm, fn))) == RepairRun(code)
  {
    hide Expand;
    var change := FlushAll(pm, fn);
    if code == [] {
      ExpandNothing(change);
    } else {
      assert code == [code[0]] + code[1..];
      ExpandHead(code[0], code[1..], change);
      RunFlushed(code[1..], pm, fn);
      var all := change(code[0]) + Expand(code[1..], change);
      assert all[0] == code[0];
      if code[0].IsRepair() {
        assert change(code[0]) == [code[0]] && all[1..] == Expand(code[1..], change);
      }
    }
  }

  /** The flush that a clone of `fn` gets for a store: one if its pointer is no stack variable, is known, and may point
      to persistent memory. */
  function CloneFlush(pm: PmDesc, fn: Name, ptr: nat): seq<Instr> {
    if (Origin(fn), ptr) !in pm.allocas && (Origin(fn), ptr) in pm.known && (Origin(fn), ptr) in pm.pmPointers
    then [Flush(ptr, true)] else []
  }

  /** Instruction `k` of some code, if it is a store, is in the code of a clone where the code before it leads to, and
      behind it stands what stood there before, with the flush of the clone in front. */
  ghost predicate StoreCloned(pm: PmDesc, fn: Name, clone: Name, code: seq<Instr>, cloned: seq<Instr>, k: nat)
    requires k < |code|
  {
    var j := |Expand(code[..k], FlushAll(pm, clone))|;
    code[k].Store? ==>
      && j < |cloned| && cloned[j] == code[k]
      && RepairRun(cloned[j + 1..]) == CloneFlush(pm, fn, code[k].ptr) + RepairRun(code[k + 1..])
  }

  ghost predicate StoresCloned(pm: PmDesc, fn: Name, clone: Name, f: Function, g: Function) {
    && |g.blocks| == |f.blocks|
    && forall b, k | 0 <= b < |f.blocks| && 0 <= k < |f.blocks[b].code| ::
         StoreCloned(pm, fn, clone, f.blocks[b].code, g.blocks[b].code, k)
  }

  lemma ExpandAt(code: seq<Instr>, k: nat, change: Instr -> seq<Instr>)
    requires k < |code|
    ensures Expand(code, change) == Expand(code[..k], change) + (change(code[k]) + Expand(code[k + 1..], change))
  {
    hide Expand;
    var front, i, rest := code[..k], code[k], code[k + 1..];
    CutAt(code, k);
    ExpandConcat(front, [i] + rest, change);
    ExpandHead(i, rest, change);
  }

  lemma CutAt(code: seq<Instr>, k: nat)
    requires k < |code|
    ensures code == code[..k] + ([code[k]] + code[k + 1..])
  {
  }

  lemma CodeCloned(pm: PmDesc, fn: Name, clone: Name, code: seq<Instr>, k: nat)
    requires k < |code| && Origin(clone) == Origin(fn)
    ensures StoreCloned(pm, fn, clone, code, Expand(code, FlushAll(pm, clone)), k)
  {
    if code[k].Store? {
      ChangeOfStore(pm, fn, clone, code[k]);
      CodeChanged(pm, clone, code, k, CloneFlush(pm, fn, code[k].ptr));
    }
  }

  lemma CodeChanged(pm: PmDesc, clone: Name, code: seq<Instr>, k: nat, more: seq<Instr>)
    requires k < |code| && FlushAll(pm, clone)(code[k]) == [code[k]] + more && forall x | x in more :: x.IsRepair()
    ensures var all, j := Expand(code, FlushAll(pm, clone)), |Expand(code[..k], FlushAll(pm, clone))|;
            j < |all| && all[j] == code[k] && RepairRun(all[j + 1..]) == more + RepairRun(code[k + 1..])
  {
    hide Expand, FlushAll, RepairRun;
    var change := FlushAll(pm, clone);
    ExpandAt(code, k, change);
    RunFlushed(code[k + 1..], pm, clone);
    RunBehindStore(Expand(code[..k], change), code[k], more, Expand(code[k + 1..], change));
  }

  lemma ChangeOfStore(pm: PmDesc, fn: Name, clone: Name, i: Instr)
    requires i.Store? && Origin(clone) == Origin(fn)
    ensures FlushAll(pm, clone)(i) == [i] + CloneFlush(pm, fn, i.ptr)
    ensures forall x | x in CloneFlush(pm, fn, i.ptr) :: x.IsRepair()
  {
  }

  lemma RunBehindStore(before: seq<Instr>, i: Instr, more: seq<Instr>, after: seq<Instr>)
    requires forall x | x in more :: x.IsRepair()
    ensures var all := before + (([i] + more) + after);
            |before| < |all| && all[|before|] == i && RepairRun(all[|before| + 1..]) == more + RepairRun(after)
  {
    var all := before + (([i] + more) + after);
    assert all[|before| + 1..] == more + after;
    hide RepairRun;
    RunBefore(more, after);
  }

  // ----- The module being fixed -----------------------------------------------------------------------

  /** A program before any fix: only source functions, calls of source functions, nothing added. */
  predicate SourceProgram(p: Program) {
    forall n | n in p ::
      n.Source? && forall b | b in p[n].blocks :: PlainCode(b.code) && forall i | i in b.code && i.Call? ::
        i.callee.Source?
  }

  function EraseProgram(p: Program): Program {
    map n | n in p :: EraseFunction(p[n])
  }

  /** A call-stack frame that has a mapping: its function, the instructions of its line in
      order, and whether they are one range. */
  datatype FrameLoc = FrameLoc(fn: Name, insts: seq<nat>, oneRange: bool)

  /** The outcome of inserting a persistent subprogram: the call it is anchored at, or nothing, or a
      failed `assert` (also the use of a null instruction), which ends the fixer. */
  datatype Outcome = Inserted(fn: Name, id: nat) | NotInserted | Failed

  /** The calls at some instructions of a function, in the order of the instructions. */
  function CallsAt(f: Function, ids: seq<nat>): seq<Instr> {
    if ids == [] then []
    else CallsAt(f, ids[..|ids| - 1]) + CallsWithId(f.blocks, ids[|ids| - 1])
  }

  function CallsWithId(blocks: seq<Block>, id: nat): seq<Instr> {
    if blocks == [] then [] else CallsWithId(blocks[..|blocks| - 1], id) + CallsIn(blocks[|blocks| - 1].code, id)
  }

  function CallsIn(code: seq<Instr>, id: nat): seq<Instr> {
    if code == [] then []
    else
      var i := code[|code| - 1];
      CallsIn(code[..|code| - 1], id) + if i.Call? && i.id == id then [i] else []
  }

  ghost predicate IsFrame(stack: seq<Option<FrameLoc>>, n: Name) {
    exists l :: l in stack && l.Some? && l.value.fn == n
  }

  /** The mapped frames are in functions of the source. */
  ghost predicate SourceFrames(p: Program, stack: seq<Option<FrameLoc>>) {
    forall l | l in stack && l.Some? :: l.value.fn in p && l.value.fn.Source?
  }

  /** No function is lost, and only those of the frames are changed. */
  ghost predicate OnlyFramesChange(start: Program, p: Program, stack: seq<Option<FrameLoc>>) {
    forall n | n in start :: n in p && (!IsFrame(stack, n) ==> p[n] == start[n])
  }

  /** What one level of raising does to the program. */
  ghost predicate OneLevel(p: Program, q: Program, pm: PmDesc, fn: Name, next: FrameLoc, clone: Name) {
    && fn in p && next.fn in p && clone !in p
    && var g := ExpandFunction(p[fn], FlushAll(pm, clone));
       q == p[clone := g][next.fn := ExpandFunction(p[next.fn], Redirected(next.insts, fn, clone))]
       && FlushedFunction(pm, clone, g) && next.fn != clone && NoCalls(q[next.fn], next.insts, fn)
  }

  lemma OnlyFramesNothing(p: Program, stack: seq<Option<FrameLoc>>)
    ensures OnlyFramesChange(p, p, stack)
  {
  }

  /** The lowest frame has no mapping: the one call at the next frame's line, if it goes to an external
      function, is redirected to the persistent version. */
  ghost predicate ExternalLevel(p: Program, q: Program, next: FrameLoc) {
    && next.fn in p
    && var calls := CallsAt(p[next.fn], next.insts);
       && |calls| == 1 && calls[0].Call?
       && q == if calls[0].callee in p then p
               else p[next.fn := ExpandFunction(p[next.fn],
                   Redirected([calls[0].id], calls[0].callee, Persistent(calls[0].callee)))]
  }

  /** Level `i` of a persistent subprogram. */
  ghost predicate Level(p: Program, q: Program, pm: PmDesc, stack: seq<Option<FrameLoc>>, i: nat, clone: Option<Name>) {
    && i + 1 < |stack| && stack[i + 1].Some?
    && if stack[i].None? then i == 0 && ExternalLevel(p, q, stack[1].value)
       else clone.Some? && clone.value.Clone? && clone.value.base == stack[i].value.fn
            && OneLevel(p, q, pm, stack[i].value.fn, stack[i + 1].value, clone.value)
  }

  /** The program before the first level, and after each of `n` levels. */
  ghost predicate Levels(progs: seq<Program>, pm: PmDesc, stack: seq<Option<FrameLoc>>, n: nat,
                         clones: seq<Option<Name>>) {
    && |progs| == n + 1 && |clones| == n
    && forall i | 0 <= i < n :: Level(progs[i], progs[i + 1], pm, stack, i, clones[i])
  }

  /** The last call that level `i` redirects, if any. */
  ghost function LevelCall(p: Program, stack: seq<Option<FrameLoc>>, i: nat): Option<nat> {
    if i + 1 >= |stack| || stack[i + 1].None? || stack[i + 1].value.fn !in p then None
    else
      var calls := CallsAt(p[stack[i + 1].value.fn], stack[i + 1].value.insts);
      if stack[i].Some? then LastCall(calls, stack[i].value.fn)
      else if calls != [] && calls[0].Call? && calls[0].callee !in p then Some(calls[0].id)
      else None
  }

  /** The call that the fence goes behind: the last one redirected, at the highest level that redirects any. */
  ghost function Anchor(progs: seq<Program>, stack: seq<Option<FrameLoc>>, n: nat): Option<(Name, nat)>
    requires n <= |progs|
  {
    if n == 0 then None
    else
      var call := LevelCall(progs[n - 1], stack, n - 1);
      if call.Some? && n < |stack| && stack[n].Some? then Some((stack[n].value.fn, call.value))
        else Anchor(progs, stack, n - 1)
  }

  /** What a persistent subprogram makes of a program: its levels, and the fence. */
  ghost predicate Subprogram(p: Program, q: Program, pm: PmDesc, stack: seq<Option<FrameLoc>>, idx: nat, addFence: bool,
                             r: Outcome, progs: seq<Program>, clones: seq<Option<Name>>)
  {
    && Levels(progs, pm, stack, idx, clones) && progs[0] == p
    && var anchor := Anchor(progs, stack, idx);
       match r
       case Failed => false
       case NotInserted => anchor.None? && !addFence && q == progs[idx]
       case Inserted(fn, id) =>
         && anchor == Some((fn, id)) && fn in progs[idx]
         && q == if addFence then progs[idx][fn := ExpandFunction(progs[idx][fn], FenceCall(id))] else progs[idx]
  }

  /** The frames that a fix at frame `idx` needs are all mapped. */
  predicate AllMapped(stack: seq<Option<FrameLoc>>, idx: nat) {
    idx < |stack| && forall i | 0 <= i <= idx :: stack[i].Some?
  }

  /** The one call at a line goes to a function of the program, or to one that has a persistent version. */
  predicate ExternalCall(p: Program, versions: set<Name>, next: FrameLoc) {
    && next.fn in p && next.oneRange
    && var calls := CallsAt(p[next.fn], next.insts);
       |calls| == 1 && calls[0].Call? && (calls[0].callee in p || calls[0].callee in versions)
  }

  /** The levels up to frame `idx` can be gone up: their frames are mapped, the lowest one excepted if the function
      that the next frame calls can be looked up. */
  predicate Followable(p: Program, versions: set<Name>, stack: seq<Option<FrameLoc>>, idx: nat) {
    0 < idx ==>
      && idx < |stack| && (forall i | 1 <= i <= idx :: stack[i].Some?)
      && (stack[0].None? ==> ExternalCall(p, versions, stack[1].value))
  }

  lemma LevelsSnoc(progs: seq<Program>, pm: PmDesc, stack: seq<Option<FrameLoc>>, n: nat, clones: seq<Option<Name>>,
                   q: Program, clone: Option<Name>)
    requires Levels(progs, pm, stack, n, clones) && Level(progs[n], q, pm, stack, n, clone)
    ensures Levels(progs + [q], pm, stack, n + 1, clones + [clone])
    ensures forall k: nat | k <= n :: Anchor(progs + [q], stack, k) == Anchor(progs, stack, k)
  {
    hide Level;
    forall i | 0 <= i < n + 1
      ensures Level((progs + [q])[i], (progs + [q])[i + 1], pm, stack, i, (clones + [clone])[i]) {
      if i < n {
        assert (progs + [q])[i + 1] == progs[i + 1];
      }
    }
    forall k: nat | k <= n ensures Anchor(progs + [q], stack, k) == Anchor(progs, stack, k) {
      AnchorPrefix(progs, q, stack, k);
    }
  }

  lemma {:induction false} AnchorPrefix(progs: seq<Program>, q: Program, stack: seq<Option<FrameLoc>>, k: nat)
    requires k <= |progs|
    ensures Anchor(progs + [q], stack, k) == Anchor(progs, stack, k)
  {
    hide LevelCall;
    if k != 0 {
      AnchorPrefix(progs, q, stack, k - 1);
    }
  }

  lemma OnlyFramesOne(start: Program, p: Program, q: Program, stack: seq<Option<FrameLoc>>, fn: Name)
    requires OnlyFramesChange(start, p, stack) && SourceFrames(p, stack) && IsFrame(stack, fn)
    requires q.Keys == p.Keys && forall n | n in p && n != fn :: q[n] == p[n]
    ensures OnlyFramesChange(start, q, stack) && SourceFrames(q, stack)
  {
  }

  lemma OnlyFramesLevel(start: Program, p: Program, q: Program, pm: PmDesc, stack: seq<Option<FrameLoc>>,
                        fn: Name, next: FrameLoc, clone: Name)
    requires OnlyFramesChange(start, p, stack) && SourceFrames(p, stack) && IsFrame(stack, next.fn)
    requires OneLevel(p, q, pm, fn, next, clone)
    ensures OnlyFramesChange(start, q, stack) && SourceFrames(q, stack)
  {
    hide FlushedFunction, NoCalls, ExpandFunction;
  }

  class FixGenerator {
    var functions: Program
    var serial: nat
    const pm: PmDesc
    const persistentVersions: set<Name>
    ghost const base: Program

    /** Names of clones are not reused, and the program is still the original one with clones read as
        what they are clones of and with what was added left out; and its clones flush. */
    ghost predicate Valid()
      reads this
    {
      && Implements(base, functions) && ClonesFlush(pm, functions)
      && forall n | n in functions && n.Clone? :: n.serial < serial
    }

    constructor (p: Program, pm: PmDesc, persistentVersions: set<Name>)
      requires SourceProgram(p)
      ensures Valid() && functions == p && this.pm == pm
      ensures base == EraseProgram(p)
    {
      this.functions := p;
      this.serial := 0;
      this.pm := pm;
      this.persistentVersions := persistentVersions;
      this.base := EraseProgram(p);
    }

    /** Rebuild the blocks of a function with a change of its instructions. */
    method Rewrite(f: Function, change: Instr -> seq<Instr>) returns (g: Function)
      ensures g == ExpandFunction(f, change)
    {
      var blocks: seq<Block> := [];
      for b := 0 to |f.blocks|
        invariant blocks == ExpandFunction(f, change).blocks[..b]
      {
        var code: seq<Instr> := [];
        var old' := f.blocks[b].code;
        for k := 0 to |old'|
          invariant code == Expand(old'[..k], change)
        {
          assert old'[..k + 1][..k] == old'[..k];
          code := code + change(old'[k]);
        }
        assert old'[..|old'|] == old';
        blocks := blocks + [Block(code, f.blocks[b].succs)];
      }
      g := Function(blocks);
    }

    /** The primitive fixes: put a flush of its pointer behind a store, or a fence, or both. */
    method InsertAtStore(fn: Name, id: nat, flush: bool, fence: bool)
      requires Valid() && fn in functions && fn.Source?
      modifies this`functions
      ensures functions == old(functions)[fn := ExpandFunction(old(functions)[fn], FixStore(id, flush, fence))]
      ensures FixedStores(functions[fn], id, flush, fence)
      ensures Valid()
    {
      var g := Rewrite(functions[fn], FixStore(id, flush, fence));
      FixStoreInvisible(id, flush, fence);
      AddingKeepsCalls(pm, fn, id, flush, fence);
      ImplementsAfter(base, functions, fn, fn, FixStore(id, flush, fence), fn, fn);
      forall b | b in g.blocks ensures FixedCode(b.code, id, flush, fence) {
        var k :| 0 <= k < |g.blocks| && g.blocks[k] == b;
        FixStoreFixes(functions[fn].blocks[k].code, id, flush, fence);
      }
      functions := functions[fn := g];
    }

    /** Clone a function and make all of its stores to persistent memory persistent. */
    method DuplicatePersistent(fn: Name) returns (clone: Name)
      requires Valid() && fn in functions
      modifies this
      ensures clone.Clone? && clone.base == fn && clone !in old(functions)
      ensures functions == old(functions)[clone := ExpandFunction(old(functions)[fn], FlushAll(pm, clone))]
      ensures FlushedFunction(pm, clone, functions[clone])
      ensures StoresCloned(pm, fn, clone, old(functions)[fn], functions[clone])
      ensures Valid()
    {
      hide Expand, StoreCloned;
      clone := Clone(fn, serial);
      serial := serial + 1;
      var g := Rewrite(functions[fn], FlushAll(pm, clone));
      FlushAllInvisible(pm, clone);
      AddingKeepsCalls(pm, clone, 0, false, false);
      ImplementsAfter(base, functions, fn, clone, FlushAll(pm, clone), clone, clone);
      forall b | b in g.blocks ensures FlushedCode(pm, clone, b.code) {
        var k :| 0 <= k < |g.blocks| && g.blocks[k] == b;
        FlushAllFlushes(pm, clone, functions[fn].blocks[k].code);
      }
      forall b, k | 0 <= b < |functions[fn].blocks| && 0 <= k < |functions[fn].blocks[b].code|
        ensures StoreCloned(pm, fn, clone, functions[fn].blocks[b].code, g.blocks[b].code, k)
      {
        CodeCloned(pm, fn, clone, functions[fn].blocks[b].code, k);
      }
      functions := functions[clone := g];
    }

    method FindCallsIn(code: seq<Instr>, id: nat) returns (calls: seq<Instr>)
      ensures calls == CallsIn(code, id)
    {
      calls := [];
      for k := 0 to |code|
        invariant calls == CallsIn(code[..k], id)
      {
        assert code[..k + 1][..k] == code[..k];
        if code[k].Call? && code[k].id == id {
          calls := calls + [code[k]];
        }
      }
      assert code[..|code|] == code;
    }

    method FindCallsWithId(blocks: seq<Block>, id: nat) returns (calls: seq<Instr>)
      ensures calls == CallsWithId(blocks, id)
    {
      hide CallsIn;
      calls := [];
      for b := 0 to |blocks|
        invariant calls == CallsWithId(blocks[..b], id)
      {
        assert blocks[..b + 1][..b] == blocks[..b];
        var more := FindCallsIn(blocks[b].code, id);
        calls := calls + more;
      }
      assert blocks[..|blocks|] == blocks;
    }

    /** The calls at some instructions, in order. */
    method FindCalls(f: Function, ids: seq<nat>) returns (calls: seq<Instr>)
      ensures calls == CallsAt(f, ids)
    {
      hide CallsWithId;
      calls := [];
      for n := 0 to |ids|
        invariant calls == CallsAt(f, ids[..n])
      {
        assert ids[..n + 1][..n] == ids[..n];
        var more := FindCallsWithId(f.blocks, ids[n]);
        calls := calls + more;
      }
      assert ids[..|ids|] == ids;
    }

    /** The last call of `from`, if any. */
    method FindLastCall(calls: seq<Instr>, from: Name) returns (last: Option<nat>)
      ensures last == LastCall(calls, from)
    {
      last := None;
      for k := 0 to |calls|
        invariant last == LastCall(calls[..k], from)
      {
        assert calls[..k + 1][..k] == calls[..k];
        if calls[k].Call? && calls[k].callee == from {
          last := Some(calls[k].id);
        }
      }
      assert calls[..|calls|] == calls;
    }

    /** Redirect the calls of `from` in the line of a frame; the answer is the last of them, if any. */
    method RedirectCalls(next: FrameLoc, from: Name, to: Name) returns (last: Option<nat>)
      requires Valid() && next.fn in functions && next.fn.Source?
      requires Origin(from) == Origin(to) && from != to && (from in functions <==> to in functions)
      modifies this`functions
      ensures functions == old(functions)[next.fn := ExpandFunction(old(functions)[next.fn],
                                                                    Redirected(next.insts, from, to))]
      ensures NoCalls(functions[next.fn], next.insts, from)
      ensures last == LastCall(CallsAt(old(functions)[next.fn], next.insts), from)
      ensures last.Some? ==> HasCall(functions[next.fn], last.value, to)
      ensures Valid()
    {
      var calls := FindCalls(functions[next.fn], next.insts);
      last := FindLastCall(calls, from);
      if last.Some? {
        LastCallRedirected(functions[next.fn], next.insts, from, to);
      }
      var g := Rewrite(functions[next.fn], Redirected(next.insts, from, to));
      RedirectedInvisible(next.insts, from, to);
      RedirectingChangesCalls(next.insts, from, to);
      ImplementsAfter(base, functions, next.fn, next.fn, Redirected(next.insts, from, to), from, to);
      RedirectedNoCalls(functions[next.fn], next.insts, from, to);
      functions := functions[next.fn := g];
    }

    /** Put a fence behind a call. */
    method InsertFence(fn: Name, id: nat)
      requires Valid() && fn in functions && fn.Source?
      modifies this`functions
      ensures functions == old(functions)[fn := ExpandFunction(old(functions)[fn], FenceCall(id))]
      ensures FencedCalls(functions[fn], id)
      ensures Valid()
    {
      var g := Rewrite(functions[fn], FenceCall(id));
      FenceCallInvisible(id);
      AddingKeepsCalls(pm, fn, id, false, false);
      ImplementsAfter(base, functions, fn, fn, FenceCall(id), fn, fn);
      forall b | b in g.blocks ensures FencedCode(b.code, id) {
        var k :| 0 <= k < |g.blocks| && g.blocks[k] == b;
        FenceCallFences(functions[fn].blocks[k].code, id);
      }
      functions := functions[fn := g];
    }

    /** One level: clone a function and redirect the calls of it in the next frame. */
    method CloneAndRedirect(fn: Name, next: FrameLoc) returns (clone: Name, last: Option<nat>)
      requires Valid() && fn in functions && fn.Source? && next.fn in functions && next.fn.Source?
      modifies this
      ensures Valid()
      ensures clone.Clone? && clone.base == fn && clone !in old(functions)
      ensures OneLevel(old(functions), functions, pm, fn, next, clone)
      ensures last == LastCall(CallsAt(old(functions)[next.fn], next.insts), fn)
      ensures last.Some? ==> CallsRepaired(functions[next.fn], last.value)
    {
      clone := DuplicatePersistent(fn);
      last := RedirectCalls(next, fn, clone);
    }

    /** The lowest frame has no mapping: if the one call in the next frame's line goes to an external
        function, let it go to the persistent version. */
    method RedirectExternal(next: FrameLoc) returns (ok: bool, call: Option<nat>)
      requires Valid() && next.fn in functions && next.fn.Source?
      modifies this`functions
      ensures Valid()
      ensures functions.Keys == old(functions).Keys && forall n | n in functions && n != next.fn ::
                functions[n] == old(functions)[n]
      ensures ok && call.Some? ==> CallsRepaired(functions[next.fn], call.value)
      ensures ok <==> ExternalCall(old(functions), persistentVersions, next)
      ensures ok ==> ExternalLevel(old(functions), functions, next)
      ensures ok ==> var calls := CallsAt(old(functions)[next.fn], next.insts);
                     && |calls| == 1 && calls[0].Call?
                     && call == if calls[0].callee in old(functions) then None else Some(calls[0].id)
      ensures !ok ==> functions == old(functions)
    {
      hide CallsAt, Implements, ClonesFlush, ExpandFunction, HasCall;
      var candidates := FindCalls(functions[next.fn], next.insts);
      ok, call := false, None;
      if |candidates| != 1 || !next.oneRange {
        return;
      }
      var c := candidates[0];
      CallsAtMeaning(functions[next.fn], next.insts, c);
      if c.callee !in functions {
        if c.callee !in persistentVersions {
          return;
        }
        NoPersistentFunctions(base, functions, c.callee);
        CallFoundAgain(functions[next.fn], next.insts, c);
        call := RedirectCalls(FrameLoc(next.fn, [c.id], true), c.callee, Persistent(c.callee));
      }
      ok := true;
    }

    /** Level by level up the call stack, clone the function of the frame with its stores made
        persistent and redirect the calls of it in the next frame; at the end put a fence behind the
        last redirected call. The lowest frame may be an external function, whose call then goes to
        its persistent version; no other frame can be without a mapping, since the level below has
        looked it up. */
    method InsertPersistentSubProgram(stack: seq<Option<FrameLoc>>, idx: nat, addFence: bool)
      returns (r: Outcome, ghost progs: seq<Program>, ghost clones: seq<Option<Name>>)
      requires Valid() && SourceFrames(functions, stack)
      modifies this
      ensures Valid()
      ensures OnlyFramesChange(old(functions), functions, stack)
      ensures !r.Failed? ==> Subprogram(old(functions), functions, pm, stack, idx, addFence, r, progs, clones)
      ensures Followable(old(functions), persistentVersions, stack, idx) ==>
                && Levels(progs, pm, stack, idx, clones) && progs[0] == old(functions)
                && (r.Failed? <==> addFence && Anchor(progs, stack, idx).None?)
      ensures !Followable(old(functions), persistentVersions, stack, idx) ==> r.Failed?
      ensures r.Inserted? ==>
                && r.fn in functions && r.fn.Source? && CallsRepaired(functions[r.fn], r.id)
                && (addFence ==> FencedCalls(functions[r.fn], r.id))
    {
      hide Implements, ClonesFlush, OneLevel, ExternalLevel, CallsRepaired, HasCall, NoCalls, FlushedFunction,
        FencedCalls, LastCall, CallsAt, OnlyFramesChange, ExpandFunction, ExternalCall;
      ghost var start := functions;
      progs, clones := [functions], [];
      OnlyFramesNothing(start, stack);
      var ret: Option<(Name, nat)> := None;
      for i := 0 to idx
        invariant Valid() && SourceFrames(functions, stack) && OnlyFramesChange(start, functions, stack)
        invariant Levels(progs, pm, stack, i, clones) && progs[0] == start && progs[i] == functions
        invariant 0 < i ==> i < |stack| && stack[i].Some?
        invariant Followable(start, persistentVersions, stack, i)
        invariant ret == Anchor(progs, stack, i)
        invariant ret.Some? ==>
                    && ret.value.0 in functions && ret.value.0.Source?
                    && CallsRepaired(functions[ret.value.0], ret.value.1)
        invariant ret.Some? ==> IsFrame(stack, ret.value.0)
      {
        if i + 1 >= |stack| || stack[i + 1].None? {
          r := Failed;
          return;
        }
        var next := stack[i + 1].value;
        assert stack[i + 1] in stack && IsFrame(stack, next.fn);
        ghost var before := functions;
        ghost var level: Option<Name> := None;
        if stack[i].None? {
          assert i == 0;
          var ok, call := RedirectExternal(next);
          OnlyFramesOne(start, before, functions, stack, next.fn);
          if !ok {
            r := Failed;
            return;
          }
          if call.Some? {
            ret := Some((next.fn, call.value));
          }
        } else {
          var fn := stack[i].value.fn;
          assert stack[i] in stack;
          var clone, last := CloneAndRedirect(fn, next);
          OnlyFramesLevel(start, before, functions, pm, stack, fn, next, clone);
          level := Some(clone);
          if ret.Some? {
            LevelKeepsCall(before, functions, pm, fn, next, clone, ret.value.0, ret.value.1);
          }
          if last.Some? {
            ret := Some((next.fn, last.value));
          }
        }
        LevelsSnoc(progs, pm, stack, i, clones, functions, level);
        progs, clones := progs + [functions], clones + [level];
      }

      if addFence {
        if ret.None? {
          r := Failed;
          return;
        }
        ghost var before := functions;
        InsertFence(ret.value.0, ret.value.1);
        FenceKeepsCall(before[ret.value.0], ret.value.1, ret.value.1);
        OnlyFramesOne(start, before, functions, stack, ret.value.0);
      }
      r := if ret.None? then NotInserted else Inserted(ret.value.0, ret.value.1);
    }
  }

  function LastCall(calls: seq<Instr>, from: Name): Option<nat> {
    if calls == [] then None
    else
      var c := calls[|calls| - 1];
      if c.Call? && c.callee == from then Some(c.id) else LastCall(calls[..|calls| - 1], from)
  }

  /** Some instruction of the function is call `id`, and calls `callee`. */
  ghost predicate HasCall(f: Function, id: nat, callee: Name) {
    exists b :: b in f.blocks && Call(id, callee) in b.code
  }

  /** Call `id` goes to a clone or to a persistent version. */
  ghost predicate CallsRepaired(f: Function, id: nat) {
    exists callee: Name :: !callee.Source? && HasCall(f, id, callee)
  }

  lemma NoPersistentFunctions(base: Program, p: Program, n: Name)
    requires Implements(base, p)
    ensures Persistent(n) !in p
  {
  }

  lemma {:induction false} LastCallFound(calls: seq<Instr>, c: Instr)
    requires c in calls && c.Call?
    ensures LastCall(calls, c.callee).Some?
  {
    if calls[|calls| - 1] != c {
      assert c in calls[..|calls| - 1];
      LastCallFound(calls[..|calls| - 1], c);
    }
  }

  lemma CallFoundAgain(f: Function, ids: seq<nat>, c: Instr)
    requires c in CallsAt(f, ids)
    ensures c.Call? && LastCall(CallsAt(f, [c.id]), c.callee) == Some(c.id)
  {
    CallsAtMeaning(f, ids, c);
    CallsAtMeaning(f, [c.id], c);
    LastCallFound(CallsAt(f, [c.id]), c);
    var last := LastCall(CallsAt(f, [c.id]), c.callee);
    LastCallIn(CallsAt(f, [c.id]), c.callee);
    CallsAtMeaning(f, [c.id], Call(last.value, c.callee));
  }

  lemma LevelKeepsCall(p: Program, q: Program, pm: PmDesc, from: Name, next: FrameLoc, clone: Name, fn: Name, id: nat)
    requires OneLevel(p, q, pm, from, next, clone) && fn in p && from.Source?
    requires CallsRepaired(p[fn], id)
    ensures CallsRepaired(q[fn], id)
  {
    hide FlushedFunction, NoCalls, ExpandFunction;
    if fn == next.fn {
      var callee: Name :| !callee.Source? && HasCall(p[fn], id, callee);
      assert Redirected(next.insts, from, clone)(Call(id, callee)) == [Call(id, callee)];
      HasCallExpanded(p[fn], Redirected(next.insts, from, clone), Call(id, callee), id, callee);
    }
  }

  lemma FenceKeepsCall(f: Function, fenced: nat, id: nat)
    requires CallsRepaired(f, id)
    ensures CallsRepaired(ExpandFunction(f, FenceCall(fenced)), id)
  {
    var callee: Name :| !callee.Source? && HasCall(f, id, callee);
    assert Call(id, callee) in FenceCall(fenced)(Call(id, callee));
    HasCallExpanded(f, FenceCall(fenced), Call(id, callee), id, callee);
  }

  lemma {:induction false} CallsInMeaning(code: seq<Instr>, id: nat, j: Instr)
    ensures j in CallsIn(code, id) <==> j in code && j.Call? && j.id == id
  {
    if code != [] {
      assert code == code[..|code| - 1] + [code[|code| - 1]];
      CallsInMeaning(code[..|code| - 1], id, j);
    }
  }

  lemma {:induction false} CallsWithIdMeaning(blocks: seq<Block>, id: nat, j: Instr)
    ensures j in CallsWithId(blocks, id) <==> j.Call? && j.id == id && exists b :: b in blocks && j in b.code
  {
    if blocks != [] {
      var front, b := blocks[..|blocks| - 1], blocks[|blocks| - 1];
      assert blocks == front + [b];
      CallsWithIdMeaning(front, id, j);
      CallsInMeaning(b.code, id, j);
    }
  }

  /** The calls found are those of the function at the given instructions. */
  lemma {:induction false} CallsAtMeaning(f: Function, ids: seq<nat>, j: Instr)
    ensures j in CallsAt(f, ids) <==> j.Call? && j.id in ids && exists b :: b in f.blocks && j in b.code
  {
    if ids != [] {
      assert ids == ids[..|ids| - 1] + [ids[|ids| - 1]];
      CallsAtMeaning(f, ids[..|ids| - 1], j);
      CallsWithIdMeaning(f.blocks, ids[|ids| - 1], j);
    }
  }

  lemma {:induction false} LastCallIn(calls: seq<Instr>, from: Name)
    requires LastCall(calls, from).Some?
    ensures Call(LastCall(calls, from).value, from) in calls
  {
    var c := calls[|calls| - 1];
    if !(c.Call? && c.callee == from) {
      LastCallIn(calls[..|calls| - 1], from);
    }
  }

  lemma {:induction false} ExpandMember(code: seq<Instr>, change: Instr -> seq<Instr>, i: Instr, j: Instr)
    requires i in code && j in change(i)
    ensures j in Expand(code, change)
  {
    var front, last := code[..|code| - 1], code[|code| - 1];
    assert code == front + [last];
    if i in front {
      ExpandMember(front, change, i, j);
    }
  }

  lemma HasCallExpanded(f: Function, change: Instr -> seq<Instr>, i: Instr, id: nat, callee: Name)
    requires (exists b :: b in f.blocks && i in b.code) && Call(id, callee) in change(i)
    ensures HasCall(ExpandFunction(f, change), id, callee)
  {
    var b :| b in f.blocks && i in b.code;
    var k :| 0 <= k < |f.blocks| && f.blocks[k] == b;
    ExpandMember(b.code, change, i, Call(id, callee));
    assert ExpandFunction(f, change).blocks[k] in ExpandFunction(f, change).blocks;
  }

  lemma LastCallRedirected(f: Function, ids: seq<nat>, from: Name, to: Name)
    requires LastCall(CallsAt(f, ids), from).Some?
    ensures HasCall(ExpandFunction(f, Redirected(ids, from, to)), LastCall(CallsAt(f, ids), from).value, to)
  {
    LastCallIn(CallsAt(f, ids), from);
    var i := Call(LastCall(CallsAt(f, ids), from).value, from);
    CallsAtMeaning(f, ids, i);
    assert Redirected(ids, from, to)(i) == [Call(i.id, to)];
    HasCallExpanded(f, Redirected(ids, from, to), i, i.id, to);
  }
}
