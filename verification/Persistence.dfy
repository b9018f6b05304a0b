/**
 The persistence semantics that the repair tool reasons about (src/BugFixer.cpp:131-143,
 tools/Reports.py:29-39): a STORE makes bytes dirty, a FLUSH of a cache line makes its dirty
 bytes pending, and a FENCE makes the pending bytes persisted.
 */
module Persistence {

  const LINE_SIZE: nat := 64

  type byte = x: int | 0 <= x < 256

  function Line(address: nat): nat {
    address / LINE_SIZE
  }

  /** One memory operation. `Flush` names the first and the last cache line it writes back; `Nop`
      stands for an event, such as an assertion of the bug finder, that leaves memory alone. */
  datatype Op =
    | Store(address: nat, data: seq<byte>)
    | Flush(first: nat, last: nat)
    | Fence
    | Nop
  {
    predicate Writes(b: nat) {
      Store? && address <= b < address + |data|
    }

    predicate WritesBack(b: nat) {
      Flush? && first <= Line(b) <= last
    }
  }

  /** The `clwb` instruction at an address. */
  function Clwb(address: nat): Op {
    Flush(Line(address), Line(address))
  }

  /** `image` is what the processor reads, `durable` what is sure to survive a crash. A byte is
      persisted when it is neither dirty nor pending. */
  datatype Machine = Machine(image: map<nat, byte>, dirty: set<nat>, pending: set<nat>, durable: map<nat, byte>)
  {
    predicate Persisted(b: nat) {
      b !in dirty && b !in pending
    }

    /** What a crash leaves of a persisted byte is what the program last wrote there. */
    ghost predicate Valid() {
      && dirty + pending <= image.Keys
      && dirty !! pending
      && forall b | b in image && Persisted(b) :: b in durable && durable[b] == image[b]
    }
  }

  const EMPTY := Machine(map[], {}, {}, map[])

  function Step(m: Machine, op: Op): Machine {
    match op
    case Store(a, data) =>
      var written := set b | a <= b < a + |data| && op.Writes(b);
      m.(image := m.image + (map b | a <= b < a + |data| && op.Writes(b) :: data[b - a]),
         dirty := m.dirty + written,
         pending := m.pending - written)
    case Flush(_, _) =>
      var flushed := set b | b in m.dirty && op.WritesBack(b);
      m.(dirty := m.dirty - flushed, pending := m.pending + flushed)
    case Fence =>
      m.(pending := {},
         durable := m.durable + (map b | b in m.pending && b in m.image :: m.image[b]))
    case Nop => m
  }

  function RunFrom(m: Machine, ops: seq<Op>): Machine {
    if ops == [] then m else Step(RunFrom(m, ops[..|ops| - 1]), ops[|ops| - 1])
  }

  function Run(ops: seq<Op>): Machine {
    RunFrom(EMPTY, ops)
  }

  lemma RunFromAppend(m: Machine, ops: seq<Op>, op: Op)
    ensures RunFrom(m, ops + [op]) == Step(RunFrom(m, ops), op)
  {
    assert (ops + [op])[..|ops|] == ops;
  }

  lemma {:induction false} RunFromConcat(m: Machine, xs: seq<Op>, ys: seq<Op>)
    ensures RunFrom(m, xs + ys) == RunFrom(RunFrom(m, xs), ys)
  {
    if ys == [] {
      assert xs + ys == xs;
    } else {
      var n := |ys| - 1;
      assert (xs + ys)[..|xs + ys| - 1] == xs + ys[..n];
      RunFromConcat(m, xs, ys[..n]);
    }
  }

  // ----- Crash safety ---------------------------------------------------------------------

  lemma {:induction false} RunFromValid(m: Machine, ops: seq<Op>)
    requires m.Valid()
    ensures RunFrom(m, ops).Valid()
  {
    if ops != [] {
      RunFromValid(m, ops[..|ops| - 1]);
    }
  }

  /** At every point of every run, a crash preserves the last value written to each persisted byte. */
  lemma CrashKeepsPersisted(ops: seq<Op>, b: nat)
    requires Run(ops).Persisted(b) && b in Run(ops).image
    ensures b in Run(ops).durable && Run(ops).durable[b] == Run(ops).image[b]
  {
    RunFromValid(EMPTY, ops);
  }

  // ----- Persisted, as a property of the history ------------------------------------------

  /** After operation `i`, the line of `b` is written back and a fence follows that. */
  ghost predicate Secured(ops: seq<Op>, i: int, b: nat) {
    exists j, k :: i < j < k < |ops| && 0 <= j && ops[j].WritesBack(b) && ops[k].Fence?
  }

  ghost predicate WrittenBack(ops: seq<Op>, i: int, b: nat) {
    exists j :: i < j < |ops| && 0 <= j && ops[j].WritesBack(b)
  }

  /** Every store to `b` is later written back and fenced. */
  ghost predicate AllSecured(ops: seq<Op>, b: nat) {
    forall i | 0 <= i < |ops| && ops[i].Writes(b) :: Secured(ops, i, b)
  }

  ghost predicate AllWrittenBack(ops: seq<Op>, b: nat) {
    forall i | 0 <= i < |ops| && ops[i].Writes(b) :: WrittenBack(ops, i, b)
  }

  lemma SecuredExtends(ops: seq<Op>, op: Op, i: int, b: nat)
    requires 0 <= i
    ensures op.Fence? ==> (Secured(ops + [op], i, b) <==> WrittenBack(ops, i, b))
    ensures !op.Fence? && i < |ops| ==> (Secured(ops + [op], i, b) <==> Secured(ops, i, b))
    ensures i < |ops| ==> (WrittenBack(ops + [op], i, b) <==> WrittenBack(ops, i, b) || op.WritesBack(b))
  {
    var more := ops + [op];
    assert forall j | 0 <= j < |ops| :: more[j] == ops[j];
    assert more[|ops|] == op;
    if op.Fence? && WrittenBack(ops, i, b) {
      var j :| i < j < |ops| && ops[j].WritesBack(b);
      assert more[j].WritesBack(b) && more[|ops|].Fence?;
    }
    if i < |ops| && Secured(ops, i, b) {
      var j, k :| i < j < k < |ops| && ops[j].WritesBack(b) && ops[k].Fence?;
      assert more[j].WritesBack(b) && more[k].Fence?;
    }
    if i < |ops| && WrittenBack(ops, i, b) {
      var j :| i < j < |ops| && ops[j].WritesBack(b);
      assert more[j].WritesBack(b);
    }
  }

  /** The byte states of the machine mean what they should: a byte is persisted exactly when each
      store to it was followed by a flush of its line and that flush by a fence. */
  lemma {:induction false} PersistedIff(ops: seq<Op>, b: nat)
    ensures Run(ops).Persisted(b) <==> AllSecured(ops, b)
    ensures b !in Run(ops).dirty <==> AllWrittenBack(ops, b)
  {
    if ops != [] {
      var n := |ops| - 1;
      var before, op := ops[..n], ops[n];
      assert ops == before + [op];
      PersistedIff(before, b);
      forall i | 0 <= i < n {
        SecuredExtends(before, op, i, b);
      }
      assert op.Writes(b) ==> !Secured(ops, n, b) && !WrittenBack(ops, n, b);
      assert forall i | 0 <= i < n :: ops[i] == before[i];
    }
  }

  // ----- Do no harm -----------------------------------------------------------------------

  /** `fixed` is `orig` with any number of flushes and fences (and nops) inserted anywhere. */
  ghost predicate OnlyAdds(orig: seq<Op>, fixed: seq<Op>) {
    if fixed == [] then orig == []
    else
      var rest := fixed[..|fixed| - 1];
      || (orig != [] && orig[|orig| - 1] == fixed[|fixed| - 1] && OnlyAdds(orig[..|orig| - 1], rest))
      || (!fixed[|fixed| - 1].Store? && OnlyAdds(orig, rest))
  }

  ghost predicate NoWorse(m: Machine, fixed: Machine) {
    && fixed.image == m.image
    && fixed.dirty <= m.dirty
    && fixed.dirty + fixed.pending <= m.dirty + m.pending
  }

  /** Inserting flushes and fences leaves what the program reads alone and never leaves a byte
      less persistent than it was. */
  lemma {:induction false} DoNoHarm(orig: seq<Op>, fixed: seq<Op>)
    requires OnlyAdds(orig, fixed)
    ensures Run(fixed).image == Run(orig).image
    ensures forall b :: Run(orig).Persisted(b) ==> Run(fixed).Persisted(b)
    ensures NoWorse(Run(orig), Run(fixed))
    decreases |fixed|
  {
    if fixed != [] {
      var rest, op := fixed[..|fixed| - 1], fixed[|fixed| - 1];
      if orig != [] && orig[|orig| - 1] == op && OnlyAdds(orig[..|orig| - 1], rest) {
        DoNoHarm(orig[..|orig| - 1], rest);
      } else {
        DoNoHarm(orig, rest);
      }
    }
  }

  /** The same holds at every point on the way: after each prefix of the original run there is a
      matching point of the repaired run, and what is inserted behind it is no worse either. */
  lemma {:induction false} DoNoHarmThroughout(orig: seq<Op>, fixed: seq<Op>, k: nat) returns (k': nat)
    requires OnlyAdds(orig, fixed) && k <= |orig|
    ensures k' <= |fixed|
    ensures OnlyAdds(orig[..k], fixed[..k']) && NoWorse(Run(orig[..k]), Run(fixed[..k']))
    ensures 0 < k ==> 0 < k' && fixed[k' - 1] == orig[k - 1]
    decreases |fixed|
  {
    if k == 0 {
      k' := 0;
    } else {
      var rest, op := fixed[..|fixed| - 1], fixed[|fixed| - 1];
      if orig != [] && orig[|orig| - 1] == op && OnlyAdds(orig[..|orig| - 1], rest) {
        if k == |orig| {
          k' := |fixed|;
          assert orig[..k] == orig && fixed[..k'] == fixed;
        } else {
          k' := DoNoHarmThroughout(orig[..|orig| - 1], rest, k);
          assert orig[..|orig| - 1][..k] == orig[..k] && rest[..k'] == fixed[..k'];
        }
      } else {
        k' := DoNoHarmThroughout(orig, rest, k);
        assert rest[..k'] == fixed[..k'];
      }
    }
    DoNoHarm(orig[..k], fixed[..k']);
  }

  /** Additions compose: adding flushes and fences to operations that had some added is again only adding to the
      original ones. Whether one fix of a program undoes another is another matter (`Lasting`, `OverlappingFixes`). */
  lemma {:induction false} OnlyAddsTransitive(a: seq<Op>, b: seq<Op>, c: seq<Op>)
    requires OnlyAdds(a, b) && OnlyAdds(b, c)
    ensures OnlyAdds(a, c)
    decreases |b| + |c|
  {
    if c != [] {
      var c', last := c[..|c| - 1], c[|c| - 1];
      if b != [] && b[|b| - 1] == last && OnlyAdds(b[..|b| - 1], c') {
        var b' := b[..|b| - 1];
        if a != [] && a[|a| - 1] == last && OnlyAdds(a[..|a| - 1], b') {
          OnlyAddsTransitive(a[..|a| - 1], b', c');
        } else {
          OnlyAddsTransitive(a, b', c');
        }
      } else {
        OnlyAddsTransitive(a, b, c');
      }
    }
  }

  lemma {:induction false} OnlyAddsRefl(a: seq<Op>)
    ensures OnlyAdds(a, a)
  {
    if a != [] {
      OnlyAddsRefl(a[..|a| - 1]);
    }
  }

  lemma OnlyAddsAppend(a: seq<Op>, b: seq<Op>, op: Op)
    requires OnlyAdds(a, b)
    ensures OnlyAdds(a + [op], b + [op])
    ensures !op.Store? ==> OnlyAdds(a, b + [op])
  {
    assert (a + [op])[..|a|] == a && (b + [op])[..|b|] == b;
  }
}
