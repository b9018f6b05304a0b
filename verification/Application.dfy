/**
 Step 3 of the repair (src/BugFixer.cpp:511-538, src/BugFixer.cpp:1041-1053) for fixes that stay at their stores: how
 they get into the program, and that a run of the program then does what the repaired execution is said to do.
 */
module Application {
  import P = Persistence
  import T = Traces
  import opened Mapping
  import opened Fixes
  import V = Raising
  import C = Conservation
  import R = Repair
  import X = Reports
  import D = Reduction
  import opened Ir
  import opened Flushing
  import opened FixGeneration
  import opened Rewriting

  /** Where the instructions of the functions stand for the fix map. */
  type Places = (Name, nat) -> Inst

  // ----- The program with the fixes -----------------------------------------------------------------------

  /** What a fix puts behind a store through `ptr`. */
  function Behind(kind: FixType, ptr: nat): seq<Instr> {
    match kind
    case AddFlushOnly => [Flush(ptr, true)]
    case AddFenceOnly => [Fence(true)]
    case AddFlushAndFence => [Flush(ptr, true), Fence(true)]
    case _ => []
  }

  /** Every store of `fn` with its fix. */
  function Fixed(m: FixMap, at: Places, fn: Name): Instr -> seq<Instr> {
    (i: Instr) => [i] + if i.Store? then Behind(R.FixAt(m, at(fn, i.id)), i.ptr) else []
  }

  /** `q` is `p` with the primitive fixes of the map at their stores. */
  ghost predicate HasFixes(p: Program, q: Program, m: FixMap, at: Places) {
    q.Keys == p.Keys && forall fn | fn in p :: q[fn] == ExpandFunction(p[fn], Fixed(m, at, fn))
  }

  // ----- Putting them in ----------------------------------------------------------------------------------

  /** The fixes of some stores only. */
  function FixedAmong(m: FixMap, at: Places, keys: seq<(Name, nat)>, fn: Name): Instr -> seq<Instr> {
    (i: Instr) => [i] + if i.Store? && (fn, i.id) in keys then Behind(R.FixAt(m, at(fn, i.id)), i.ptr) else []
  }

  /** One change after another is one change. */
  lemma {:induction false} ExpandTwice(code: seq<Instr>, one: Instr -> seq<Instr>, two: Instr -> seq<Instr>,
                                       both: Instr -> seq<Instr>)
    requires forall i | i in code :: Expand(one(i), two) == both(i)
    ensures Expand(Expand(code, one), two) == Expand(code, both)
  {
    if code != [] {
      var front, i := code[..|code| - 1], code[|code| - 1];
      assert code == front + [i];
      ExpandTwice(front, one, two, both);
      ExpandConcat(Expand(front, one), one(i), two);
    }
  }

  lemma FixedOneMore(m: FixMap, at: Places, keys: seq<(Name, nat)>, fn: Name, id: nat, i: Instr)
    requires (fn, id) !in keys && R.FixAt(m, at(fn, id)).Primitive()
    ensures var kind := R.FixAt(m, at(fn, id));
            Expand(FixedAmong(m, at, keys, fn)(i), FixStore(id, FlushDuty in Duties(kind), FenceDuty in Duties(kind)))
            == FixedAmong(m, at, keys + [(fn, id)], fn)(i)
  {
    hide Expand, FixStore, R.FixAt, Duties, Behind;
    var kind, more := R.FixAt(m, at(fn, id)), keys + [(fn, id)];
    var flush, fence := FlushDuty in Duties(kind), FenceDuty in Duties(kind);
    var two := FixStore(id, flush, fence);
    var behind := if i.Store? && (fn, i.id) in keys then Behind(R.FixAt(m, at(fn, i.id)), i.ptr) else [];
    ExpandHead(i, behind, two);
    ExpandNothing(two);
    var one := if i.Store? then R.FixAt(m, at(fn, i.id)) else NoFix;
    KeptBehind(one, if i.Store? then i.ptr else 0, two, id, flush, fence);
    assert Expand(behind, two) == behind;
    FixStoreIs(i, id, kind);
    assert (i.Store? && (fn, i.id) in more) <==> (i.Store? && ((fn, i.id) in keys || i.id == id));
    if i.Store? && i.id == id {
      assert two(i) + [] == two(i);
    }
  }

  lemma FixStoreIs(i: Instr, id: nat, kind: FixType)
    requires kind.Primitive()
    ensures FixStore(id, FlushDuty in Duties(kind), FenceDuty in Duties(kind))(i)
            == if i.Store? && i.id == id then [i] + Behind(kind, i.ptr) else [i]
  {
  }

  lemma KeptBehind(kind: FixType, ptr: nat, two: Instr -> seq<Instr>, id: nat, flush: bool, fence: bool)
    requires two == FixStore(id, flush, fence)
    ensures Expand(Behind(kind, ptr), two) == Behind(kind, ptr)
  {
    hide Expand;
    ExpandNothing(two);
    match kind
    case AddFlushOnly => KeptOne(Flush(ptr, true), two, id, flush, fence);
    case AddFenceOnly => KeptOne(Fence(true), two, id, flush, fence);
    case AddFlushAndFence =>
      KeptOne(Fence(true), two, id, flush, fence);
      ExpandHead(Flush(ptr, true), [Fence(true)], two);
      assert [Flush(ptr, true)] + [Fence(true)] == [Flush(ptr, true), Fence(true)];
    case _ =>
  }

  lemma KeptOne(i: Instr, two: Instr -> seq<Instr>, id: nat, flush: bool, fence: bool)
    requires two == FixStore(id, flush, fence) && !i.Store?
    ensures two(i) == [i] && Expand([i], two) == [i]
  {
    hide Expand;
    ExpandNothing(two);
    ExpandHead(i, [], two);
    assert [i] + [] == [i];
  }

  lemma FixedMore(f: Function, m: FixMap, at: Places, keys: seq<(Name, nat)>, fn: Name, id: nat)
    requires (fn, id) !in keys && R.FixAt(m, at(fn, id)).Primitive()
    ensures var kind := R.FixAt(m, at(fn, id));
            ExpandFunction(ExpandFunction(f, FixedAmong(m, at, keys, fn)),
                           FixStore(id, FlushDuty in Duties(kind), FenceDuty in Duties(kind)))
            == ExpandFunction(f, FixedAmong(m, at, keys + [(fn, id)], fn))
  {
    hide Expand, FixedAmong, FixStore, R.FixAt, Duties;
    var kind := R.FixAt(m, at(fn, id));
    var one, both := FixedAmong(m, at, keys, fn), FixedAmong(m, at, keys + [(fn, id)], fn);
    var two := FixStore(id, FlushDuty in Duties(kind), FenceDuty in Duties(kind));
    forall k | 0 <= k < |f.blocks|
      ensures Expand(Expand(f.blocks[k].code, one), two) == Expand(f.blocks[k].code, both) {
      forall i | i in f.blocks[k].code ensures Expand(one(i), two) == both(i) {
        FixedOneMore(m, at, keys, fn, id, i);
      }
      ExpandTwice(f.blocks[k].code, one, two, both);
    }
  }

  /** The stores of the program that have a primitive fix, each once. */
  ghost predicate StoresToFix(p: Program, m: FixMap, at: Places, keys: seq<(Name, nat)>) {
    && (forall k | 0 <= k < |keys| :: keys[k].0 in p && R.FixAt(m, at(keys[k].0, keys[k].1)).Primitive())
    && (forall j, k | 0 <= j < k < |keys| :: keys[j] != keys[k])
    && (forall fn, b, i | fn in p && b in p[fn].blocks && i in b.code && i.Store?
                          && R.FixAt(m, at(fn, i.id)).Primitive() ::
          (fn, i.id) in keys)
  }

  ghost predicate FixedSoFar(p: Program, q: Program, m: FixMap, at: Places, keys: seq<(Name, nat)>) {
    q.Keys == p.Keys && forall fn | fn in p :: q[fn] == ExpandFunction(p[fn], FixedAmong(m, at, keys, fn))
  }

  lemma NoneFixed(p: Program, m: FixMap, at: Places)
    ensures FixedSoFar(p, p, m, at, [])
  {
    hide Expand;
    forall fn | fn in p ensures p[fn] == ExpandFunction(p[fn], FixedAmong(m, at, [], fn)) {
      forall k | 0 <= k < |p[fn].blocks|
        ensures Expand(p[fn].blocks[k].code, FixedAmong(m, at, [], fn)) == p[fn].blocks[k].code {
        NothingChanged(p[fn].blocks[k].code, FixedAmong(m, at, [], fn));
      }
    }
  }

  lemma OneMoreFixed(p: Program, q: Program, q': Program, m: FixMap, at: Places, keys: seq<(Name, nat)>, fn: Name,
                     id: nat)
    requires FixedSoFar(p, q, m, at, keys) && fn in p && (fn, id) !in keys && R.FixAt(m, at(fn, id)).Primitive()
    requires var kind := R.FixAt(m, at(fn, id));
             q' == q[fn := ExpandFunction(q[fn], FixStore(id, FlushDuty in Duties(kind), FenceDuty in Duties(kind)))]
    ensures FixedSoFar(p, q', m, at, keys + [(fn, id)])
  {
    hide Expand, ExpandFunction, FixStore, R.FixAt, Duties;
    forall f | f in p ensures q'[f] == ExpandFunction(p[f], FixedAmong(m, at, keys + [(fn, id)], f)) {
      if f == fn {
        FixedMore(p[fn], m, at, keys, fn, id);
      } else {
        OtherFunction(p[f], m, at, keys, fn, id, f);
      }
    }
  }

  lemma OtherFunction(f: Function, m: FixMap, at: Places, keys: seq<(Name, nat)>, fn: Name, id: nat, other: Name)
    requires other != fn
    ensures ExpandFunction(f, FixedAmong(m, at, keys + [(fn, id)], other))
            == ExpandFunction(f, FixedAmong(m, at, keys, other))
  {
    hide Expand, R.FixAt;
    forall k | 0 <= k < |f.blocks|
      ensures Expand(f.blocks[k].code, FixedAmong(m, at, keys + [(fn, id)], other))
              == Expand(f.blocks[k].code, FixedAmong(m, at, keys, other))
    {
      SameChange(f.blocks[k].code, FixedAmong(m, at, keys + [(fn, id)], other), FixedAmong(m, at, keys, other));
    }
  }

  lemma AllFixed(p: Program, q: Program, m: FixMap, at: Places, keys: seq<(Name, nat)>)
    requires FixedSoFar(p, q, m, at, keys) && StoresToFix(p, m, at, keys)
    ensures HasFixes(p, q, m, at)
  {
    hide Expand, R.FixAt;
    forall fn | fn in p ensures q[fn] == ExpandFunction(p[fn], Fixed(m, at, fn)) {
      forall k | 0 <= k < |p[fn].blocks|
        ensures Expand(p[fn].blocks[k].code, FixedAmong(m, at, keys, fn))
                == Expand(p[fn].blocks[k].code, Fixed(m, at, fn))
      {
        var code := p[fn].blocks[k].code;
        assert p[fn].blocks[k] in p[fn].blocks;
        forall i | i in code ensures FixedAmong(m, at, keys, fn)(i) == Fixed(m, at, fn)(i) {
          assert i.Store? && !R.FixAt(m, at(fn, i.id)).Primitive() ==> Behind(R.FixAt(m, at(fn, i.id)), i.ptr) == [];
        }
        SameChange(code, FixedAmong(m, at, keys, fn), Fixed(m, at, fn));
      }
    }
  }

  /** One fix that stays at its store. */
  method FixBug(g: FixGenerator, fn: Name, id: nat, kind: FixType)
    requires g.Valid() && fn in g.functions && fn.Source? && kind.Primitive()
    modifies g`functions
    ensures g.Valid()
    ensures g.functions == old(g.functions)[fn :=
              ExpandFunction(old(g.functions)[fn], FixStore(id, FlushDuty in Duties(kind), FenceDuty in Duties(kind)))]
  {
    match kind
    case AddFlushOnly => g.InsertAtStore(fn, id, true, false);
    case AddFenceOnly => g.InsertAtStore(fn, id, false, true);
    case AddFlushAndFence => g.InsertAtStore(fn, id, true, true);
  }

  /** Step 3 for the fixes that stay at their stores, one after the other: afterwards every store has its fix, and
      nothing else has changed. */
  method FixStores(g: FixGenerator, m: FixMap, at: Places, keys: seq<(Name, nat)>)
    requires g.Valid() && (forall fn | fn in g.functions :: fn.Source?) && StoresToFix(g.functions, m, at, keys)
    modifies g`functions
    ensures g.Valid() && HasFixes(old(g.functions), g.functions, m, at)
  {
    hide Expand, ExpandFunction, R.FixAt, Implements, ClonesFlush;
    NoneFixed(g.functions, m, at);
    for k := 0 to |keys|
      invariant g.Valid() && FixedSoFar(old(g.functions), g.functions, m, at, keys[..k])
    {
      var (fn, id) := keys[k];
      ghost var before := g.functions;
      FixBug(g, fn, id, R.FixAt(m, at(fn, id)));
      OneMoreFixed(old(g.functions), before, g.functions, m, at, keys[..k], fn, id);
      assert keys[..k + 1] == keys[..k] + [(fn, id)];
    }
    assert keys[..|keys|] == keys;
    AllFixed(old(g.functions), g.functions, m, at, keys);
  }

  // ----- The execution behind a run -----------------------------------------------------------------------

  /** What the next step of a run does to memory, and which instructions do it; what an external function does is
      done `outside`. */
  function Next(p: Program, s: State, at: Places, outside: Inst): seq<R.Step> {
    if s.frames == [] then []
    else
      var f := s.frames[|s.frames| - 1];
      if f.code == [] then []
      else
        match f.code[0]
        case Flush(ptr, _) => [R.Step(P.Clwb(f.Addr(ptr)), outside)]
        case Fence(_) => [R.Step(P.Fence, outside)]
        case Call(_, callee) => if Defined(p, callee) || s.input == [] then [] else Done(s.input[0].effects, outside)
        case Compute(_, _) => []
        case Store(id, ptr) => if s.input == [] then []
          else [R.Step(P.Store(f.Addr(ptr), s.input[0].bytes), at(f.fn, id))]
  }

  function Done(effects: seq<Effect>, outside: Inst): seq<R.Step> {
    seq(|effects|, i requires 0 <= i < |effects| => R.Step(effects[i].op, outside))
  }

  /** The execution of the first `n` steps. */
  function Execution(p: Program, s: State, n: nat, at: Places, outside: Inst): seq<R.Step> {
    if n == 0 then [] else Execution(p, s, n - 1, at, outside) + Next(p, Run(p, s, n - 1), at, outside)
  }

  // ----- The program with fixes does the repaired execution ---------------------------------------------

  function FixedFrame(m: FixMap, at: Places, f: Frame): Frame {
    f.(code := Expand(f.code, Fixed(m, at, f.fn)))
  }

  function FixedFrames(m: FixMap, at: Places, fs: seq<Frame>): seq<Frame> {
    seq(|fs|, i requires 0 <= i < |fs| => FixedFrame(m, at, fs[i]))
  }

  /** The same place in both programs. */
  predicate Matches(m: FixMap, at: Places, s: State, t: State) {
    t.frames == FixedFrames(m, at, s.frames) && t.input == s.input
  }

  lemma FixedFramesSnoc(m: FixMap, at: Places, below: seq<Frame>, f: Frame)
    ensures FixedFrames(m, at, below + [f]) == FixedFrames(m, at, below) + [FixedFrame(m, at, f)]
  {
  }

  lemma EntryFixed(p: Program, q: Program, m: FixMap, at: Places, n: Name)
    requires HasFixes(p, q, m, at)
    ensures Defined(q, n) <==> Defined(p, n)
    ensures Defined(p, n) ==> Entry(q, n) == FixedFrame(m, at, Entry(p, n))
  {
    hide Expand;
  }

  lemma OpsConcat(xs: seq<Event>, ys: seq<Event>)
    ensures Ops(xs + ys) == Ops(xs) + Ops(ys)
  {
  }

  lemma {:induction false} RepairedConcat(m: FixMap, xs: seq<R.Step>, ys: seq<R.Step>)
    ensures R.Repaired(m, xs + ys) == R.Repaired(m, xs) + R.Repaired(m, ys)
  {
    if ys == [] {
      assert xs + ys == xs && R.Repaired(m, xs) + [] == R.Repaired(m, xs);
    } else {
      var n := |ys| - 1;
      assert (xs + ys)[..|xs + ys| - 1] == xs + ys[..n];
      RepairedConcat(m, xs, ys[..n]);
    }
  }

  lemma RepairedOne(m: FixMap, s: R.Step)
    ensures R.Repaired(m, [s]) == [s.op] + R.After(m, s)
  {
    assert [s][..0] == [];
  }

  /** Nothing is added to what is done outside. */
  lemma {:induction false} RepairedOutside(m: FixMap, effects: seq<Effect>, outside: Inst, fn: Name)
    requires R.FixAt(m, outside).NoFix?
    ensures R.Repaired(m, Done(effects, outside)) == Ops(External(effects, fn))
  {
    if effects != [] {
      var n := |effects| - 1;
      RepairedOutside(m, effects[..n], outside, fn);
      var last := R.Step(effects[n].op, outside);
      assert Done(effects, outside) == Done(effects[..n], outside) + [last];
      RepairedConcat(m, Done(effects[..n], outside), [last]);
      RepairedOne(m, last);
      assert Ops(External(effects, fn)) == Ops(External(effects[..n], fn)) + [effects[n].op];
    }
  }

  function AddedEvent(f: Frame, i: Instr): Event
    requires i.Flush? || i.Fence?
  {
    if i.Flush? then Event(P.Clwb(f.Addr(i.ptr)), f.fn, i.ptr, i.added) else Event(P.Fence, f.fn, 0, i.added)
  }

  lemma StepAdded(q: Program, below: seq<Frame>, f: Frame, i: Instr, rest: seq<Instr>, input: seq<Choice>,
                  log: seq<Event>)
    requires i.Flush? || i.Fence?
    ensures Step(q, State(below + [f.(code := [i] + rest)], input, log))
            == State(below + [f.(code := rest)], input, log + [AddedEvent(f, i)])
  {
    var s := State(below + [f.(code := [i] + rest)], input, log);
    assert s.frames[..|below|] == below && s.frames[|below|].code[1..] == rest;
  }

  /** What stands behind a store does what the fix is said to do. */
  lemma RunBehind(q: Program, below: seq<Frame>, f: Frame, kind: FixType, ptr: nat, rest: seq<Instr>,
                  input: seq<Choice>, log: seq<Event>)
    ensures var ins := Behind(kind, ptr);
            var t := Run(q, State(below + [f.(code := ins + rest)], input, log), |ins|);
            && t.frames == below + [f.(code := rest)] && t.input == input
            && Ops(t.log) == Ops(log) + R.Inserted(kind, f.Addr(ptr))
  {
    hide Step;
    var ins := Behind(kind, ptr);
    var s := State(below + [f.(code := ins + rest)], input, log);
    if ins == [] {
      assert [] + rest == rest && Ops(log) + [] == Ops(log);
    } else {
      var after := ins[1..] + rest;
      assert ins + rest == [ins[0]] + after;
      StepAdded(q, below, f, ins[0], after, input, log);
      RunFirst(q, s);
      OpsConcat(log, [AddedEvent(f, ins[0])]);
      if |ins| == 2 {
        assert after == [ins[1]] + rest;
        StepAdded(q, below, f, ins[1], rest, input, log + [AddedEvent(f, ins[0])]);
        assert Run(q, s, 2) == Step(q, Run(q, s, 1));
        OpsConcat(log + [AddedEvent(f, ins[0])], [AddedEvent(f, ins[1])]);
        assert Ops(log) + [AddedEvent(f, ins[0]).op] + [AddedEvent(f, ins[1]).op]
          == Ops(log) + R.Inserted(kind, f.Addr(ptr));
      } else {
        assert after == rest;
        assert Ops([AddedEvent(f, ins[0])]) == R.Inserted(kind, f.Addr(ptr));
      }
    }
  }

  lemma StepStoreOf(q: Program, below: seq<Frame>, f: Frame, id: nat, ptr: nat, rest: seq<Instr>, input: seq<Choice>,
                    log: seq<Event>)
    requires input != []
    ensures Step(q, State(below + [f.(code := [Store(id, ptr)] + rest)], input, log))
            == State(below + [f.(code := rest)], input[1..],
                     log + [Event(P.Store(f.Addr(ptr), input[0].bytes), f.fn, ptr, false)])
  {
    var s := State(below + [f.(code := [Store(id, ptr)] + rest)], input, log);
    assert s.frames[..|below|] == below && s.frames[|below|].code[1..] == rest;
  }

  /** A state, taken apart at its top frame; and the same place in the program with fixes. */
  lemma TakenApart(m: FixMap, at: Places, s: State, t: State)
    requires Matches(m, at, s, t) && s.frames != [] && s.frames[|s.frames| - 1].code != []
    ensures var n := |s.frames| - 1;
            var below, f := s.frames[..n], s.frames[n];
            var left := Expand(f.code[1..], Fixed(m, at, f.fn));
            && s == State(below + [f.(code := [f.code[0]] + f.code[1..])], s.input, s.log)
            && t == State(FixedFrames(m, at, below) + [f.(code := Fixed(m, at, f.fn)(f.code[0]) + left)],
                          s.input, t.log)
  {
    hide Expand, Fixed;
    var n := |s.frames| - 1;
    var below, f := s.frames[..n], s.frames[n];
    assert f.code == [f.code[0]] + f.code[1..] && s.frames == below + [f];
    ExpandHead(f.code[0], f.code[1..], Fixed(m, at, f.fn));
    FixedFramesSnoc(m, at, below, f);
  }

  lemma MatchesTop(m: FixMap, at: Places, below: seq<Frame>, f: Frame, input: seq<Choice>, log: seq<Event>, t: State)
    requires t.frames == FixedFrames(m, at, below) + [FixedFrame(m, at, f)] && t.input == input
    ensures Matches(m, at, State(below + [f], input, log), t)
  {
    FixedFramesSnoc(m, at, below, f);
  }

  lemma StepFixedStore(p: Program, q: Program, m: FixMap, at: Places, outside: Inst, s: State, t: State)
    returns (k: nat)
    requires Matches(m, at, s, t) && s.frames != [] && s.input != []
    requires var f := s.frames[|s.frames| - 1]; f.code != [] && f.code[0].Store?
    ensures Matches(m, at, Step(p, s), Run(q, t, k))
    ensures Ops(Run(q, t, k).log) == Ops(t.log) + R.Repaired(m, Next(p, s, at, outside))
  {
    hide Expand, R.Repaired, R.After, Step, Run, Matches, FixedFrames;
    var n := |s.frames| - 1;
    var below, f := s.frames[..n], s.frames[n];
    var i, rest := f.code[0], f.code[1..];
    var kind := R.FixAt(m, at(f.fn, i.id));
    TakenApart(m, at, s, t);
    var below', left, ins := FixedFrames(m, at, below), Expand(rest, Fixed(m, at, f.fn)), Behind(kind, i.ptr);
    assert Fixed(m, at, f.fn)(i) + left == [i] + (ins + left);
    var e := Event(P.Store(f.Addr(i.ptr), s.input[0].bytes), f.fn, i.ptr, false);
    StepStoreOf(p, below, f, i.id, i.ptr, rest, s.input, s.log);
    StepStoreOf(q, below', f, i.id, i.ptr, ins + left, s.input, t.log);
    RunBehind(q, below', f, kind, i.ptr, left, s.input[1..], t.log + [e]);
    k := 1 + |ins|;
    RunFirst(q, t);
    RunAdd(q, t, 1, |ins|);
    MatchesTop(m, at, below, f.(code := rest), s.input[1..], s.log + [e], Run(q, t, k));
    OpsConcat(t.log, [e]);
    var step := R.Step(e.op, at(f.fn, i.id));
    RepairedOne(m, step);
    AfterIsInserted(m, step);
    assert Ops(t.log) + [e.op] + R.After(m, step) == Ops(t.log) + ([e.op] + R.After(m, step));
  }

  lemma AfterIsInserted(m: FixMap, s: R.Step)
    requires s.op.Store?
    ensures R.After(m, s) == R.Inserted(R.FixAt(m, s.inst), s.op.address)
  {
  }

  /** What one step of an instruction other than a store does, whatever program it is in. */
  lemma StepOther(p: Program, below: seq<Frame>, f: Frame, i: Instr, rest: seq<Instr>, input: seq<Choice>,
                  log: seq<Event>)
    ensures var s, next := State(below + [f.(code := [i] + rest)], input, log), f.(code := rest);
            && (i.Flush? || i.Fence? ==> Step(p, s) == State(below + [next], input, log + [AddedEvent(f, i)]))
            && (i.Call? && Defined(p, i.callee)
              ==> Step(p, s) == State(below + [next] + [Entry(p, i.callee)], input, log))
            && (i.Call? && !Defined(p, i.callee) && input != [] ==>
                  Step(p, s) == State(below + [next], input[1..], log + External(input[0].effects, i.callee)))
            && (i.Compute? && input != [] ==>
                  Step(p, s) == State(below + [next.(regs := f.regs[i.dest := input[0].number])], input[1..], log))
            && (input == [] && (i.Store? || i.Compute? || (i.Call? && !Defined(p, i.callee))) ==> Step(p, s) == s)
  {
    var s := State(below + [f.(code := [i] + rest)], input, log);
    assert s.frames[..|below|] == below && s.frames[|below|].code[1..] == rest;
    if i.Call? && Defined(p, i.callee) {
      assert below + [f.(code := rest)] + [Entry(p, i.callee)] == below + [f.(code := rest), Entry(p, i.callee)];
    }
  }

  lemma StepFixedCode(p: Program, q: Program, m: FixMap, at: Places, outside: Inst, s: State, t: State)
    requires HasFixes(p, q, m, at) && Matches(m, at, s, t) && s.frames != [] && R.FixAt(m, outside).NoFix?
    requires var f := s.frames[|s.frames| - 1]; f.code != [] && (f.code[0].Store? ==> s.input == [])
    ensures Matches(m, at, Step(p, s), Step(q, t))
    ensures Ops(Step(q, t).log) == Ops(t.log) + R.Repaired(m, Next(p, s, at, outside))
  {
    hide Expand, R.Repaired, R.After, HasFixes, Step, Matches, FixedFrames, External, R.FixAt, Entry, Defined;
    var n := |s.frames| - 1;
    var below, f := s.frames[..n], s.frames[n];
    var i, rest := f.code[0], f.code[1..];
    TakenApart(m, at, s, t);
    var below', left := FixedFrames(m, at, below), Expand(rest, Fixed(m, at, f.fn));
    var next := f.(code := rest);
    StepOther(p, below, f, i, rest, s.input, s.log);
    RepairedNothing(m);
    assert Ops(t.log) + [] == Ops(t.log);
    if i.Store? {
      var behind := Behind(R.FixAt(m, at(f.fn, i.id)), i.ptr);
      assert Fixed(m, at, f.fn)(i) + left == [i] + (behind + left);
      StepOther(q, below', f, i, behind + left, s.input, t.log);
    } else {
      assert Fixed(m, at, f.fn)(i) + left == [i] + left;
      StepOther(q, below', f, i, left, s.input, t.log);
      if i.Call? {
        EntryFixed(p, q, m, at, i.callee);
      }
      if i.Flush? || i.Fence? {
        MatchesTop(m, at, below, next, s.input, s.log + [AddedEvent(f, i)], Step(q, t));
        OpsConcat(t.log, [AddedEvent(f, i)]);
        FlushRepaired(m, R.Step(AddedEvent(f, i).op, outside));
      } else if i.Call? && Defined(p, i.callee) {
        FixedFramesSnoc(m, at, below, next);
        MatchesTop(m, at, below + [next], Entry(p, i.callee), s.input, s.log, Step(q, t));
      } else if s.input != [] {
        if i.Call? {
          MatchesTop(m, at, below, next, s.input[1..], s.log + External(s.input[0].effects, i.callee), Step(q, t));
          OpsConcat(t.log, External(s.input[0].effects, i.callee));
          RepairedOutside(m, s.input[0].effects, outside, i.callee);
        } else {
          MatchesTop(m, at, below, next.(regs := f.regs[i.dest := s.input[0].number]), s.input[1..], s.log, Step(q, t));
        }
      }
    }
  }

  lemma RepairedNothing(m: FixMap)
    ensures R.Repaired(m, []) == []
  {
  }

  lemma FlushRepaired(m: FixMap, s: R.Step)
    requires !s.op.Store?
    ensures R.Repaired(m, [s]) == [s.op]
  {
    RepairedOne(m, s);
    assert [s.op] + [] == [s.op];
  }

  lemma StepFixedBlock(p: Program, q: Program, m: FixMap, at: Places, s: State, t: State)
    requires HasFixes(p, q, m, at) && Matches(m, at, s, t) && s.frames != []
    requires s.frames[|s.frames| - 1].code == []
    ensures Matches(m, at, Step(p, s), Step(q, t)) && Step(q, t).log == t.log
  {
    var n := |s.frames| - 1;
    var below, f := s.frames[..n], s.frames[n];
    assert s.frames == below + [f];
    FixedFramesSnoc(m, at, below, f);
    var g := FixedFrame(m, at, f);
    assert t.frames[..n] == FixedFrames(m, at, below) && t.frames[n] == g && g.code == [];
    if f.succs != [] && s.input != [] && f.fn in p {
      var b := f.succs[s.input[0].number % |f.succs|];
      if b < |p[f.fn].blocks| {
        FixedFramesSnoc(m, at, below, f.(code := p[f.fn].blocks[b].code, succs := p[f.fn].blocks[b].succs));
      }
    }
  }

  /** One step of the program is some steps of the fixed one: an instruction and what its fix has put behind it. */
  lemma StepFixed(p: Program, q: Program, m: FixMap, at: Places, outside: Inst, s: State, t: State) returns (k: nat)
    requires HasFixes(p, q, m, at) && Matches(m, at, s, t) && R.FixAt(m, outside).NoFix?
    ensures Matches(m, at, Step(p, s), Run(q, t, k))
    ensures Ops(Run(q, t, k).log) == Ops(t.log) + R.Repaired(m, Next(p, s, at, outside))
  {
    hide R.Repaired, HasFixes, Run, Matches;
    RepairedNothing(m);
    assert Ops(t.log) + [] == Ops(t.log);
    RunFirst(q, t);
    if s.frames == [] {
      k := 0;
    } else if s.frames[|s.frames| - 1].code == [] {
      StepFixedBlock(p, q, m, at, s, t);
      k := 1;
    } else if s.frames[|s.frames| - 1].code[0].Store? && s.input != [] {
      k := StepFixedStore(p, q, m, at, outside, s, t);
    } else {
      StepFixedCode(p, q, m, at, outside, s, t);
      k := 1;
    }
  }

  /** Wherever the program gets, the program with fixes gets too, and has then done the repaired execution: that of
      the program, with what its fix inserts behind each store. */
  lemma {:induction false} RunIsRepaired(p: Program, q: Program, m: FixMap, at: Places, outside: Inst, main: Name,
                                         input: seq<Choice>, n: nat)
    returns (n': nat)
    requires HasFixes(p, q, m, at) && R.FixAt(m, outside).NoFix? && Defined(p, main)
    ensures Defined(q, main)
    ensures var s, t := Run(p, Start(p, main, input), n), Run(q, Start(q, main, input), n');
            && Matches(m, at, s, t)
            && Ops(t.log) == R.Repaired(m, Execution(p, Start(p, main, input), n, at, outside))
  {
    hide Step, R.Repaired, HasFixes, Matches, Next;
    EntryFixed(p, q, m, at, main);
    if n == 0 {
      n' := 0;
      StartMatches(p, q, m, at, main, input);
      RepairedNothing(m);
    } else {
      n' := RunIsRepaired(p, q, m, at, outside, main, input, n - 1);
      var s, t := Run(p, Start(p, main, input), n - 1), Run(q, Start(q, main, input), n');
      var k := StepFixed(p, q, m, at, outside, s, t);
      RunAdd(q, Start(q, main, input), n', k);
      RepairedConcat(m, Execution(p, Start(p, main, input), n - 1, at, outside), Next(p, s, at, outside));
      n' := n' + k;
    }
  }

  lemma StartMatches(p: Program, q: Program, m: FixMap, at: Places, main: Name, input: seq<Choice>)
    requires HasFixes(p, q, m, at) && Defined(p, main) && Defined(q, main)
    ensures Matches(m, at, Start(p, main, input), Start(q, main, input))
  {
    hide Expand;
    EntryFixed(p, q, m, at, main);
  }

  /** The whole way. Let the fixer see the reduction of a trace that a run of the program has recorded, and let a bug be
      retained and treated in place, its range covered by stores and the verdict asking for a fence, or a fence
      being behind the latest store anyway. Then the program with its fixes gets to the same place, and there
      the range of the bug is persisted. */
  lemma RepairedRunPersists(p: Program, q: Program, m': FixMap, at: Places, outside: Inst, main: Name,
                            input: seq<Choice>, steps: nat, t: seq<T.TraceEvent>, k: nat,
                            env: V.Env, bugs: seq<nat>, n: nat)
    returns (n': nat)
    requires HasFixes(p, q, m', at) && R.FixAt(m', outside).NoFix? && Defined(p, main)
    requires T.WellFormedTrace(t) && D.RetainedBug(t, k)
    requires C.CallSitesApart(env) && env.trace == X.Optimized(t) && T.WellFormedTrace(env.trace)
    requires forall n | 0 <= n < |bugs| :: bugs[n] < |env.trace|
    requires n < |bugs| && bugs[n] == |D.ReducedHistory(t, k)| && R.Treated(env, bugs, bugs[n], m')
    requires R.Recorded(env, Execution(p, Start(p, main, input), steps, at, outside), t[..k])
    requires var f := T.ScanBack(D.ReducedHistory(t, k), t[k].kind.range, []);
             (f.stop.Complete? && f.MissingFence()) || D.FenceSinceStore(t[..k], t[k].kind.range)
    ensures Defined(q, main)
    ensures Matches(m', at, Run(p, Start(p, main, input), steps), Run(q, Start(q, main, input), n'))
    ensures R.AllPersisted(Ops(Run(q, Start(q, main, input), n').log), t[k].kind.range)
  {
    hide HasFixes, Matches, R.Repaired, R.Recorded, R.Treated, R.AllPersisted, D.ReducedHistory, X.Optimized,
      T.ScanBack;
    n' := RunIsRepaired(p, q, m', at, outside, main, input, steps);
    D.PipelineSound(t, k, env, bugs, n, m', Execution(p, Start(p, main, input), steps, at, outside));
  }
}
