/**
 A small intermediate representation for the rewriting (src/FixGenerator.cpp): functions are graphs of
 basic blocks, and an execution is a run of a machine with a call stack. What the representation
 leaves open - values, data, branches, effects of external functions - comes from an input.
 */
module Ir {
  import P = Persistence

  /** Function names: those of the source, of clones, and of the persistent versions of external
      functions. */
  datatype Name = Source(id: string) | Clone(base: Name, serial: nat) | Persistent(base: Name)

  function Origin(n: Name): Name {
    match n
    case Source(_) => n
    case Clone(base, _) => Origin(base)
    case Persistent(base) => Origin(base)
  }

  /** `Compute` stands for any instruction that defines a value. Instructions of the source have
      identities, which clones of them keep; flushes and fences are marked if the fixer added them. */
  datatype Instr =
    | Compute(id: nat, dest: nat)
    | Store(id: nat, ptr: nat)
    | Flush(ptr: nat, added: bool)
    | Fence(added: bool)
    | Call(id: nat, callee: Name)
  {
    /** An instruction that the fixer put in. */
    predicate IsRepair() {
      (Flush? || Fence?) && added
    }
  }

  /** A block without successors returns. */
  datatype Block = Block(code: seq<Instr>, succs: seq<nat>)

  /** A function; its execution starts at the first block. */
  datatype Function = Function(blocks: seq<Block>)

  type Program = map<Name, Function>

  // ----- Execution ----------------------------------------------------------------------------------------

  /** One piece of input: a value or branch, the data of a store, or what an external function does. */
  datatype Choice = Choice(number: nat, bytes: seq<P.byte>, effects: seq<Effect>)

  /** An operation of an external function; persistent versions mark the flushes they add. */
  datatype Effect = Effect(op: P.Op, added: bool)
  {
    predicate IsRepair() {
      !op.Store? && added
    }
  }

  datatype Frame = Frame(fn: Name, code: seq<Instr>, succs: seq<nat>, regs: map<nat, nat>)
  {
    function Addr(ptr: nat): nat {
      if ptr in regs then regs[ptr] else 0
    }
  }

  /** A memory operation, the function that did it, and for a store the pointer it went through. */
  datatype Event = Event(op: P.Op, fn: Name, ptr: nat, added: bool)
  {
    predicate IsRepair() {
      !op.Store? && added
    }
  }

  datatype State = State(frames: seq<Frame>, input: seq<Choice>, log: seq<Event>)

  /** What an external function does is not laid to the charge of any function of the program. */
  function External(effects: seq<Effect>, fn: Name): seq<Event> {
    seq(|effects|, i requires 0 <= i < |effects| => Event(effects[i].op, Persistent(fn), 0, effects[i].added))
  }

  predicate Defined(p: Program, n: Name) {
    n in p && p[n].blocks != []
  }

  function Entry(p: Program, n: Name): Frame
    requires Defined(p, n)
  {
    Frame(n, p[n].blocks[0].code, p[n].blocks[0].succs, map[])
  }

  /** One step; a state without frames, or that lacks input, stays as it is. */
  function Step(p: Program, s: State): State {
    if s.frames == [] then s
    else
      var below, f := s.frames[..|s.frames| - 1], s.frames[|s.frames| - 1];
      if f.code == [] then
        if f.succs == [] then s.(frames := below)
        else if s.input == [] then s
        else Jump(p, s, below, f, f.succs[s.input[0].number % |f.succs|])
      else
        var next := f.(code := f.code[1..]);
        match f.code[0]
        case Flush(ptr, added) => s.(frames := below + [next],
                                     log := s.log + [Event(P.Clwb(f.Addr(ptr)), f.fn, ptr, added)])
        case Fence(added) => s.(frames := below + [next], log := s.log + [Event(P.Fence, f.fn, 0, added)])
        case Call(_, callee) =>
          if Defined(p, callee) then s.(frames := below + [next, Entry(p, callee)])
          else if s.input == [] then s
          else State(below + [next], s.input[1..], s.log + External(s.input[0].effects, callee))
        case Compute(_, dest) =>
          if s.input == [] then s
          else State(below + [next.(regs := f.regs[dest := s.input[0].number])], s.input[1..], s.log)
        case Store(_, ptr) =>
          if s.input == [] then s
          else State(below + [next], s.input[1..],
                     s.log + [Event(P.Store(f.Addr(ptr), s.input[0].bytes), f.fn, ptr, false)])
  }

  function Jump(p: Program, s: State, below: seq<Frame>, f: Frame, b: nat): State
    requires s.input != []
  {
    if f.fn in p && b < |p[f.fn].blocks| then
      State(below + [f.(code := p[f.fn].blocks[b].code, succs := p[f.fn].blocks[b].succs)], s.input[1..], s.log)
    else s
  }

  function Run(p: Program, s: State, n: nat): State {
    if n == 0 then s else Step(p, Run(p, s, n - 1))
  }

  lemma {:induction false} RunAdd(p: Program, s: State, m: nat, n: nat)
    ensures Run(p, s, m + n) == Run(p, Run(p, s, m), n)
    decreases n
  {
    hide Step;
    if n > 0 {
      RunAdd(p, s, m, n - 1);
    }
  }

  // ----- Erasing what the fixer added ---------------------------------------------------------------------------

  /** Code without added flushes and fences, with calls of a clone read as calls of its original. */
  function EraseCode(code: seq<Instr>): seq<Instr> {
    if code == [] then []
    else
      var i := code[0];
      (if i.IsRepair() then [] else if i.Call? then [Call(i.id, Origin(i.callee))] else [i]) + EraseCode(code[1..])
  }

  function EraseBlock(b: Block): Block {
    Block(EraseCode(b.code), b.succs)
  }

  function EraseFunction(f: Function): Function {
    Function(seq(|f.blocks|, i requires 0 <= i < |f.blocks| => EraseBlock(f.blocks[i])))
  }

  function EraseFrame(f: Frame): Frame {
    Frame(Origin(f.fn), EraseCode(f.code), f.succs, f.regs)
  }

  function EraseFrames(fs: seq<Frame>): seq<Frame> {
    seq(|fs|, i requires 0 <= i < |fs| => EraseFrame(fs[i]))
  }

  function EraseDoer(n: Name): Name {
    if n.Persistent? then Persistent(Origin(n)) else Origin(n)
  }

  /** The operations of a log that were not added, with the original functions that did them. */
  function EraseLog(log: seq<Event>): seq<Event> {
    if log == [] then []
    else
      var e := log[|log| - 1];
      EraseLog(log[..|log| - 1]) + if e.IsRepair() then [] else [e.(fn := EraseDoer(e.fn))]
  }

  function EraseEffects(ops: seq<Effect>): seq<Effect> {
    if ops == [] then []
    else
      var op := ops[|ops| - 1];
      EraseEffects(ops[..|ops| - 1]) + if op.IsRepair() then [] else [op]
  }

  function EraseInput(input: seq<Choice>): seq<Choice> {
    seq(|input|, i requires 0 <= i < |input| => input[i].(effects := EraseEffects(input[i].effects)))
  }

  function EraseState(s: State): State {
    State(EraseFrames(s.frames), EraseInput(s.input), EraseLog(s.log))
  }

  // ----- A program and its erasure ------------------------------------------------------------------------------

  /** A call goes to a function of `p` exactly when its original is one of `base`. */
  predicate CallsMatch(base: Program, p: Program, code: seq<Instr>) {
    forall i | i in code && i.Call? :: i.callee in p <==> Origin(i.callee) in base
  }

  /** Without added flushes and fences, and with clones read as their originals, each function of `p` is
      the one of `base`. */
  ghost predicate Implements(base: Program, p: Program) {
    forall n | n in p ::
      && !n.Persistent? && Origin(n) in base && EraseFunction(p[n]) == base[Origin(n)]
      && forall b | b in p[n].blocks :: CallsMatch(base, p, b.code)
  }

  ghost predicate WellFormedFrame(base: Program, p: Program, f: Frame) {
    f.fn in p && !f.fn.Persistent? && CallsMatch(base, p, f.code)
  }

  ghost predicate WellFormedState(base: Program, p: Program, s: State) {
    forall f | f in s.frames :: WellFormedFrame(base, p, f)
  }

  /** The next instruction is one that the fixer added. */
  predicate AtRepair(s: State) {
    s.frames != [] && s.frames[|s.frames| - 1].code != [] && s.frames[|s.frames| - 1].code[0].IsRepair()
  }

  lemma EraseFramesSnoc(below: seq<Frame>, f: Frame)
    ensures EraseFrames(below + [f]) == EraseFrames(below) + [EraseFrame(f)]
  {
  }

  lemma EraseLogSnoc(log: seq<Event>, e: Event)
    ensures EraseLog(log + [e]) == EraseLog(log) + if e.IsRepair() then [] else [e.(fn := EraseDoer(e.fn))]
  {
    assert (log + [e])[..|log|] == log;
  }

  lemma ExternalConcat(xs: seq<Effect>, ys: seq<Effect>, fn: Name)
    ensures External(xs + ys, fn) == External(xs, fn) + External(ys, fn)
  {
  }

  lemma EraseEffectsSnoc(ops: seq<Effect>, op: Effect)
    ensures EraseEffects(ops + [op]) == EraseEffects(ops) + if op.IsRepair() then [] else [op]
  {
    assert (ops + [op])[..|ops|] == ops;
  }

  lemma EraseOfExternal(op: Effect, fn: Name)
    ensures External([op], fn) == [Event(op.op, Persistent(fn), 0, op.added)]
            && EraseDoer(Persistent(fn)) == Persistent(Origin(fn))
    ensures External([], fn) == []
  {
  }

  lemma {:induction false} EraseLogExternal(log: seq<Event>, ops: seq<Effect>, fn: Name)
    ensures EraseLog(log + External(ops, fn)) == EraseLog(log) + External(EraseEffects(ops), Origin(fn))
  {
    hide Origin, EraseDoer, EraseLog, External;
    if ops == [] {
      EraseOfExternal(Effect(P.Nop, false), fn);
      EraseOfExternal(Effect(P.Nop, false), Origin(fn));
      assert log + [] == log && EraseLog(log) + [] == EraseLog(log);
    } else {
      var n := |ops| - 1;
      var front, op := ops[..n], ops[n];
      assert ops == front + [op];
      EraseLogExternal(log, front, fn);
      ExternalConcat(front, [op], fn);
      EraseOfExternal(op, fn);
      EraseOfExternal(op, Origin(fn));
      var e := Event(op.op, Persistent(fn), 0, op.added);
      assert log + External(ops, fn) == (log + External(front, fn)) + [e];
      EraseLogSnoc(log + External(front, fn), e);
      EraseEffectsSnoc(front, op);
      ExternalConcat(EraseEffects(front), [op], Origin(fn));
      if op.IsRepair() {
        assert EraseEffects(ops) == EraseEffects(front) + [] == EraseEffects(front);
        assert EraseLog(log + External(front, fn)) + [] == EraseLog(log + External(front, fn));
      } else {
        assert EraseLog(log) + (External(EraseEffects(front), Origin(fn)) + External([op], Origin(fn)))
            == EraseLog(log) + External(EraseEffects(front), Origin(fn)) + External([op], Origin(fn));
      }
    }
  }

  lemma EraseCodeHead(code: seq<Instr>)
    requires code != []
    ensures code[0].IsRepair() ==> EraseCode(code) == EraseCode(code[1..])
    ensures !code[0].IsRepair() ==> EraseCode(code) != [] && EraseCode(code)[1..] == EraseCode(code[1..])
    ensures !code[0].IsRepair() ==>
              EraseCode(code)[0] == if code[0].Call? then Call(code[0].id, Origin(code[0].callee)) else code[0]
  {
    hide Origin;
    var i, rest := code[0], EraseCode(code[1..]);
    if i.IsRepair() {
      assert [] + rest == rest;
    } else {
      var x := if i.Call? then Call(i.id, Origin(i.callee)) else i;
      assert EraseCode(code) == [x] + rest;
    }
  }

  // ----- The simulation --------------------------------------------------------------------------------------------

  lemma WellFormedStep(base: Program, p: Program, s: State)
    requires Implements(base, p) && WellFormedState(base, p, s)
    ensures WellFormedState(base, p, Step(p, s))
  {
    hide EraseFunction;
    if s.frames != [] {
      var f := s.frames[|s.frames| - 1];
      assert f in s.frames && WellFormedFrame(base, p, f);
      if f.code != [] {
        assert CallsMatch(base, p, f.code[1..]);
      }
      assert p[f.fn] == p[f.fn];
    }
  }

  lemma DefinedErased(base: Program, p: Program, n: Name)
    requires Implements(base, p) && (n in p <==> Origin(n) in base)
    ensures Defined(p, n) <==> Defined(base, Origin(n))
    ensures Defined(p, n) ==> EraseFrame(Entry(p, n)) == Entry(base, Origin(n))
  {
    if n in p {
      assert EraseFunction(p[n]) == base[Origin(n)];
      OriginOfOrigin(n);
    }
  }

  lemma OriginOfOrigin(n: Name)
    ensures Origin(Origin(n)) == Origin(n)
  {
  }

  lemma StepErasesCall(base: Program, p: Program, s: State)
    requires Implements(base, p) && WellFormedState(base, p, s) && s.frames != []
    requires var f := s.frames[|s.frames| - 1]; f.code != [] && f.code[0].Call?
    ensures EraseState(Step(p, s)) == Step(base, EraseState(s))
  {
    hide EraseCode, Origin, EraseLog, EraseEffects, External, EraseFunction;
    var n := |s.frames| - 1;
    var below, f := s.frames[..n], s.frames[n];
    var callee := f.code[0].callee;
    var next := f.(code := f.code[1..]);
    assert f in s.frames && WellFormedFrame(base, p, f) && f.code[0] in f.code;
    EraseCodeHead(f.code);
    EraseFramesSnoc(below, f);
    EraseFramesSnoc(below, next);
    assert s.frames == below + [f];
    assert EraseFrames(s.frames)[..n] == EraseFrames(below);
    DefinedErased(base, p, callee);
    if Defined(p, callee) {
      EraseFramesSnoc(below + [next], Entry(p, callee));
      assert below + [next, Entry(p, callee)] == below + [next] + [Entry(p, callee)];
      assert EraseFrames(below) + [EraseFrame(next), EraseFrame(Entry(p, callee))]
          == EraseFrames(below) + [EraseFrame(next)] + [EraseFrame(Entry(p, callee))];
    } else if s.input != [] {
      EraseLogExternal(s.log, s.input[0].effects, callee);
      assert EraseInput(s.input[1..]) == EraseInput(s.input)[1..];
    }
  }

  lemma StepErasesReturn(base: Program, p: Program, s: State)
    requires Implements(base, p) && WellFormedState(base, p, s) && s.frames != []
    requires s.frames[|s.frames| - 1].code == []
    ensures EraseState(Step(p, s)) == Step(base, EraseState(s))
  {
    var n := |s.frames| - 1;
    var below, f := s.frames[..n], s.frames[n];
    assert f in s.frames && WellFormedFrame(base, p, f);
    EraseFramesSnoc(below, f);
    assert s.frames == below + [f];
    assert EraseFrames(s.frames)[..n] == EraseFrames(below);
    if f.succs != [] && s.input != [] {
      assert EraseInput(s.input[1..]) == EraseInput(s.input)[1..];
      var b := f.succs[s.input[0].number % |f.succs|];
      if b < |p[f.fn].blocks| {
        EraseFramesSnoc(below, f.(code := p[f.fn].blocks[b].code, succs := p[f.fn].blocks[b].succs));
      }
    }
  }

  lemma StepErasesRepair(base: Program, p: Program, s: State)
    requires WellFormedState(base, p, s) && AtRepair(s)
    ensures EraseState(Step(p, s)) == EraseState(s)
  {
    var n := |s.frames| - 1;
    var below, f := s.frames[..n], s.frames[n];
    EraseCodeHead(f.code);
    EraseFramesSnoc(below, f);
    EraseFramesSnoc(below, f.(code := f.code[1..]));
    assert s.frames == below + [f];
    var e := if f.code[0].Fence? then Event(P.Fence, f.fn, 0, true)
      else Event(P.Clwb(f.Addr(f.code[0].ptr)), f.fn, f.code[0].ptr, true);
    EraseLogSnoc(s.log, e);
    assert EraseLog(s.log) + [] == EraseLog(s.log);
  }

  lemma StepErasesOther(base: Program, p: Program, s: State)
    requires WellFormedState(base, p, s) && s.frames != [] && !AtRepair(s)
    requires var f := s.frames[|s.frames| - 1]; f.code != [] && !f.code[0].Call?
    ensures EraseState(Step(p, s)) == Step(base, EraseState(s))
  {
    hide EraseCode, Origin, EraseLog, EraseEffects, CallsMatch, Jump, External;
    var n := |s.frames| - 1;
    var below, f := s.frames[..n], s.frames[n];
    assert f in s.frames && WellFormedFrame(base, p, f);
    EraseCodeHead(f.code);
    EraseFramesSnoc(below, f);
    assert s.frames == below + [f];
    assert EraseFrames(s.frames)[..n] == EraseFrames(below);
    var i, next := f.code[0], f.(code := f.code[1..]);
    if i.Flush? {
      EraseFramesSnoc(below, next);
      EraseLogSnoc(s.log, Event(P.Clwb(f.Addr(i.ptr)), f.fn, i.ptr, i.added));
    } else if i.Fence? {
      EraseFramesSnoc(below, next);
      EraseLogSnoc(s.log, Event(P.Fence, f.fn, 0, i.added));
    } else if s.input != [] {
      assert EraseInput(s.input[1..]) == EraseInput(s.input)[1..];
      if i.Compute? {
        EraseFramesSnoc(below, next.(regs := f.regs[i.dest := s.input[0].number]));
      } else {
        EraseFramesSnoc(below, next);
        EraseLogSnoc(s.log, Event(P.Store(f.Addr(i.ptr), s.input[0].bytes), f.fn, i.ptr, false));
      }
    }
  }

  /** One step of a program is, added flushes and fences aside, the step of its erasure, or none. */
  lemma StepErases(base: Program, p: Program, s: State)
    requires Implements(base, p) && WellFormedState(base, p, s)
    ensures EraseState(Step(p, s)) == if AtRepair(s) then EraseState(s) else Step(base, EraseState(s))
  {
    hide Step, EraseState, Implements, WellFormedState;
    if s.frames == [] {
      NoFrames(base, p, s);
    } else if s.frames[|s.frames| - 1].code == [] {
      StepErasesReturn(base, p, s);
    } else if s.frames[|s.frames| - 1].code[0].Call? {
      StepErasesCall(base, p, s);
    } else if AtRepair(s) {
      StepErasesRepair(base, p, s);
    } else {
      StepErasesOther(base, p, s);
    }
  }

  lemma NoFrames(base: Program, p: Program, s: State)
    requires s.frames == []
    ensures EraseState(Step(p, s)) == EraseState(s) == Step(base, EraseState(s))
  {
  }

  /** Every run of a program that implements `base` is a run of `base` with added flushes and fences. */
  lemma {:induction false} RunErases(base: Program, p: Program, s: State, n: nat) returns (m: nat)
    requires Implements(base, p) && WellFormedState(base, p, s)
    ensures m <= n && EraseState(Run(p, s, n)) == Run(base, EraseState(s), m) && WellFormedState(base, p, Run(p, s, n))
  {
    hide Step, EraseState, Implements, WellFormedState;
    if n == 0 {
      m := 0;
    } else {
      m := RunErases(base, p, s, n - 1);
      var t := Run(p, s, n - 1);
      StepErases(base, p, t);
      WellFormedStep(base, p, t);
      if !AtRepair(t) {
        m := m + 1;
      }
    }
  }

  /** And `base` has no others: each of its runs is a run of `p`. */
  lemma {:induction false} RunRefined(base: Program, p: Program, s: State, m: nat) returns (n: nat)
    requires Implements(base, p) && WellFormedState(base, p, s)
    ensures m <= n && EraseState(Run(p, s, n)) == Run(base, EraseState(s), m) && WellFormedState(base, p, Run(p, s, n))
  {
    hide Step, EraseState, Implements, WellFormedState;
    if m == 0 {
      n := 0;
    } else {
      n := RunRefined(base, p, s, m - 1);
      var t := Run(p, s, n);
      var k := PastRepairs(base, p, t);
      RunAdd(p, s, n, k);
      var t' := Run(p, t, k);
      StepErases(base, p, t');
      WellFormedStep(base, p, t');
      assert Run(p, s, n + k + 1) == Step(p, Run(p, s, n + k));
      n := n + k + 1;
    }
  }

  /** Only finitely many added instructions are ahead. */
  lemma {:induction false} PastRepairs(base: Program, p: Program, s: State) returns (k: nat)
    requires Implements(base, p) && WellFormedState(base, p, s)
    ensures !AtRepair(Run(p, s, k)) && EraseState(Run(p, s, k)) == EraseState(s)
            && WellFormedState(base, p, Run(p, s, k))
    decreases if s.frames == [] then 0 else |s.frames[|s.frames| - 1].code|
  {
    hide Step, EraseState, Implements, WellFormedState, Run;
    if AtRepair(s) {
      var t := Step(p, s);
      StepErases(base, p, s);
      WellFormedStep(base, p, s);
      RepairStepShortens(p, s);
      RunFirst(p, s);
      k := PastRepairs(base, p, t);
      RunAdd(p, s, 1, k);
      k := 1 + k;
    } else {
      k := 0;
      RunFirst(p, s);
    }
  }

  lemma RunFirst(p: Program, s: State)
    ensures Run(p, s, 0) == s && Run(p, s, 1) == Step(p, s)
  {
    assert Run(p, s, 1) == Step(p, Run(p, s, 0));
  }

  lemma RepairStepShortens(p: Program, s: State)
    requires AtRepair(s)
    ensures var t := Step(p, s);
            t.frames != [] && |t.frames[|t.frames| - 1].code| < |s.frames[|s.frames| - 1].code|
  {
  }

  /** Two programs with the same erasure do the same: whatever one has done after some steps, and
      wherever it then stands, the other gets there too, with the same operations in the same order
      from the same functions, but for added flushes and fences. */
  lemma SameBehaviour(base: Program, p: Program, q: Program, s: State, t: State, n: nat) returns (n': nat)
    requires Implements(base, p) && Implements(base, q)
    requires WellFormedState(base, p, s) && WellFormedState(base, q, t) && EraseState(s) == EraseState(t)
    ensures EraseState(Run(q, t, n')) == EraseState(Run(p, s, n))
    ensures EraseLog(Run(q, t, n').log) == EraseLog(Run(p, s, n).log)
  {
    var m := RunErases(base, p, s, n);
    n' := RunRefined(base, q, t, m);
    assert EraseState(Run(q, t, n')).log == EraseState(Run(p, s, n)).log;
  }

  // ----- Do no harm, for whole programs ------------------------------------------------------------------------------

  function Ops(log: seq<Event>): seq<P.Op> {
    seq(|log|, i requires 0 <= i < |log| => log[i].op)
  }

  lemma {:induction false} LogOnlyAdds(log: seq<Event>)
    ensures P.OnlyAdds(Ops(EraseLog(log)), Ops(log))
  {
    hide P.OnlyAdds, EraseDoer;
    if log == [] {
      P.OnlyAddsRefl([]);
    } else {
      var front, e := log[..|log| - 1], log[|log| - 1];
      LogOnlyAdds(front);
      P.OnlyAddsAppend(Ops(EraseLog(front)), Ops(front), e.op);
      assert Ops(log) == Ops(front) + [e.op];
      if e.IsRepair() {
        assert EraseLog(log) == EraseLog(front) + [] == EraseLog(front);
      } else {
        assert Ops(EraseLog(log)) == Ops(EraseLog(front)) + [e.op];
      }
    }
  }

  predicate PlainCode(code: seq<Instr>) {
    forall i | i in code :: !i.IsRepair()
  }

  /** Nothing in the program was added by the fixer. */
  predicate PlainProgram(p: Program) {
    forall n | n in p :: forall b | b in p[n].blocks :: PlainCode(b.code)
  }

  predicate PlainLog(log: seq<Event>) {
    forall e | e in log :: !e.IsRepair()
  }

  predicate PlainState(s: State) {
    && (forall f | f in s.frames :: PlainCode(f.code))
    && (forall c | c in s.input :: forall e | e in c.effects :: !e.IsRepair())
    && PlainLog(s.log)
  }

  lemma PlainStep(p: Program, s: State)
    requires PlainProgram(p) && PlainState(s)
    ensures PlainState(Step(p, s))
  {
    if s.frames != [] {
      var f := s.frames[|s.frames| - 1];
      assert f in s.frames && PlainCode(f.code);
      if f.code != [] {
        assert f.code[0] in f.code && PlainCode(f.code[1..]);
        if f.code[0].Call? && !Defined(p, f.code[0].callee) && s.input != [] {
          assert s.input[0] in s.input;
          forall e | e in External(s.input[0].effects, f.code[0].callee) ensures !e.IsRepair() {
            var i :| 0 <= i < |s.input[0].effects|
              && e == Event(s.input[0].effects[i].op, Persistent(f.code[0].callee), 0, s.input[0].effects[i].added);
            assert s.input[0].effects[i] in s.input[0].effects;
          }
        }
      }
    }
  }

  lemma {:induction false} PlainRun(p: Program, s: State, n: nat)
    requires PlainProgram(p) && PlainState(s)
    ensures PlainLog(Run(p, s, n).log) && PlainState(Run(p, s, n))
  {
    hide Step, PlainProgram;
    if n > 0 {
      PlainRun(p, s, n - 1);
      PlainStep(p, Run(p, s, n - 1));
    }
  }

  lemma {:induction false} PlainLogErased(log: seq<Event>)
    requires PlainLog(log)
    ensures Ops(EraseLog(log)) == Ops(log)
  {
    if log != [] {
      var front, e := log[..|log| - 1], log[|log| - 1];
      assert forall x | x in front :: x in log;
      PlainLogErased(front);
      assert e in log;
      assert Ops(log) == Ops(front) + [e.op];
      assert Ops(EraseLog(log)) == Ops(EraseLog(front)) + [e.op];
    }
  }

  /** A rewritten program does no harm. Wherever the original gets, the rewritten one gets, with the
      operations of the original and added flushes and fences; so it reads the same memory there, and
      every byte that the original has persisted is persisted. */
  lemma ProgramDoesNoHarm(base: Program, p: Program, q: Program, s: State, t: State, n: nat) returns (n': nat)
    requires Implements(base, p) && Implements(base, q) && PlainProgram(p) && PlainState(s)
    requires WellFormedState(base, p, s) && WellFormedState(base, q, t) && EraseState(s) == EraseState(t)
    ensures EraseState(Run(q, t, n')) == EraseState(Run(p, s, n))
    ensures var orig, fixed := Ops(Run(p, s, n).log), Ops(Run(q, t, n').log);
            && P.OnlyAdds(orig, fixed)
            && P.Run(fixed).image == P.Run(orig).image
            && forall b :: P.Run(orig).Persisted(b) ==> P.Run(fixed).Persisted(b)
  {
    hide Implements, PlainProgram, PlainState, WellFormedState, P.OnlyAdds, P.Run, EraseLog;
    n' := SameBehaviour(base, p, q, s, t, n);
    PlainRun(p, s, n);
    PlainLogErased(Run(p, s, n).log);
    LogOnlyAdds(Run(q, t, n').log);
    P.DoNoHarm(Ops(Run(p, s, n).log), Ops(Run(q, t, n').log));
  }
}
