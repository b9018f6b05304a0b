/**
 The graph of program points between two events of the trace (src/FlowAnalyzer.cpp:179-274,
 src/FlowAnalyzer.cpp:480-689): nodes are stretches of code in a call context, found by a worklist that
 follows calls and returns. The construction ends for every program, recursive ones included, and finds
 exactly what can be reached.
 */
module FlowAnalysis {
  import opened Options

  /** An instruction; `Call` is a call of a defined function, and `Jump` ends a block. An instruction that
      does not end its block is followed by the next one. */
  datatype Instr = Ordinary | Call(entry: nat) | Ret | Jump(succs: seq<nat>) {
    predicate EndsBlock() {
      Ret? || Jump?
    }
  }

  datatype Program = Program(insts: seq<Instr>) {
    predicate Has(i: nat) {
      i < |insts|
    }

    predicate WellFormed() {
      forall i | 0 <= i < |insts| ::
        && (!insts[i].EndsBlock() ==> i + 1 < |insts|)
        && (insts[i].Call? ==> Has(insts[i].entry))
        && (insts[i].Jump? ==> forall k | 0 <= k < |insts[i].succs| :: Has(insts[i].succs[k]))
    }

    /** Something to return to. */
    predicate CanCall(i: nat) {
      Has(i) && !insts[i].EndsBlock()
    }

    /** The end of the stretch of code that starts at `first`: the next call behind `first`, or the end of
        the block. A call at `first` itself is passed over. */
    function LastOf(first: nat): (last: nat)
      requires WellFormed() && Has(first)
      ensures first <= last && Has(last)
      decreases |insts| - first
    {
      if insts[first].EndsBlock() then first
      else if insts[first + 1].Call? then first + 1
      else LastOf(first + 1)
    }

    lemma {:induction false} LastOfMeaning(first: nat)
      requires WellFormed() && Has(first)
      ensures var last := LastOf(first);
              && (insts[last].Call? || insts[last].EndsBlock())
              && (insts[last].Call? ==> first < last)
              && forall i | first < i < last :: insts[i].Ordinary?
      decreases |insts| - first
    {
      if !insts[first].EndsBlock() && !insts[first + 1].Call? {
        LastOfMeaning(first + 1);
      }
    }

    function CallSites(): set<nat> {
      set i | 0 <= i < |insts| && insts[i].Call?
    }
  }

  // ----- What should be found ---------------------------------------------------------------------------

  /** A stretch of code in a call context: the calls on the stack, and the first instruction. */
  datatype Spot = Spot(stack: seq<nat>, first: nat)

  predicate ValidSpot(p: Program, s: Spot) {
    p.Has(s.first) && forall k | 0 <= k < |s.stack| :: p.CanCall(s.stack[k])
  }

  /** Where control goes from the end of a stretch. A call that is already on the stack is not entered. */
  function Next(p: Program, s: Spot): seq<Spot>
    requires p.WellFormed() && ValidSpot(p, s)
  {
    var last := p.LastOf(s.first);
    match p.insts[last]
    case Ret => if s.stack == [] then [] else [Spot(s.stack[..|s.stack| - 1], s.stack[|s.stack| - 1] + 1)]
    case Call(entry) => if last in s.stack then [Spot(s.stack, last + 1)] else [Spot(s.stack + [last], entry)]
    case Jump(succs) => seq(|succs|, k requires 0 <= k < |succs| => Spot(s.stack, succs[k]))
    case Ordinary => []
  }

  lemma NextValid(p: Program, s: Spot)
    requires p.WellFormed() && ValidSpot(p, s)
    ensures forall t | t in Next(p, s) :: ValidSpot(p, t)
  {
  }

  /** A path that follows the program and does not go on behind `end`. */
  ghost predicate IsPath(p: Program, end: Spot, path: seq<Spot>)
    requires p.WellFormed()
  {
    && path != []
    && (forall k | 0 <= k < |path| :: ValidSpot(p, path[k]))
    && forall k | 0 <= k < |path| - 1 :: path[k] != end && path[k + 1] in Next(p, path[k])
  }

  ghost predicate Reachable(p: Program, start: Spot, end: Spot, s: Spot)
    requires p.WellFormed()
  {
    exists path :: IsPath(p, end, path) && path[0] == start && path[|path| - 1] == s
  }

  lemma ReachableNext(p: Program, start: Spot, end: Spot, s: Spot, t: Spot)
    requires p.WellFormed() && Reachable(p, start, end, s) && s != end
    requires ValidSpot(p, s) && t in Next(p, s)
    ensures Reachable(p, start, end, t)
  {
    hide Next;
    var path :| IsPath(p, end, path) && path[0] == start && path[|path| - 1] == s;
    NextValid(p, s);
    var longer := path + [t];
    assert IsPath(p, end, longer);
    assert longer[|longer| - 1] == t;
  }

  lemma ReachableStart(p: Program, start: Spot, end: Spot)
    requires p.WellFormed() && ValidSpot(p, start)
    ensures Reachable(p, start, end, start)
  {
    assert IsPath(p, end, [start]);
  }

  // ----- Why the construction ends ----------------------------------------------------------------------

  /** Call sites that a context can still descend into. */
  function Free(p: Program, stack: seq<nat>): nat {
    |p.CallSites() - (set k | 0 <= k < |stack| :: stack[k])|
  }

  lemma FreeDescends(p: Program, stack: seq<nat>, cb: nat)
    requires cb in p.CallSites() && cb !in stack
    ensures Free(p, stack + [cb]) == Free(p, stack) - 1
  {
    var on := set k | 0 <= k < |stack| :: stack[k];
    var on' := set k | 0 <= k < |stack + [cb]| :: (stack + [cb])[k];
    forall x ensures x in on' <==> x in on || x == cb {
      if x in on {
        var k :| 0 <= k < |stack| && stack[k] == x;
        assert (stack + [cb])[k] == x;
      }
      assert (stack + [cb])[|stack|] == cb;
    }
    assert p.CallSites() - on' == (p.CallSites() - on) - {cb};
  }

  /** A bound on the nodes that one starting instruction of a context can lead to when `free` calls can be
      descended into and a function has at most `size` starting instructions. */
  function Worth(size: nat, free: nat): nat {
    if free == 0 then 1 else 1 + size * Worth(size, free - 1)
  }

  lemma WorthStep(size: nat, free: nat)
    requires 0 < free
    ensures Worth(size, free) == 1 + size * Worth(size, free - 1)
  {
  }

  /** All instructions that can still start a node, each with its worth. */
  function Total(p: Program, stacks: seq<seq<nat>>, open: seq<set<nat>>): nat
    requires |stacks| == |open|
  {
    if stacks == [] then 0
    else
      var n := |stacks| - 1;
      Total(p, stacks[..n], open[..n]) + |open[n]| * Worth(|p.insts|, Free(p, stacks[n]))
  }

  lemma {:induction false} TotalWithout(p: Program, stacks: seq<seq<nat>>, open: seq<set<nat>>, c: nat, x: nat)
    requires |stacks| == |open| && c < |open| && x in open[c]
    ensures Total(p, stacks, open[c := open[c] - {x}]) == Total(p, stacks, open) - Worth(|p.insts|, Free(p, stacks[c]))
  {
    hide Worth, Free;
    var n, less := |stacks| - 1, open[c := open[c] - {x}];
    var w := Worth(|p.insts|, Free(p, stacks[n]));
    if c == n {
      assert less[..n] == open[..n];
      assert |less[n]| * w == |open[n]| * w - w by {
        Fewer(|open[n]|, w);
      }
    } else {
      assert less[..n] == open[..n][c := open[..n][c] - {x}];
      TotalWithout(p, stacks[..n], open[..n], c, x);
    }
  }

  lemma Fewer(n: nat, w: nat)
    requires 0 < n
    ensures (n - 1) * w == n * w - w
  {
  }

  lemma TotalSnoc(p: Program, stacks: seq<seq<nat>>, open: seq<set<nat>>, stack: seq<nat>, all: set<nat>)
    requires |stacks| == |open|
    ensures Total(p, stacks + [stack], open + [all])
            == Total(p, stacks, open) + |all| * Worth(|p.insts|, Free(p, stack))
  {
    assert (stacks + [stack])[..|stacks|] == stacks && (open + [all])[..|open|] == open;
  }

  function AllInsts(size: nat): (r: set<nat>)
    ensures |r| == size && forall i: nat :: i in r <==> i < size
  {
    if size == 0 then {} else AllInsts(size - 1) + {size - 1}
  }

  // ----- The graph ------------------------------------------------------------------------------------------

  datatype Context = Context(callStack: seq<nat>, parent: Option<nat>)

  datatype Block = Block(ctx: nat, first: nat, last: nat, traceInst: nat)

  datatype Node = Node(block: Block, parents: set<nat>, children: set<nat>, constructed: bool) {
    predicate IsTerminator() {
      children == {} && constructed
    }
  }

  function SpotOf(cs: seq<Context>, n: Node): Spot
    requires n.block.ctx < |cs|
  {
    Spot(cs[n.block.ctx].callStack, n.block.first)
  }

  function Stacks(cs: seq<Context>): seq<seq<nat>> {
    seq(|cs|, c requires 0 <= c < |cs| => cs[c].callStack)
  }

  /** The parent of a context is the one that made the last call of its stack. */
  predicate ContextsOk(p: Program, cs: seq<Context>) {
    forall c | 0 <= c < |cs| ::
      && (forall k | 0 <= k < |cs[c].callStack| :: p.CanCall(cs[c].callStack[k]))
      && (cs[c].parent.None? <==> cs[c].callStack == [])
      && (cs[c].parent.Some? ==>
            && cs[c].parent.value < |cs|
            && cs[cs[c].parent.value].callStack == cs[c].callStack[..|cs[c].callStack| - 1])
  }

  predicate BlockOk(p: Program, cs: seq<Context>, b: Block)
    requires p.WellFormed()
  {
    b.ctx < |cs| && p.Has(b.first) && b.last == p.LastOf(b.first)
  }

  predicate BlocksOk(p: Program, cs: seq<Context>, ns: seq<Node>)
    requires p.WellFormed()
  {
    forall n | 0 <= n < |ns| :: BlockOk(p, cs, ns[n].block)
  }

  type Cache = map<(nat, nat), nat>

  /** The cache has every node but the root, each at its context and first instruction. */
  predicate CacheOk(ns: seq<Node>, cache: Cache) {
    && (forall k | k in cache :: 0 < cache[k] < |ns| && (ns[cache[k]].block.ctx, ns[cache[k]].block.first) == k)
    && (forall n | 0 < n < |ns| ::
      (ns[n].block.ctx, ns[n].block.first) in cache && cache[(ns[n].block.ctx, ns[n].block.first)] == n)
  }

  /** The instructions that can still start a node of a context are those without a constructed node. */
  ghost predicate OpenOk(p: Program, cs: seq<Context>, ns: seq<Node>, cache: Cache, open: seq<set<nat>>) {
    && |open| == |cs|
    && forall c, i: nat | 0 <= c < |cs| ::
         i in open[c] <==> i < |p.insts| && !((c, i) in cache && cache[(c, i)] < |ns| && ns[cache[(c, i)]].constructed)
  }

  predicate Child(ns: seq<Node>, n: nat, m: nat) {
    n < |ns| && m in ns[n].children
  }

  predicate Parent(ns: seq<Node>, n: nat, m: nat) {
    m < |ns| && n in ns[m].parents
  }

  ghost predicate LinksOk(ns: seq<Node>) {
    forall n: nat, m: nat :: Child(ns, n, m) <==> Parent(ns, n, m)
  }

  /** The children of a node are where control goes from it. */
  ghost predicate Expanded(p: Program, cs: seq<Context>, ns: seq<Node>, end: Spot, n: nat)
    requires p.WellFormed() && ContextsOk(p, cs) && BlocksOk(p, cs, ns) && n < |ns|
  {
    var s := SpotOf(cs, ns[n]);
    if s == end then ns[n].children == {}
    else
      && (forall m: nat | Child(ns, n, m) :: m < |ns| && SpotOf(cs, ns[m]) in Next(p, s))
      && (forall t | t in Next(p, s) :: exists m: nat :: Child(ns, n, m) && m < |ns| && SpotOf(cs, ns[m]) == t)
  }

  ghost function Potential(p: Program, cs: seq<Context>, ns: seq<Node>, open: seq<set<nat>>): nat
    requires p.WellFormed() && |open| == |cs| && ns != [] && BlocksOk(p, cs, ns)
  {
    Total(p, Stacks(cs), open)
    + if ns[0].constructed then 0 else Worth(|p.insts|, Free(p, cs[ns[0].block.ctx].callStack))
  }

  // ----- Steps of the construction --------------------------------------------------------------------------

  /** Nodes after some others, with more links. */
  predicate SameShape(ns: seq<Node>, ns': seq<Node>) {
    |ns| == |ns'| && forall n | 0 <= n < |ns| :: ns[n].block == ns'[n].block && ns[n].constructed == ns'[n].constructed
  }

  ghost predicate GraphOk(p: Program, cs: seq<Context>, ns: seq<Node>, cache: Cache, open: seq<set<nat>>) {
    && p.WellFormed() && ns != [] && ContextsOk(p, cs) && BlocksOk(p, cs, ns)
    && CacheOk(ns, cache) && OpenOk(p, cs, ns, cache, open) && LinksOk(ns)
  }

  lemma ShapeOk(p: Program, cs: seq<Context>, ns: seq<Node>, ns': seq<Node>, cache: Cache, open: seq<set<nat>>)
    requires GraphOk(p, cs, ns, cache, open) && SameShape(ns, ns') && LinksOk(ns')
    ensures GraphOk(p, cs, ns', cache, open)
  {
    forall n | 0 <= n < |ns'| ensures BlockOk(p, cs, ns'[n].block) {
      assert BlockOk(p, cs, ns[n].block);
    }
    forall n | 0 < n < |ns'|
      ensures (ns'[n].block.ctx, ns'[n].block.first) in cache && cache[(ns'[n].block.ctx, ns'[n].block.first)] == n
    {
      assert ns[n].block == ns'[n].block;
    }
  }

  function Linked(ns: seq<Node>, n: nat, m: nat): seq<Node>
    requires n < |ns| && m < |ns|
  {
    var ns1 := ns[n := ns[n].(children := ns[n].children + {m})];
    ns1[m := ns1[m].(parents := ns1[m].parents + {n})]
  }

  lemma LinkedOk(ns: seq<Node>, n: nat, m: nat)
    requires n < |ns| && m < |ns| && LinksOk(ns)
    ensures LinksOk(Linked(ns, n, m)) && SameShape(ns, Linked(ns, n, m))
    ensures Linked(ns, n, m)[n].children == ns[n].children + {m}
    ensures forall k | 0 <= k < |ns| && k != n :: Linked(ns, n, m)[k].children == ns[k].children
  {
    var ns' := Linked(ns, n, m);
    forall a: nat, b: nat ensures Child(ns', a, b) <==> Parent(ns', a, b) {
      assert Child(ns', a, b) <==> Child(ns, a, b) || (a == n && b == m);
      assert Parent(ns', a, b) <==> Parent(ns, a, b) || (a == n && b == m);
    }
  }

  function Marked(ns: seq<Node>, n: nat): seq<Node>
    requires n < |ns|
  {
    ns[n := ns[n].(constructed := true)]
  }

  ghost function Closed(ns: seq<Node>, open: seq<set<nat>>, n: nat): seq<set<nat>>
    requires n < |ns| && ns[n].block.ctx < |open|
  {
    if n == 0 then open
    else open[ns[n].block.ctx := open[ns[n].block.ctx] - {ns[n].block.first}]
  }

  lemma MarkedOk(p: Program, cs: seq<Context>, ns: seq<Node>, cache: Cache, open: seq<set<nat>>, n: nat)
    requires GraphOk(p, cs, ns, cache, open) && n < |ns| && !ns[n].constructed
    ensures ns[n].block.ctx < |open| && GraphOk(p, cs, Marked(ns, n), cache, Closed(ns, open, n))
  {
    var ns' := Marked(ns, n);
    assert BlockOk(p, cs, ns[n].block);
    forall k | 0 <= k < |ns'| ensures BlockOk(p, cs, ns'[k].block) {
      assert BlockOk(p, cs, ns[k].block);
    }
    forall k | 0 < k < |ns'|
      ensures (ns'[k].block.ctx, ns'[k].block.first) in cache && cache[(ns'[k].block.ctx, ns'[k].block.first)] == k
    {
      assert ns[k].block == ns'[k].block;
    }
    forall a: nat, b: nat ensures Child(ns', a, b) <==> Parent(ns', a, b) {
      assert Child(ns', a, b) <==> Child(ns, a, b);
      assert Parent(ns', a, b) <==> Parent(ns, a, b);
    }
  }

  /** Marking a node uses up its worth. */
  lemma MarkedPotential(p: Program, cs: seq<Context>, ns: seq<Node>, cache: Cache, open: seq<set<nat>>, n: nat)
    requires GraphOk(p, cs, ns, cache, open) && n < |ns| && !ns[n].constructed
    ensures ns[n].block.ctx < |cs| && BlocksOk(p, cs, Marked(ns, n))
    ensures Potential(p, cs, Marked(ns, n), Closed(ns, open, n))
            == Potential(p, cs, ns, open) - Worth(|p.insts|, Free(p, cs[ns[n].block.ctx].callStack))
  {
    hide Total, Worth, Free;
    MarkedOk(p, cs, ns, cache, open, n);
    var b := ns[n].block;
    if n != 0 {
      assert BlockOk(p, cs, b) && (b.ctx, b.first) in cache && cache[(b.ctx, b.first)] == n;
      assert b.first in open[b.ctx];
      TotalWithout(p, Stacks(cs), open, b.ctx, b.first);
    }
  }

  function Traced(ns: seq<Node>, n: nat, trace: nat): seq<Node>
    requires n < |ns|
  {
    ns[n := ns[n].(block := ns[n].block.(traceInst := trace))]
  }

  lemma TracedOk(p: Program, cs: seq<Context>, ns: seq<Node>, cache: Cache, open: seq<set<nat>>, n: nat, trace: nat)
    requires GraphOk(p, cs, ns, cache, open) && n < |ns|
    ensures GraphOk(p, cs, Traced(ns, n, trace), cache, open)
    ensures Potential(p, cs, Traced(ns, n, trace), open) == Potential(p, cs, ns, open)
  {
    hide Potential;
    var ns' := Traced(ns, n, trace);
    forall k | 0 <= k < |ns'| ensures BlockOk(p, cs, ns'[k].block) {
      assert BlockOk(p, cs, ns[k].block);
    }
    forall k | 0 < k < |ns'|
      ensures (ns'[k].block.ctx, ns'[k].block.first) in cache && cache[(ns'[k].block.ctx, ns'[k].block.first)] == k
    {
      assert (ns[k].block.ctx, ns[k].block.first) in cache;
    }
    forall a: nat, b: nat ensures Child(ns', a, b) <==> Parent(ns', a, b) {
      assert Child(ns', a, b) <==> Child(ns, a, b);
      assert Parent(ns', a, b) <==> Parent(ns, a, b);
    }
    TracedPotential(p, cs, ns, open, n, trace);
  }

  lemma TracedPotential(p: Program, cs: seq<Context>, ns: seq<Node>, open: seq<set<nat>>, n: nat, trace: nat)
    requires p.WellFormed() && |open| == |cs| && ns != [] && n < |ns|
    requires BlocksOk(p, cs, ns) && BlocksOk(p, cs, Traced(ns, n, trace))
    ensures Potential(p, cs, Traced(ns, n, trace), open) == Potential(p, cs, ns, open)
  {
  }

  function NewNode(b: Block): Node {
    Node(b, {}, {}, false)
  }

  lemma AddedOk(p: Program, cs: seq<Context>, ns: seq<Node>, cache: Cache, open: seq<set<nat>>, b: Block)
    requires GraphOk(p, cs, ns, cache, open) && BlockOk(p, cs, b) && (b.ctx, b.first) !in cache
    ensures GraphOk(p, cs, ns + [NewNode(b)], cache[(b.ctx, b.first) := |ns|], open)
  {
    var ns', cache' := ns + [NewNode(b)], cache[(b.ctx, b.first) := |ns|];
    forall n | 0 <= n < |ns'| ensures BlockOk(p, cs, ns'[n].block) {
      assert n < |ns| ==> BlockOk(p, cs, ns[n].block);
    }
    forall n | 0 < n < |ns'|
      ensures (ns'[n].block.ctx, ns'[n].block.first) in cache' && cache'[(ns'[n].block.ctx, ns'[n].block.first)] == n
    {
      assert n < |ns| ==> ns[n].block == ns'[n].block;
    }
    LinksKept(ns, NewNode(b));
  }

  lemma LinksKept(ns: seq<Node>, x: Node)
    requires LinksOk(ns) && x.children == {} && x.parents == {}
    ensures LinksOk(ns + [x])
  {
    var ns' := ns + [x];
    forall a: nat, b: nat ensures Child(ns', a, b) <==> Parent(ns', a, b) {
      assert Child(ns', a, b) <==> Child(ns, a, b);
      assert Parent(ns', a, b) <==> Parent(ns, a, b);
    }
  }

  function Descended(cs: seq<Context>, ctx: nat, cb: nat): seq<Context>
    requires ctx < |cs|
  {
    cs + [Context(cs[ctx].callStack + [cb], Some(ctx))]
  }

  lemma NotCached(p: Program, cs: seq<Context>, ns: seq<Node>, cache: Cache, c: nat, i: nat)
    requires p.WellFormed() && BlocksOk(p, cs, ns) && CacheOk(ns, cache) && |cs| <= c
    ensures (c, i) !in cache
  {
    forall n | 0 <= n < |ns| ensures ns[n].block.ctx < |cs| {
      assert BlockOk(p, cs, ns[n].block);
    }
  }

  lemma DescendedOk(p: Program, cs: seq<Context>, ns: seq<Node>, cache: Cache, open: seq<set<nat>>, ctx: nat, cb: nat)
    requires GraphOk(p, cs, ns, cache, open) && ctx < |cs| && p.CanCall(cb)
    ensures GraphOk(p, Descended(cs, ctx, cb), ns, cache, open + [AllInsts(|p.insts|)])
  {
    var cs', open' := Descended(cs, ctx, cb), open + [AllInsts(|p.insts|)];
    forall c | 0 <= c < |cs'|
      ensures (forall k | 0 <= k < |cs'[c].callStack| :: p.CanCall(cs'[c].callStack[k]))
      ensures cs'[c].parent.None? <==> cs'[c].callStack == []
      ensures cs'[c].parent.Some? ==>
                && cs'[c].parent.value < |cs'|
                && cs'[cs'[c].parent.value].callStack == cs'[c].callStack[..|cs'[c].callStack| - 1]
    {
      if c < |cs| {
        assert cs'[c] == cs[c];
      } else {
        assert (cs[ctx].callStack + [cb])[..|cs[ctx].callStack|] == cs[ctx].callStack;
      }
    }
    forall n | 0 <= n < |ns| ensures BlockOk(p, cs', ns[n].block) {
      assert BlockOk(p, cs, ns[n].block);
    }
    forall c, i: nat | 0 <= c < |cs'|
      ensures i in open'[c] <==>
              i < |p.insts| && !((c, i) in cache && cache[(c, i)] < |ns| && ns[cache[(c, i)]].constructed)
    {
      if c < |cs| {
        assert open'[c] == open[c];
      } else {
        NotCached(p, cs, ns, cache, c, i);
      }
    }
  }

  /** A descent costs less than the node that makes it is worth. */
  lemma DescendedPotential(p: Program, cs: seq<Context>, ns: seq<Node>, cache: Cache, open: seq<set<nat>>, ctx: nat,
                           cb: nat)
    requires GraphOk(p, cs, ns, cache, open) && ctx < |cs|
    requires GraphOk(p, Descended(cs, ctx, cb), ns, cache, open + [AllInsts(|p.insts|)])
    requires cb in p.CallSites() && cb !in cs[ctx].callStack
    ensures Potential(p, Descended(cs, ctx, cb), ns, open + [AllInsts(|p.insts|)])
            < Potential(p, cs, ns, open) + Worth(|p.insts|, Free(p, cs[ctx].callStack))
  {
    hide Total, Free, Worth;
    var stack := cs[ctx].callStack + [cb];
    FreeDescends(p, cs[ctx].callStack, cb);
    assert Stacks(Descended(cs, ctx, cb)) == Stacks(cs) + [stack];
    TotalSnoc(p, Stacks(cs), open, stack, AllInsts(|p.insts|));
    assert BlockOk(p, cs, ns[0].block);
    WorthStep(|p.insts|, Free(p, cs[ctx].callStack));
  }

  // ----- What holds between rounds --------------------------------------------------------------------------

  /** Every node that is not constructed waits in the frontier, without children. */
  predicate Waiting(ns: seq<Node>, frontier: seq<nat>) {
    && (forall k | 0 <= k < |frontier| :: frontier[k] < |ns|)
    && (forall n | 0 <= n < |ns| && !ns[n].constructed :: n in frontier && ns[n].children == {})
  }

  ghost predicate AllExpanded(p: Program, cs: seq<Context>, ns: seq<Node>, end: Spot)
    requires p.WellFormed() && ContextsOk(p, cs) && BlocksOk(p, cs, ns)
  {
    forall n | 0 <= n < |ns| && ns[n].constructed :: Expanded(p, cs, ns, end, n)
  }

  ghost predicate AllReached(p: Program, cs: seq<Context>, ns: seq<Node>, start: Spot, end: Spot)
    requires p.WellFormed() && BlocksOk(p, cs, ns)
  {
    forall n | 0 <= n < |ns| :: BlockOk(p, cs, ns[n].block) && Reachable(p, start, end, SpotOf(cs, ns[n]))
  }

  /** The leaves are the constructed nodes without children, each of them once. */
  predicate LeavesOk(ns: seq<Node>, leaves: seq<nat>) {
    && (forall k | 0 <= k < |leaves| :: leaves[k] < |ns| && ns[leaves[k]].IsTerminator())
    && (forall n | 0 <= n < |ns| && ns[n].IsTerminator() :: n in leaves)
    && (forall j, k | 0 <= j < k < |leaves| :: leaves[j] != leaves[k])
  }

  /** The spots of some nodes. */
  function SpotsOf(cs: seq<Context>, ns: seq<Node>, ms: seq<nat>): seq<Spot>
    requires forall k | 0 <= k < |ms| :: ms[k] < |ns| && ns[ms[k]].block.ctx < |cs|
  {
    seq(|ms|, k requires 0 <= k < |ms| => SpotOf(cs, ns[ms[k]]))
  }

  predicate PairsOk(p: Program, cs: seq<Context>, ss: seq<(nat, nat)>) {
    forall k | 0 <= k < |ss| :: ss[k].0 < |cs| && p.Has(ss[k].1)
  }

  function PairSpots(cs: seq<Context>, ss: seq<(nat, nat)>): seq<Spot>
    requires forall k | 0 <= k < |ss| :: ss[k].0 < |cs|
  {
    seq(|ss|, k requires 0 <= k < |ss| => Spot(cs[ss[k].0].callStack, ss[k].1))
  }

  predicate NodeFits(p: Program, cs: seq<Context>, ns: seq<Node>, n: nat) {
    n < |ns| && ns[n].block.ctx < |cs| && ValidSpot(p, SpotOf(cs, ns[n]))
  }

  /** New nodes have come, all of them among `finals`. */
  predicate Grown(ns: seq<Node>, ns': seq<Node>, finals: seq<nat>) {
    ns <= ns' && forall k | |ns| <= k < |ns'| :: ns'[k] == NewNode(ns'[k].block) && k in finals
  }

  predicate FinalsOk(cs: seq<Context>, ns: seq<Node>, finals: seq<nat>) {
    forall k | 0 <= k < |finals| :: 0 < finals[k] < |ns| && ns[finals[k]].block.ctx < |cs|
  }

  /** The same, where `more` are about to join the frontier. */
  predicate WaitingOr(ns: seq<Node>, frontier: seq<nat>, more: seq<nat>) {
    && (forall k | 0 <= k < |frontier| :: frontier[k] < |ns|)
    && (forall n | 0 <= n < |ns| && !ns[n].constructed :: (n in frontier || n in more) && ns[n].children == {})
  }

  /** Later nodes have what earlier ones had: spots, and, except for node `n`, children. */
  ghost predicate Later(cs: seq<Context>, ns: seq<Node>, cs': seq<Context>, ns': seq<Node>, n: nat) {
    && cs <= cs' && |ns| <= |ns'|
    && (forall k | 0 <= k < |ns| ::
      ns[k].block.ctx < |cs| && ns'[k].block.ctx < |cs'| && SpotOf(cs', ns'[k]) == SpotOf(cs, ns[k]))
    && (forall k | 0 <= k < |ns| && k != n ::
      ns'[k].children == ns[k].children && ns'[k].constructed == ns[k].constructed)
  }

  lemma SpotFits(p: Program, cs: seq<Context>, ns: seq<Node>, n: nat)
    requires p.WellFormed() && ContextsOk(p, cs) && BlocksOk(p, cs, ns) && n < |ns|
    ensures NodeFits(p, cs, ns, n)
  {
    assert BlockOk(p, cs, ns[n].block);
  }

  lemma AllFit(p: Program, cs: seq<Context>, ns: seq<Node>)
    requires p.WellFormed() && BlocksOk(p, cs, ns)
    ensures forall n | 0 <= n < |ns| :: ns[n].block.ctx < |cs|
  {
    forall n | 0 <= n < |ns| ensures ns[n].block.ctx < |cs| {
      assert BlockOk(p, cs, ns[n].block);
    }
  }

  lemma ChildrenInRange(ns: seq<Node>, n: nat)
    requires LinksOk(ns)
    ensures forall m: nat | Child(ns, n, m) :: m < |ns|
  {
    assert forall m: nat :: Child(ns, n, m) ==> Parent(ns, n, m);
  }

  /** The constructed part of the graph is right. */
  ghost predicate Sound(p: Program, cs: seq<Context>, ns: seq<Node>, start: Spot, end: Spot) {
    && p.WellFormed() && ContextsOk(p, cs) && BlocksOk(p, cs, ns) && LinksOk(ns)
    && AllExpanded(p, cs, ns, end) && AllReached(p, cs, ns, start, end)
    && NodeFits(p, cs, ns, 0) && SpotOf(cs, ns[0]) == start
  }

  /** A round at the end block: the node becomes a leaf. */
  lemma EndRound(p: Program, cs: seq<Context>, ns: seq<Node>, ns': seq<Node>, start: Spot, end: Spot, n: nat)
    requires p.WellFormed() && ContextsOk(p, cs) && BlocksOk(p, cs, ns) && BlocksOk(p, cs, ns') && LinksOk(ns)
             && |ns| == |ns'|
    requires n < |ns| && Later(cs, ns, cs, ns', n) && ns'[n].constructed && ns'[n].children == {}
             && SpotOf(cs, ns'[n]) == end
    requires AllExpanded(p, cs, ns, end) && AllReached(p, cs, ns, start, end)
    ensures AllExpanded(p, cs, ns', end) && AllReached(p, cs, ns', start, end)
  {
    hide Next, ContextsOk, BlocksOk, ValidSpot, Reachable;
    forall k | 0 <= k < |ns'| && ns'[k].constructed ensures Expanded(p, cs, ns', end, k) {
      if k != n {
        ExpandedLater(p, cs, ns, cs, ns', end, n, k);
      }
    }
    ReachedLater(p, cs, ns, cs, ns', start, end, n, []);
  }

  lemma ReachedLater(p: Program, cs: seq<Context>, ns: seq<Node>, cs': seq<Context>, ns': seq<Node>, start: Spot,
                     end: Spot, n: nat, more: seq<Spot>)
    requires p.WellFormed() && BlocksOk(p, cs, ns) && BlocksOk(p, cs', ns')
    requires Later(cs, ns, cs', ns', n) && AllReached(p, cs, ns, start, end)
    requires forall k | |ns| <= k < |ns'| :: ns'[k].block.ctx < |cs'| && SpotOf(cs', ns'[k]) in more
    requires forall t | t in more :: Reachable(p, start, end, t)
    ensures AllReached(p, cs', ns', start, end)
  {
    hide Reachable;
    forall k | 0 <= k < |ns'| ensures BlockOk(p, cs', ns'[k].block) && Reachable(p, start, end, SpotOf(cs', ns'[k])) {
      assert BlockOk(p, cs', ns'[k].block);
      if k < |ns| {
        assert SpotOf(cs', ns'[k]) == SpotOf(cs, ns[k]);
      }
    }
  }

  /** The nodes that control goes to from node `n`, by position. */
  ghost predicate Led(p: Program, cs: seq<Context>, ns: seq<Node>, s: Spot, n: nat, successors: seq<nat>)
    requires p.WellFormed() && ValidSpot(p, s)
  {
    && n < |ns| && FinalsOk(cs, ns, successors)
    && (forall m: nat :: m in ns[n].children <==> m in successors)
    && SpotsOf(cs, ns, successors) == Next(p, s)
  }

  /** A round at another node: it is expanded, and what is new can be reached. */
  lemma StepRound(p: Program, cs: seq<Context>, ns: seq<Node>, cs': seq<Context>, ns': seq<Node>, start: Spot,
                  end: Spot, n: nat, successors: seq<nat>)
    requires p.WellFormed() && ContextsOk(p, cs) && BlocksOk(p, cs, ns) && ContextsOk(p, cs') && BlocksOk(p, cs', ns')
             && LinksOk(ns)
    requires Later(cs, ns, cs', ns', n) && NodeFits(p, cs, ns, n) && SpotOf(cs, ns[n]) != end
    requires Led(p, cs', ns', SpotOf(cs, ns[n]), n, successors)
    requires forall k: nat | |ns| <= k < |ns'| :: k in successors && !ns'[k].constructed
    requires AllExpanded(p, cs, ns, end) && AllReached(p, cs, ns, start, end)
    ensures AllExpanded(p, cs', ns', end) && AllReached(p, cs', ns', start, end)
  {
    hide Next, ContextsOk, BlocksOk, ValidSpot, Reachable;
    var s := SpotOf(cs, ns[n]);
    forall k | 0 <= k < |ns'| && ns'[k].constructed ensures Expanded(p, cs', ns', end, k) {
      if k != n {
        ExpandedLater(p, cs, ns, cs', ns', end, n, k);
      } else {
        NodeExpanded(p, cs', ns', end, s, n, successors);
      }
    }
    forall t | t in Next(p, s) ensures Reachable(p, start, end, t) {
      ReachableNext(p, start, end, s, t);
    }
    AllFit(p, cs', ns');
    forall k: nat | |ns| <= k < |ns'| ensures SpotOf(cs', ns'[k]) in Next(p, s) {
      assert k in successors;
      var j :| 0 <= j < |successors| && successors[j] == k;
      assert SpotsOf(cs', ns', successors)[j] == SpotOf(cs', ns'[k]);
    }
    ReachedLater(p, cs, ns, cs', ns', start, end, n, Next(p, s));
  }

  lemma NodeExpanded(p: Program, cs: seq<Context>, ns: seq<Node>, end: Spot, s: Spot, n: nat, successors: seq<nat>)
    requires p.WellFormed() && ContextsOk(p, cs) && BlocksOk(p, cs, ns) && ValidSpot(p, s)
    requires Led(p, cs, ns, s, n, successors) && ns[n].block.ctx < |cs| && s == SpotOf(cs, ns[n]) && s != end
    ensures Expanded(p, cs, ns, end, n)
  {
    hide Next, ContextsOk, BlocksOk, ValidSpot;
    var spots := SpotsOf(cs, ns, successors);
    forall m: nat | Child(ns, n, m) ensures m < |ns| && SpotOf(cs, ns[m]) in Next(p, s) {
      var j :| 0 <= j < |successors| && successors[j] == m;
      assert spots[j] == SpotOf(cs, ns[m]);
    }
    forall t | t in Next(p, s) ensures exists m: nat :: Child(ns, n, m) && m < |ns| && SpotOf(cs, ns[m]) == t {
      var j :| 0 <= j < |spots| && spots[j] == t;
      assert successors[j] in successors && Child(ns, n, successors[j]);
    }
  }

  lemma ExpandedLater(p: Program, cs: seq<Context>, ns: seq<Node>, cs': seq<Context>, ns': seq<Node>, end: Spot, n: nat,
                      k: nat)
    requires p.WellFormed() && ContextsOk(p, cs) && BlocksOk(p, cs, ns) && ContextsOk(p, cs') && BlocksOk(p, cs', ns')
    requires Later(cs, ns, cs', ns', n) && k < |ns| && k != n && LinksOk(ns) && Expanded(p, cs, ns, end, k)
    ensures Expanded(p, cs', ns', end, k)
  {
    hide Next, ContextsOk, BlocksOk, ValidSpot;
    var s := SpotOf(cs, ns[k]);
    assert SpotOf(cs', ns'[k]) == s;
    if s != end {
      SpotFits(p, cs, ns, k);
      ChildrenInRange(ns, k);
      AllFit(p, cs, ns);
      AllFit(p, cs', ns');
      forall m: nat | Child(ns', k, m) ensures m < |ns'| && SpotOf(cs', ns'[m]) in Next(p, s) {
        assert Child(ns, k, m);
      }
      forall t | t in Next(p, s) ensures exists m: nat :: Child(ns', k, m) && m < |ns'| && SpotOf(cs', ns'[m]) == t {
        var m: nat :| Child(ns, k, m) && m < |ns| && SpotOf(cs, ns[m]) == t;
        assert Child(ns', k, m) && SpotOf(cs', ns'[m]) == t;
      }
    }
  }

  lemma SoundStart(p: Program, cs: seq<Context>, ns: seq<Node>, cache: Cache, open: seq<set<nat>>, end: Spot)
    requires GraphOk(p, cs, ns, cache, open) && |ns| == 1 && !ns[0].constructed
    ensures NodeFits(p, cs, ns, 0) && Sound(p, cs, ns, SpotOf(cs, ns[0]), end)
  {
    hide Reachable;
    assert BlockOk(p, cs, ns[0].block);
    ReachableStart(p, SpotOf(cs, ns[0]), end);
  }

  lemma FinishedLists(ns: seq<Node>, n: nat, trace: nat, rest: seq<nat>, leaves: seq<nat>)
    requires n < |ns| && !ns[n].constructed && Waiting(ns, [n] + rest) && LeavesOk(ns, leaves)
    ensures var ns' := Traced(Marked(ns, n), n, trace);
            Waiting(ns', rest) && LeavesOk(ns', leaves + [n]) && ns'[n].constructed && ns'[n].children == {}
  {
    var ns' := Traced(Marked(ns, n), n, trace);
    forall k | 0 <= k < |rest| ensures rest[k] < |ns| {
      assert ([n] + rest)[k + 1] < |ns|;
    }
    forall k | 0 <= k < |ns'| && !ns'[k].constructed ensures k in rest && ns'[k].children == {} {
      assert k in [n] + rest && k != n;
    }
    assert n in [n] + rest && ns[n].children == {};
    forall k | 0 <= k < |leaves| ensures leaves[k] != n && ns'[leaves[k]].IsTerminator() {
      assert ns[leaves[k]].IsTerminator();
    }
    forall k | 0 <= k < |ns'| && ns'[k].IsTerminator() ensures k in leaves + [n] {
      assert k != n ==> ns[k].IsTerminator();
    }
  }

  lemma GrownWaiting(ns: seq<Node>, ns1: seq<Node>, n: nat, successors: seq<nat>, rest: seq<nat>)
    requires n < |ns| && Waiting(ns, [n] + rest) && !ns[n].constructed && Grown(Marked(ns, n), ns1, successors)
    ensures n < |ns1| && ns1[n].constructed && ns1[n].children == {} && WaitingOr(ns1, rest, successors)
  {
    assert ns1[n] == Marked(ns, n)[n];
    forall k | 0 <= k < |rest| ensures rest[k] < |ns1| {
      assert ([n] + rest)[k + 1] < |ns|;
    }
    forall k | 0 <= k < |ns1| && !ns1[k].constructed ensures (k in rest || k in successors) && ns1[k].children == {} {
      if k < |ns| {
        assert ns1[k] == Marked(ns, n)[k] && k != n;
        assert k in [n] + rest;
      }
    }
  }

  lemma LaterThan(cs: seq<Context>, ns: seq<Node>, cs': seq<Context>, ns1: seq<Node>, ns': seq<Node>, n: nat,
                  successors: seq<nat>)
    requires cs <= cs' && n < |ns| && Grown(Marked(ns, n), ns1, successors) && SameShape(ns1, ns')
    requires forall k | 0 <= k < |ns| :: ns[k].block.ctx < |cs|
    requires forall k | 0 <= k < |ns1| && k != n :: ns'[k].children == ns1[k].children
    ensures Later(cs, ns, cs', ns', n)
    ensures forall k: nat | |ns| <= k < |ns'| :: k in successors && !ns'[k].constructed
  {
    forall k | 0 <= k < |ns|
      ensures ns'[k].block == ns[k].block
      ensures k != n ==> ns'[k].children == ns[k].children && ns'[k].constructed == ns[k].constructed
    {
      assert ns1[k] == Marked(ns, n)[k];
    }
    forall k: nat | |ns| <= k < |ns'| ensures k in successors && !ns'[k].constructed {
      assert ns1[k] == NewNode(ns1[k].block);
    }
  }

  lemma GrownLeaves(ns: seq<Node>, ns1: seq<Node>, ns': seq<Node>, n: nat, successors: seq<nat>, leaves: seq<nat>)
    requires n < |ns| && !ns[n].constructed && LeavesOk(ns, leaves)
    requires Grown(Marked(ns, n), ns1, successors) && SameShape(ns1, ns')
    requires forall k | 0 <= k < |ns1| && k != n :: ns'[k].children == ns1[k].children
    ensures if n < |ns'| && ns'[n].IsTerminator() then LeavesOk(ns', leaves + [n]) else LeavesOk(ns', leaves)
  {
    var all := if n < |ns'| && ns'[n].IsTerminator() then leaves + [n] else leaves;
    forall k | 0 <= k < |ns| && k != n ensures ns'[k].IsTerminator() <==> ns[k].IsTerminator() {
      assert ns1[k] == Marked(ns, n)[k];
    }
    forall k | |ns| <= k < |ns'| ensures !ns'[k].IsTerminator() {
      assert ns1[k] == NewNode(ns1[k].block);
    }
    forall k | 0 <= k < |leaves| ensures leaves[k] < |ns'| && leaves[k] != n && ns'[leaves[k]].IsTerminator() {
      assert ns[leaves[k]].IsTerminator();
    }
  }

  lemma GraphLinks(p: Program, cs: seq<Context>, ns: seq<Node>, cache: Cache, open: seq<set<nat>>)
    requires GraphOk(p, cs, ns, cache, open)
    ensures LinksOk(ns)
  {
  }

  lemma GraphParts(p: Program, cs: seq<Context>, ns: seq<Node>, cache: Cache, open: seq<set<nat>>)
    requires GraphOk(p, cs, ns, cache, open)
    ensures p.WellFormed() && ns != [] && ContextsOk(p, cs) && BlocksOk(p, cs, ns) && LinksOk(ns)
  {
  }

  lemma LinkedIs(ns: seq<Node>, n: nat, m: nat)
    requires n < |ns| && m < |ns|
    ensures var ns1 := ns[n := ns[n].(children := ns[n].children + {m})];
            Linked(ns, n, m) == ns1[m := ns1[m].(parents := ns1[m].parents + {n})]
  {
  }

  lemma ShapePotential(p: Program, cs: seq<Context>, ns: seq<Node>, ns': seq<Node>, cache: Cache, open: seq<set<nat>>)
    requires GraphOk(p, cs, ns, cache, open) && GraphOk(p, cs, ns', cache, open) && SameShape(ns, ns')
    ensures Potential(p, cs, ns, open) == Potential(p, cs, ns', open)
  {
  }

  lemma SpotValid(p: Program, cs: seq<Context>, ns: seq<Node>, cache: Cache, open: seq<set<nat>>, n: nat)
    requires GraphOk(p, cs, ns, cache, open) && n < |ns|
    ensures p.WellFormed() && |open| == |cs| && NodeFits(p, cs, ns, n)
            && ns[n].block.last == p.LastOf(ns[n].block.first)
  {
    assert BlockOk(p, cs, ns[n].block);
  }

  lemma ContextFacts(p: Program, cs: seq<Context>, ns: seq<Node>, cache: Cache, open: seq<set<nat>>, c: nat)
    requires GraphOk(p, cs, ns, cache, open) && c < |cs|
    ensures cs[c].parent.None? <==> cs[c].callStack == []
    ensures cs[c].parent.Some? ==>
              && cs[c].parent.value < |cs|
              && cs[cs[c].parent.value].callStack == cs[c].callStack[..|cs[c].callStack| - 1]
  {
  }

  /** The cases of `Next`, with what makes them well-formed. */
  lemma NextCases(p: Program, s: Spot)
    requires p.WellFormed() && ValidSpot(p, s)
    ensures var i := p.insts[p.LastOf(s.first)];
            && (i.Ret? && s.stack == [] ==> Next(p, s) == [])
            && (i.Ret? && s.stack != [] ==>
                  var cb := s.stack[|s.stack| - 1];
                  p.Has(cb + 1) && Next(p, s) == [Spot(s.stack[..|s.stack| - 1], cb + 1)])
            && (i.Jump? ==>
                  && (forall k | 0 <= k < |i.succs| :: p.Has(i.succs[k]))
                  && |Next(p, s)| == |i.succs| && forall k | 0 <= k < |i.succs| ::
                    Next(p, s)[k] == Spot(s.stack, i.succs[k]))
            && !i.Ordinary?
    ensures var last := p.LastOf(s.first);
            p.insts[last].Call? ==>
              && p.CanCall(last) && last in p.CallSites() && p.Has(last + 1) && p.Has(p.insts[last].entry)
              && Next(p, s) == [if last in s.stack then Spot(s.stack, last + 1)
                else Spot(s.stack + [last], p.insts[last].entry)]
  {
    p.LastOfMeaning(s.first);
    if s.stack != [] {
      assert p.CanCall(s.stack[|s.stack| - 1]);
    }
  }

  lemma SpotsSnoc(cs: seq<Context>, ns: seq<Node>, ns': seq<Node>, finals: seq<nat>, m: nat)
    requires FinalsOk(cs, ns, finals) && ns <= ns' && m < |ns'| && ns'[m].block.ctx < |cs|
    ensures FinalsOk(cs, ns', finals) && forall k | 0 <= k < |finals + [m]| ::
              (finals + [m])[k] < |ns'| && ns'[(finals + [m])[k]].block.ctx < |cs|
    ensures SpotsOf(cs, ns', finals + [m]) == SpotsOf(cs, ns, finals) + [SpotOf(cs, ns'[m])]
  {
  }

  lemma SpotsSame(cs: seq<Context>, ns: seq<Node>, ns': seq<Node>, ms: seq<nat>)
    requires FinalsOk(cs, ns, ms) && SameShape(ns, ns')
    ensures FinalsOk(cs, ns', ms) && SpotsOf(cs, ns', ms) == SpotsOf(cs, ns, ms)
  {
  }

  lemma PairsSnoc(cs: seq<Context>, ss: seq<(nat, nat)>, k: nat)
    requires k < |ss| && forall k | 0 <= k < |ss| :: ss[k].0 < |cs|
    ensures PairSpots(cs, ss[..k + 1]) == PairSpots(cs, ss[..k]) + [Spot(cs[ss[k].0].callStack, ss[k].1)]
  {
  }

  lemma WorthPositive(size: nat, free: nat)
    ensures 0 < Worth(size, free)
  {
  }

  // ----- What the graph is good for -------------------------------------------------------------------------

  lemma {:induction false} PathFound(p: Program, cs: seq<Context>, ns: seq<Node>, start: Spot, end: Spot,
                                     path: seq<Spot>) returns (n: nat)
    requires Sound(p, cs, ns, start, end) && forall k | 0 <= k < |ns| :: ns[k].constructed
    requires IsPath(p, end, path) && path[0] == start
    ensures NodeFits(p, cs, ns, n) && SpotOf(cs, ns[n]) == path[|path| - 1]
    decreases |path|
  {
    hide Next, ContextsOk, BlocksOk, ValidSpot;
    if |path| == 1 {
      n := 0;
    } else {
      var front := path[..|path| - 1];
      assert IsPath(p, end, front);
      var m := PathFound(p, cs, ns, start, end, front);
      assert Expanded(p, cs, ns, end, m);
      n :| Child(ns, m, n) && n < |ns| && SpotOf(cs, ns[n]) == path[|path| - 1];
      SpotFits(p, cs, ns, n);
    }
  }

  /** The graph is exactly what can be reached: each node stands for a reachable stretch of code, and each
      reachable one has a node. */
  lemma GraphIsReachable(p: Program, cs: seq<Context>, ns: seq<Node>, start: Spot, end: Spot, s: Spot)
    requires Sound(p, cs, ns, start, end) && forall k | 0 <= k < |ns| :: ns[k].constructed
    ensures Reachable(p, start, end, s) <==> exists n: nat :: NodeFits(p, cs, ns, n) && SpotOf(cs, ns[n]) == s
  {
    hide Next, ContextsOk, BlocksOk, ValidSpot;
    if Reachable(p, start, end, s) {
      var path :| IsPath(p, end, path) && path[0] == start && path[|path| - 1] == s;
      var n := PathFound(p, cs, ns, start, end, path);
    }
    if n: nat :| NodeFits(p, cs, ns, n) && SpotOf(cs, ns[n]) == s {
      assert BlockOk(p, cs, ns[n].block);
    }
  }

  /** A stretch that starts with a call does not enter it. So of two calls in a row the second is never
      entered, and neither is one that starts a function. */
  lemma FirstCallNotEntered(p: Program, s: Spot, t: Spot)
    requires p.WellFormed() && ValidSpot(p, s) && p.insts[s.first].Call?
    requires t in Next(p, s) && |s.stack| < |t.stack|
    ensures t.stack[|s.stack|] != s.first
  {
    hide Program.LastOf;
    p.LastOfMeaning(s.first);
  }

  /** The graph ends here: at the end block, or where control goes nowhere. */
  predicate Stops(p: Program, end: Spot, s: Spot)
    requires p.WellFormed()
  {
    ValidSpot(p, s) && (s == end || Next(p, s) == [])
  }

  /** The assertion that there are leaves holds if and only if the end, or a point without successors, can
      be reached; a program that can only loop fails it. */
  lemma LeavesExist(p: Program, cs: seq<Context>, ns: seq<Node>, start: Spot, end: Spot, leaves: seq<nat>)
    requires Sound(p, cs, ns, start, end) && forall k | 0 <= k < |ns| :: ns[k].constructed
    requires LeavesOk(ns, leaves)
    ensures leaves != [] <==> exists s :: Reachable(p, start, end, s) && Stops(p, end, s)
  {
    hide Next, ContextsOk, BlocksOk, ValidSpot, Reachable;
    if leaves != [] {
      var n := leaves[0];
      SpotFits(p, cs, ns, n);
      NodeStops(p, cs, ns, end, n);
      assert Reachable(p, start, end, SpotOf(cs, ns[n]));
    }
    if s :| Reachable(p, start, end, s) && Stops(p, end, s) {
      GraphIsReachable(p, cs, ns, start, end, s);
      var n: nat :| NodeFits(p, cs, ns, n) && SpotOf(cs, ns[n]) == s;
      NodeStops(p, cs, ns, end, n);
      assert n in leaves;
    }
  }

  lemma NodeStops(p: Program, cs: seq<Context>, ns: seq<Node>, end: Spot, n: nat)
    requires p.WellFormed() && ContextsOk(p, cs) && BlocksOk(p, cs, ns) && LinksOk(ns) && NodeFits(p, cs, ns, n)
    requires Expanded(p, cs, ns, end, n)
    ensures ns[n].children == {} <==> Stops(p, end, SpotOf(cs, ns[n]))
  {
    hide ContextsOk, BlocksOk, ValidSpot, Next;
    var s := SpotOf(cs, ns[n]);
    if s != end {
      AllFit(p, cs, ns);
      if m :| m in ns[n].children {
        assert Child(ns, n, m);
      }
      if Next(p, s) != [] {
        var t := Next(p, s)[0];
        assert t in Next(p, s);
        var m: nat :| Child(ns, n, m) && m < |ns| && SpotOf(cs, ns[m]) == t;
      }
    }
  }

  predicate NoneTwice(stack: seq<nat>) {
    forall j, k | 0 <= j < k < |stack| :: stack[j] != stack[k]
  }

  /** No call site is entered again while it is on the stack, recursive programs included. */
  lemma {:induction false} NoRecursion(p: Program, end: Spot, path: seq<Spot>)
    requires p.WellFormed() && IsPath(p, end, path) && NoneTwice(path[0].stack)
    ensures NoneTwice(path[|path| - 1].stack)
    decreases |path|
  {
    if 1 < |path| {
      var front := path[..|path| - 1];
      assert IsPath(p, end, front);
      NoRecursion(p, end, front);
      NextNoneTwice(p, front[|front| - 1], path[|path| - 1]);
    }
  }

  lemma NextNoneTwice(p: Program, s: Spot, t: Spot)
    requires p.WellFormed() && ValidSpot(p, s) && NoneTwice(s.stack) && t in Next(p, s)
    ensures NoneTwice(t.stack)
  {
  }

  // ----- The construction -----------------------------------------------------------------------------------

  /** Nodes and contexts stand in the order of their creation; they refer to each other by position. */
  class ContextGraph {
    const prog: Program
    var contexts: seq<Context>
    var nodes: seq<Node>
    var nodeCache: Cache
    var roots: seq<nat>
    var leaves: seq<nat>
    ghost var open: seq<set<nat>>

    ghost predicate Valid()
      reads this
    {
      GraphOk(prog, contexts, nodes, nodeCache, open)
    }

    ghost function Left(): nat
      requires Valid()
      reads this
    {
      Potential(prog, contexts, nodes, open)
    }

    /** The graph before its construction: the root, in the call context of the first event. */
    constructor (p: Program, start: Spot, trace: nat)
      requires p.WellFormed() && ValidSpot(p, start)
      ensures Valid() && prog == p && roots == [0] && leaves == []
      ensures |nodes| == 1 && |contexts| == |start.stack| + 1
      ensures nodes[0] == NewNode(Block(|start.stack|, start.first, p.LastOf(start.first), trace))
      ensures SpotOf(contexts, nodes[0]) == start
    {
      prog := p;
      contexts := seq(|start.stack| + 1, c requires 0 <= c <= |start.stack| =>
                    Context(start.stack[..c], if c == 0 then None else Some(c - 1)));
      nodeCache := map[];
      roots, leaves := [0], [];
      open := seq(|start.stack| + 1, c => AllInsts(|p.insts|));
      new;
      var b := CreateBlock(|start.stack|, start.first, trace);
      nodes := [NewNode(b)];
    }

    /** Scroll down to the last instruction of the stretch. */
    method CreateBlock(ctx: nat, first: nat, trace: nat) returns (b: Block)
      requires prog.WellFormed() && prog.Has(first)
      ensures b == Block(ctx, first, prog.LastOf(first), trace)
    {
      var last := first;
      while !prog.insts[last].EndsBlock()
        invariant prog.Has(last) && prog.LastOf(first) == prog.LastOf(last)
        decreases |prog.insts| - last
      {
        last := last + 1;
        if prog.insts[last].Call? {
          return Block(ctx, first, last, trace);
        }
      }
      b := Block(ctx, first, last, trace);
    }

    /** A fresh context; the cache of called contexts is looked up but never filled. */
    method DoCall(ctx: nat, cb: nat) returns (c: nat)
      requires Valid() && ctx < |contexts| && prog.CanCall(cb)
      modifies this`contexts, this`open
      ensures Valid() && c == |old(contexts)|
      ensures contexts == Descended(old(contexts), ctx, cb)
      ensures open == old(open) + [AllInsts(|prog.insts|)]
    {
      DescendedOk(prog, contexts, nodes, nodeCache, open, ctx, cb);
      c := |contexts|;
      contexts := contexts + [Context(contexts[ctx].callStack + [cb], Some(ctx))];
      open := open + [AllInsts(|prog.insts|)];
    }

    /** The node at a context and first instruction, from the cache or new. */
    method NodeAt(ctx: nat, first: nat) returns (m: nat)
      requires Valid() && ctx < |contexts| && prog.Has(first)
      modifies this`nodes, this`nodeCache
      ensures Valid() && Left() == old(Left()) && 0 < m < |nodes| && nodes[m].block.ctx == ctx
              && nodes[m].block.first == first
      ensures nodes == old(nodes) || (m == |old(nodes)| && nodes == old(nodes) + [NewNode(nodes[m].block)])
    {
      if (ctx, first) in nodeCache {
        m := nodeCache[(ctx, first)];
      } else {
        var b := CreateBlock(ctx, first, first);
        AddedOk(prog, contexts, nodes, nodeCache, open, b);
        m := |nodes|;
        nodes := nodes + [NewNode(b)];
        nodeCache := nodeCache[(ctx, first) := m];
      }
    }

    /** Where control goes from a node, as contexts and first instructions. */
    method Successors(n: nat) returns (ss: seq<(nat, nat)>)
      requires Valid() && n < |nodes|
      modifies this`contexts, this`open
      ensures Valid() && old(contexts) <= contexts
      ensures PairsOk(prog, contexts, ss)
      ensures old(NodeFits(prog, contexts, nodes, n))
              && PairSpots(contexts, ss) == Next(prog, old(SpotOf(contexts, nodes[n])))
      ensures Left() < old(Left()) + Worth(|prog.insts|, Free(prog, old(contexts[nodes[n].block.ctx].callStack)))
    {
      hide Potential, Free, Worth, GraphOk, Next, ValidSpot, Program.WellFormed, Program.LastOf, Program.CallSites;
      SpotValid(prog, contexts, nodes, nodeCache, open, n);
      var b := nodes[n].block;
      var stack := contexts[b.ctx].callStack;
      NextCases(prog, SpotOf(contexts, nodes[n]));
      ContextFacts(prog, contexts, nodes, nodeCache, open, b.ctx);
      WorthPositive(|prog.insts|, Free(prog, stack));
      ss := [];
      match prog.insts[b.last]
      case Ret =>
        if contexts[b.ctx].parent.Some? {
          ss := [(contexts[b.ctx].parent.value, stack[|stack| - 1] + 1)];
        }
      case Call(entry) =>
        if b.last in stack {
          ss := [(b.ctx, b.last + 1)];
        } else {
          DescendedOk(prog, contexts, nodes, nodeCache, open, b.ctx, b.last);
          DescendedPotential(prog, contexts, nodes, nodeCache, open, b.ctx, b.last);
          var c := DoCall(b.ctx, b.last);
          ss := [(c, entry)];
        }
      case Jump(succs) =>
        for k := 0 to |succs|
          invariant contexts == old(contexts)
          invariant ss == seq(k, i requires 0 <= i < k => (b.ctx, succs[i]))
        {
          ss := ss + [(b.ctx, succs[k])];
        }
      case Ordinary =>
        assert false;
    }

    /** Mark a node and find or make the nodes where control goes from it. */
    method ConstructSuccessors(n: nat) returns (finals: seq<nat>)
      requires Valid() && n < |nodes| && !nodes[n].constructed
      modifies this`contexts, this`nodes, this`nodeCache, this`open
      ensures Valid() && Left() < old(Left())
      ensures old(contexts) <= contexts
      ensures Grown(Marked(old(nodes), n), nodes, finals)
      ensures FinalsOk(contexts, nodes, finals)
      ensures old(NodeFits(prog, contexts, nodes, n))
              && SpotsOf(contexts, nodes, finals) == Next(prog, old(SpotOf(contexts, nodes[n])))
    {
      hide Potential, Free, GraphOk, Next, Worth;
      SpotValid(prog, contexts, nodes, nodeCache, open, n);
      MarkedOk(prog, contexts, nodes, nodeCache, open, n);
      MarkedPotential(prog, contexts, nodes, nodeCache, open, n);
      open := Closed(nodes, open, n);
      nodes := nodes[n := nodes[n].(constructed := true)];
      ghost var ns0 := nodes;
      SpotValid(prog, contexts, nodes, nodeCache, open, n);
      var ss := Successors(n);
      ghost var left, cs := Left(), contexts;
      finals := [];
      for k := 0 to |ss|
        invariant Valid() && Left() == left && contexts == cs
        invariant Grown(ns0, nodes, finals)
        invariant FinalsOk(contexts, nodes, finals)
        invariant |finals| == k && SpotsOf(contexts, nodes, finals) == PairSpots(contexts, ss[..k])
      {
        ghost var ns := nodes;
        var m := NodeAt(ss[k].0, ss[k].1);
        SpotsSnoc(contexts, ns, nodes, finals, m);
        PairsSnoc(contexts, ss, k);
        finals := finals + [m];
      }
    }

    /** Mark the node of the end block, and let it point to the traced instruction. */
    method MarkAt(n: nat, trace: nat)
      requires Valid() && n < |nodes| && !nodes[n].constructed
      modifies this`nodes, this`open
      ensures Valid() && Left() < old(Left())
      ensures nodes == Traced(Marked(old(nodes), n), n, trace)
    {
      hide GraphOk, Potential, Worth, Free;
      SpotValid(prog, contexts, nodes, nodeCache, open, n);
      MarkedOk(prog, contexts, nodes, nodeCache, open, n);
      MarkedPotential(prog, contexts, nodes, nodeCache, open, n);
      WorthPositive(|prog.insts|, Free(prog, contexts[nodes[n].block.ctx].callStack));
      open := Closed(nodes, open, n);
      nodes := nodes[n := nodes[n].(constructed := true)];
      TracedOk(prog, contexts, nodes, nodeCache, open, n, trace);
      nodes := nodes[n := nodes[n].(block := nodes[n].block.(traceInst := trace))];
    }

    /** Add the successors of a node as its children, and put those still to be constructed into the
        frontier. */
    method AddChildren(n: nat, successors: seq<nat>, rest: seq<nat>) returns (frontier: seq<nat>)
      requires Valid() && n < |nodes| && nodes[n].constructed && nodes[n].children == {}
      requires FinalsOk(contexts, nodes, successors)
      requires WaitingOr(nodes, rest, successors)
      modifies this`nodes
      ensures Valid() && Left() == old(Left()) && SameShape(old(nodes), nodes)
      ensures forall m: nat :: m in nodes[n].children <==> m in successors
      ensures forall k | 0 <= k < |nodes| && k != n :: nodes[k].children == old(nodes[k].children)
      ensures Waiting(nodes, frontier)
    {
      hide GraphOk, Potential, Linked;
      ghost var ns0 := nodes;
      frontier := rest;
      for k := 0 to |successors|
        invariant Valid() && Left() == old(Left()) && SameShape(ns0, nodes)
        invariant forall m: nat :: m in nodes[n].children <==> m in successors[..k]
        invariant forall j | 0 <= j < |nodes| && j != n :: nodes[j].children == ns0[j].children
        invariant WaitingOr(nodes, frontier, successors[k..])
      {
        var childNode := successors[k];
        GraphLinks(prog, contexts, nodes, nodeCache, open);
        LinkedOk(nodes, n, childNode);
        ShapeOk(prog, contexts, nodes, Linked(nodes, n, childNode), nodeCache, open);
        ShapePotential(prog, contexts, nodes, Linked(nodes, n, childNode), nodeCache, open);
        LinkedIs(nodes, n, childNode);
        nodes := nodes[n := nodes[n].(children := nodes[n].children + {childNode})];
        nodes := nodes[childNode := nodes[childNode].(parents := nodes[childNode].parents + {n})];
        assert successors[..k + 1] == successors[..k] + [childNode];
        assert successors[k..] == [childNode] + successors[k + 1..];
        if !nodes[childNode].constructed {
          frontier := frontier + [childNode];
        }
      }
      assert successors[..|successors|] == successors;
    }

    /** A round at the end block. */
    method FinishAt(n: nat, trace: nat, rest: seq<nat>, ghost start: Spot, ghost end: Spot)
      requires Valid() && Sound(prog, contexts, nodes, start, end) && n < |nodes| && !nodes[n].constructed
      requires NodeFits(prog, contexts, nodes, n) && SpotOf(contexts, nodes[n]) == end
      requires Waiting(nodes, [n] + rest) && LeavesOk(nodes, leaves)
      modifies this`nodes, this`open, this`leaves
      ensures Valid() && Left() < old(Left()) && Sound(prog, contexts, nodes, start, end)
      ensures Waiting(nodes, rest) && LeavesOk(nodes, leaves)
    {
      hide GraphOk, Potential, Next, Expanded, Reachable, Program.LastOf, ContextsOk, BlocksOk, ValidSpot, LinksOk;
      ghost var ns0 := nodes;
      MarkAt(n, trace);
      FinishedLists(ns0, n, trace, rest, leaves);
      GraphParts(prog, contexts, nodes, nodeCache, open);
      AllFit(prog, contexts, nodes);
      AllFit(prog, contexts, ns0);
      EndRound(prog, contexts, ns0, nodes, start, end, n);
      leaves := leaves + [n];
    }

    /** A round at another node. */
    method Expand(n: nat, rest: seq<nat>, ghost start: Spot, ghost end: Spot) returns (frontier: seq<nat>)
      requires Valid() && Sound(prog, contexts, nodes, start, end) && n < |nodes| && !nodes[n].constructed
      requires NodeFits(prog, contexts, nodes, n) && SpotOf(contexts, nodes[n]) != end
      requires Waiting(nodes, [n] + rest) && LeavesOk(nodes, leaves)
      modifies this`nodes, this`open, this`leaves, this`contexts, this`nodeCache
      ensures Valid() && Left() < old(Left()) && Sound(prog, contexts, nodes, start, end)
      ensures old(contexts) <= contexts
      ensures Waiting(nodes, frontier) && LeavesOk(nodes, leaves)
    {
      hide GraphOk, Potential, Next, Expanded, Reachable, Program.LastOf, ContextsOk, BlocksOk, ValidSpot, LinksOk,
        LeavesOk, Waiting;
      ghost var cs0, ns0 := contexts, nodes;
      AllFit(prog, cs0, ns0);
      var successors := ConstructSuccessors(n);
      GraphParts(prog, contexts, nodes, nodeCache, open);
      ghost var ns1 := nodes;
      GrownWaiting(ns0, ns1, n, successors, rest);
      frontier := AddChildren(n, successors, rest);
      GraphParts(prog, contexts, nodes, nodeCache, open);
      AllFit(prog, contexts, nodes);
      SpotsSame(contexts, ns1, nodes, successors);
      LaterThan(cs0, ns0, contexts, ns1, nodes, n, successors);
      StepRound(prog, cs0, ns0, contexts, nodes, start, end, n, successors);
      GrownLeaves(ns0, ns1, nodes, n, successors, leaves);
      assert Waiting(nodes, frontier);
      if nodes[n].IsTerminator() {
        leaves := leaves + [n];
      }
    }

    /** Construct the graph up to the block of the second event. The loop ends for every program. On exit
        every node is constructed and its children are where control goes from it; the nodes are exactly
        what can be reached from the root without going on behind the end; and the leaves are the end block
        and the nodes without children. */
    method Construct(endStack: seq<nat>, end: Block)
      requires Valid() && ValidSpot(prog, Spot(endStack, end.first)) && end.last == prog.LastOf(end.first)
      requires |nodes| == 1 && nodes[0] == NewNode(nodes[0].block) && roots == [0] && leaves == []
      modifies this
      ensures Valid() && old(contexts) <= contexts && roots == [0]
      ensures forall n | 0 <= n < |nodes| :: nodes[n].constructed
      ensures old(NodeFits(prog, contexts, nodes, 0))
              && Sound(prog, contexts, nodes, old(SpotOf(contexts, nodes[0])), Spot(endStack, end.first))
      ensures LeavesOk(nodes, leaves)
    {
      hide GraphOk, Potential, Next, Expanded, Reachable, Program.LastOf, ContextsOk, BlocksOk, ValidSpot, LinksOk;
      ghost var endSpot := Spot(endStack, end.first);
      SpotValid(prog, contexts, nodes, nodeCache, open, 0);
      ghost var start := SpotOf(contexts, nodes[0]);
      SoundStart(prog, contexts, nodes, nodeCache, open, endSpot);
      var frontier := roots;
      while |frontier| != 0
        invariant Valid() && old(contexts) <= contexts && roots == [0]
        invariant Sound(prog, contexts, nodes, start, endSpot)
        invariant Waiting(nodes, frontier) && LeavesOk(nodes, leaves)
        decreases Left(), |frontier|
      {
        hide Sound, LeavesOk;
        var n := frontier[0];
        assert frontier == [n] + frontier[1..];
        frontier := frontier[1..];
        if nodes[n].constructed {
          continue;
        }
        SpotValid(prog, contexts, nodes, nodeCache, open, n);
        var b := nodes[n].block;
        if b.first == end.first && b.last == end.last && contexts[b.ctx].callStack == endStack {
          FinishAt(n, end.traceInst, frontier, start, endSpot);
          continue;
        }
        frontier := Expand(n, frontier, start, endSpot);
      }
    }
  }
}
