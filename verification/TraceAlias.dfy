/**
 Which functions keep their bodies when the alias analysis is restricted to the trace
 (src/BugFixer.cpp:1084-1206): those of the trace, those that a whitelisted function leads to, and all
 that use one of them. The others are stripped.
 */
module TraceAlias {
  import opened Options

  /** An instruction: the function it calls, if known, and the functions among its operands. */
  datatype Instr = Instr(callee: Option<nat>, operands: set<nat>)

  datatype Function = Function(name: string, isDeclaration: bool, isIntrinsic: bool, code: seq<Instr>)

  type Module = map<nat, Function>

  predicate WellFormed(m: Module) {
    forall f | f in m :: forall i | i in m[f].code ::
      (i.callee.Some? ==> i.callee.value in m && i.callee.value in i.operands) && i.operands <= m.Keys
  }

  /** A definition with a direct call. */
  predicate Calls(m: Module, f: nat, g: nat) {
    f in m && !m[f].isDeclaration && !m[f].isIntrinsic && exists i :: i in m[f].code && i.callee == Some(g)
  }

  /** An instruction of `g` uses `f`: it calls it, or passes it on. */
  predicate UsedBy(m: Module, f: nat, g: nat) {
    g in m && exists i :: i in m[g].code && f in i.operands
  }

  // ----- Closures, as reachability ------------------------------------------------------------------------

  ghost predicate IsPath(edge: (nat, nat) -> bool, path: seq<nat>) {
    path != [] && forall k | 0 <= k < |path| - 1 :: edge(path[k], path[k + 1])
  }

  ghost predicate Leads(edge: (nat, nat) -> bool, seeds: set<nat>, x: nat) {
    exists path :: IsPath(edge, path) && path[0] in seeds && path[|path| - 1] == x
  }

  lemma LeadsNext(edge: (nat, nat) -> bool, seeds: set<nat>, x: nat, y: nat)
    requires Leads(edge, seeds, x) && edge(x, y)
    ensures Leads(edge, seeds, y)
  {
    var path :| IsPath(edge, path) && path[0] in seeds && path[|path| - 1] == x;
    assert IsPath(edge, path + [y]);
    assert (path + [y])[|path|] == y;
  }

  lemma LeadsSeed(edge: (nat, nat) -> bool, seeds: set<nat>, x: nat)
    requires x in seeds
    ensures Leads(edge, seeds, x)
  {
    assert IsPath(edge, [x]);
  }

  predicate ClosedUnder(edge: (nat, nat) -> bool, s: set<nat>, universe: set<nat>) {
    forall x, y | x in s && y in universe && edge(x, y) :: y in s
  }

  lemma {:induction false} PathStays(edge: (nat, nat) -> bool, s: set<nat>, universe: set<nat>, path: seq<nat>)
    requires ClosedUnder(edge, s, universe) && IsPath(edge, path) && path[0] in s
    requires forall x, y | edge(x, y) :: y in universe
    ensures path[|path| - 1] in s
    decreases |path|
  {
    if 1 < |path| {
      var front := path[..|path| - 1];
      assert IsPath(edge, front);
      PathStays(edge, s, universe, front);
    }
  }

  /** A set that holds the seeds, is closed, and holds only what they lead to, is the closure. */
  lemma ClosureIs(edge: (nat, nat) -> bool, seeds: set<nat>, s: set<nat>, universe: set<nat>, x: nat)
    requires seeds <= s && ClosedUnder(edge, s, universe) && forall y | y in s :: Leads(edge, seeds, y)
    requires forall x, y | edge(x, y) :: y in universe
    ensures x in s <==> Leads(edge, seeds, x)
  {
    if Leads(edge, seeds, x) {
      var path :| IsPath(edge, path) && path[0] in seeds && path[|path| - 1] == x;
      PathStays(edge, s, universe, path);
    }
  }

  function Members(fs: seq<nat>): set<nat> {
    set f | f in fs
  }

  // ----- The worklists ------------------------------------------------------------------------------------

  function CallEdge(m: Module): (nat, nat) -> bool {
    (f: nat, g: nat) => Calls(m, f, g)
  }

  function UseEdge(m: Module): (nat, nat) -> bool {
    (f: nat, g: nat) => UsedBy(m, f, g)
  }

  /** From a function that is only declared, or from an intrinsic, chains of calls lead nowhere else; from any other
      they lead to each callee. */
  lemma {:induction false} OnlyDefinitionsLead(m: Module, f: nat, g: nat)
    requires WellFormed(m) && f in m
    ensures m[f].isDeclaration || m[f].isIntrinsic ==> (Leads(CallEdge(m), {f}, g) <==> g == f)
    ensures !m[f].isDeclaration && !m[f].isIntrinsic && (exists i :: i in m[f].code && i.callee == Some(g)) ==>
              Leads(CallEdge(m), {f}, g)
  {
    LeadsSeed(CallEdge(m), {f}, f);
    if m[f].isDeclaration || m[f].isIntrinsic {
      assert ClosedUnder(CallEdge(m), {f}, m.Keys);
      CallsStay(m);
      ClosureIs(CallEdge(m), {f}, {f}, m.Keys, g);
    } else if exists i :: i in m[f].code && i.callee == Some(g) {
      LeadsNext(CallEdge(m), {f}, f, g);
    }
  }

  /** Every callee of an explored function is listed. */
  ghost predicate Explored(m: Module, wlist: set<nat>, explore: seq<nat>) {
    forall f, g | f in wlist && f !in explore && Calls(m, f, g) :: g in wlist
  }

  ghost predicate AllLed(m: Module, start: set<nat>, wlist: set<nat>) {
    forall f | f in wlist :: Leads(CallEdge(m), start, f)
  }

  lemma LedByCall(m: Module, start: set<nat>, wlist: set<nat>, f: nat, i: Instr)
    requires WellFormed(m) && AllLed(m, start, wlist) && f in wlist && f in m && i in m[f].code && i.callee.Some?
    requires !m[f].isDeclaration && !m[f].isIntrinsic
    ensures i.callee.value in m && AllLed(m, start, wlist + {i.callee.value})
  {
    hide Leads;
    var g := i.callee.value;
    assert CallEdge(m)(f, g);
    LeadsNext(CallEdge(m), start, f, g);
  }

  /** Add the callees of one definition to the whitelist, and those that are new to the worklist. */
  method AddCallees(m: Module, ghost start: set<nat>, f: nat, wlist0: set<nat>, rest: seq<nat>)
    returns (wlist: set<nat>, explore: seq<nat>)
    requires WellFormed(m) && f in m && f in wlist0 && !m[f].isDeclaration && !m[f].isIntrinsic
    requires wlist0 <= m.Keys && AllLed(m, start, wlist0) && forall g | g in rest :: g in wlist0
    ensures wlist0 <= wlist <= m.Keys && AllLed(m, start, wlist)
    ensures rest <= explore && (wlist == wlist0 ==> explore == rest)
    ensures (forall g | g in explore :: g in wlist) && (forall g | g in wlist :: g in wlist0 || g in explore)
    ensures forall g | Calls(m, f, g) :: g in wlist
  {
    wlist, explore := wlist0, rest;
    for k := 0 to |m[f].code|
      invariant wlist0 <= wlist <= m.Keys && AllLed(m, start, wlist)
      invariant rest <= explore && (wlist == wlist0 ==> explore == rest)
      invariant (forall g | g in explore :: g in wlist) && (forall g | g in wlist :: g in wlist0 || g in explore)
      invariant forall j | 0 <= j < k && m[f].code[j].callee.Some? :: m[f].code[j].callee.value in wlist
    {
      hide AllLed, WellFormed;
      var callee := m[f].code[k].callee;
      if callee.Some? && callee.value !in wlist {
        LedByCall(m, start, wlist, f, m[f].code[k]);
        explore := explore + [callee.value];
        wlist := wlist + {callee.value};
      }
    }
  }

  /** The whitelisted functions and all that they call, directly or not. */
  method Explore(m: Module, start: set<nat>, explore0: seq<nat>) returns (wlist: set<nat>)
    requires WellFormed(m) && start <= m.Keys && start == Members(explore0)
    ensures wlist <= m.Keys && forall f :: f in wlist <==> Leads(CallEdge(m), start, f)
  {
    wlist := start;
    var explore := explore0;
    forall f | f in wlist ensures Leads(CallEdge(m), start, f) {
      LeadsSeed(CallEdge(m), start, f);
    }
    while |explore| != 0
      invariant start <= wlist <= m.Keys && AllLed(m, start, wlist)
      invariant forall f | f in explore :: f in wlist
      invariant Explored(m, wlist, explore)
      decreases m.Keys - wlist, |explore|
    {
      hide AllLed, WellFormed, Leads;
      var f := explore[0];
      ghost var before, wlist0 := explore, wlist;
      explore := explore[1..];
      assert before == [f] + explore;
      if m[f].isDeclaration || m[f].isIntrinsic {
        continue;
      }
      wlist, explore := AddCallees(m, start, f, wlist, explore);
      assert wlist == wlist0 || m.Keys - wlist < m.Keys - wlist0;
    }
    forall f ensures f in wlist <==> Leads(CallEdge(m), start, f) {
      hide Leads, IsPath, WellFormed;
      CallsStay(m);
      ClosureIs(CallEdge(m), start, wlist, m.Keys, f);
    }
  }

  lemma CallsStay(m: Module)
    requires WellFormed(m)
    ensures forall f, g | CallEdge(m)(f, g) :: g in m.Keys
  {
  }

  /** One round: the functions not yet kept that use a kept one. */
  function Users(m: Module, used: set<nat>): set<nat> {
    set f, g | f in used && g in m.Keys && UsedBy(m, f, g) && g !in used :: g
  }

  /** All that uses a kept function, directly or not. */
  method AddUsers(m: Module, seeds: set<nat>) returns (used: set<nat>)
    requires WellFormed(m) && seeds <= m.Keys
    ensures used <= m.Keys && forall f :: f in used <==> Leads(UseEdge(m), seeds, f)
  {
    used := seeds;
    forall f | f in used ensures Leads(UseEdge(m), seeds, f) {
      LeadsSeed(UseEdge(m), seeds, f);
    }
    while true
      invariant seeds <= used <= m.Keys
      invariant forall f | f in used :: Leads(UseEdge(m), seeds, f)
      decreases m.Keys - used
    {
      hide Leads;
      var next := Users(m, used);
      if next == {} {
        break;
      }
      forall g | g in next ensures Leads(UseEdge(m), seeds, g) {
        var f :| f in used && UsedBy(m, f, g);
        assert UseEdge(m)(f, g);
        LeadsNext(UseEdge(m), seeds, f, g);
      }
      used := used + next;
    }
    forall x, y | x in used && y in m.Keys && UseEdge(m)(x, y) ensures y in used {
      assert y !in used ==> y in Users(m, used);
    }
    forall f ensures f in used <==> Leads(UseEdge(m), seeds, f) {
      ClosureIs(UseEdge(m), seeds, used, m.Keys, f);
    }
  }

  function Stripped(m: Module, used: set<nat>): Module {
    map f | f in m :: if f in used then m[f] else m[f].(isDeclaration := true, code := [])
  }

  /** Strip the functions that neither the trace nor the whitelist leads to. */
  method StripUnused(m: Module, traced: set<nat>, whitelisted: seq<nat>) returns (m': Module)
    requires WellFormed(m) && traced <= m.Keys && forall f | f in whitelisted :: f in m
    ensures m'.Keys == m.Keys
    ensures forall f | f in m :: m'[f] == if Kept(m, traced, whitelisted, f) then m[f]
            else m[f].(isDeclaration := true, code := [])
  {
    var start := Members(whitelisted);
    var wlist := Explore(m, start, whitelisted);
    var used := AddUsers(m, traced + wlist);
    m' := Stripped(m, used);
    forall f | f in m ensures f in used <==> Kept(m, traced, whitelisted, f) {
      KeptIs(m, traced, whitelisted, wlist, f);
    }
  }

  /** A function is kept if some chain of uses leads to it from a function of the trace, or from one that
      a chain of calls leads to from the whitelist. */
  ghost predicate Kept(m: Module, traced: set<nat>, whitelisted: seq<nat>, f: nat) {
    || Leads(UseEdge(m), traced, f)
    || exists g :: Leads(CallEdge(m), Members(whitelisted), g) && Leads(UseEdge(m), {g}, f)
  }

  lemma KeptIs(m: Module, traced: set<nat>, whitelisted: seq<nat>, wlist: set<nat>, f: nat)
    requires forall g :: g in wlist <==> Leads(CallEdge(m), Members(whitelisted), g)
    ensures Leads(UseEdge(m), traced + wlist, f) <==> Kept(m, traced, whitelisted, f)
  {
    var edge := UseEdge(m);
    if Leads(edge, traced + wlist, f) {
      var path :| IsPath(edge, path) && path[0] in traced + wlist && path[|path| - 1] == f;
      if path[0] !in traced {
        assert path[0] in {path[0]};
      }
    }
    if Leads(edge, traced, f) {
      var path :| IsPath(edge, path) && path[0] in traced && path[|path| - 1] == f;
      assert path[0] in traced + wlist;
    }
    if g :| Leads(CallEdge(m), Members(whitelisted), g) && Leads(edge, {g}, f) {
      var path :| IsPath(edge, path) && path[0] in {g} && path[|path| - 1] == f;
      assert path[0] in traced + wlist;
    }
  }

  /** Stripping takes no body from a function of the trace, from one that uses a kept function, or from a
      callee of a whitelisted definition: in particular from no direct or transitive caller of a traced
      function. */
  lemma CallersKeepBodies(m: Module, traced: set<nat>, whitelisted: seq<nat>, f: nat, g: nat)
    requires Kept(m, traced, whitelisted, f) && UsedBy(m, f, g)
    ensures Kept(m, traced, whitelisted, g)
  {
    var edge := UseEdge(m);
    assert edge(f, g);
    if Leads(edge, traced, f) {
      LeadsNext(edge, traced, f, g);
    } else {
      var w :| Leads(CallEdge(m), Members(whitelisted), w) && Leads(edge, {w}, f);
      LeadsNext(edge, {w}, f, g);
    }
  }

  lemma LeadsLast(edge: (nat, nat) -> bool, seeds: set<nat>, y: nat)
    requires Leads(edge, seeds, y) && y !in seeds
    ensures exists x :: Leads(edge, seeds, x) && edge(x, y)
  {
    var path :| IsPath(edge, path) && path[0] in seeds && path[|path| - 1] == y;
    var front := path[..|path| - 1];
    var x := front[|front| - 1];
    assert IsPath(edge, front) && front[0] in seeds;
    assert Leads(edge, seeds, x) && edge(path[|path| - 2], path[|path| - 1]);
  }

  /** The kept functions in terms of the module: those of the trace, those that a chain of calls leads to from the
      whitelist, and those with an instruction that has a kept function among its operands. */
  lemma KeptIff(m: Module, traced: set<nat>, whitelisted: seq<nat>, g: nat)
    requires g in m
    ensures Kept(m, traced, whitelisted, g) <==>
              || g in traced
              || Leads(CallEdge(m), Members(whitelisted), g)
              || exists f, i :: Kept(m, traced, whitelisted, f) && i in m[g].code && f in i.operands
  {
    hide Leads;
    var edge := UseEdge(m);
    if g in traced {
      LeadsSeed(edge, traced, g);
    }
    if Leads(CallEdge(m), Members(whitelisted), g) {
      LeadsSeed(edge, {g}, g);
    }
    if f, i :| Kept(m, traced, whitelisted, f) && i in m[g].code && f in i.operands {
      CallersKeepBodies(m, traced, whitelisted, f, g);
    }
    if Leads(edge, traced, g) && g !in traced {
      LeadsLast(edge, traced, g);
      var f :| Leads(edge, traced, f) && edge(f, g);
      assert Kept(m, traced, whitelisted, f) && exists i :: i in m[g].code && f in i.operands;
    }
    if w :| Leads(CallEdge(m), Members(whitelisted), w) && Leads(edge, {w}, g) && w != g {
      LeadsLast(edge, {w}, g);
      var f :| Leads(edge, {w}, f) && edge(f, g);
      assert Kept(m, traced, whitelisted, f) && exists i :: i in m[g].code && f in i.operands;
    }
  }
}
