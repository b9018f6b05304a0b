/**
 Step 3 of the repair (src/BugFixer.cpp:511-592, src/BugFixer.cpp:1041-1053) over a map that has fixes that stay at
 their stores and fixes that were raised: the entries are put into the program one after the other, in the
 order of the map. What each of them has brought about when all are in, and what depends on their order.
 */
module StepThree {
  import P = Persistence
  import opened Options
  import T = Traces
  import opened Mapping
  import opened Fixes
  import B = BugFixing
  import opened Ir
  import opened Flushing
  import opened FixGeneration
  import opened Rewriting
  import opened Chains
  import opened Images
  import opened Application

  // ----- One entry ------------------------------------------------------------------------------------------

  /** An entry of the map, in terms of the program: a store with its fix, or the frames of a call stack. */
  datatype Fix =
    | InPlace(fn: Name, id: nat, kind: FixType)
    | Raised(stack: seq<Option<FrameLoc>>, idx: nat, fence: bool)

  /** The mapper's view of the program: the function and identity of an instruction, and the frame of a line, if it is
      mapped. */
  datatype Mapper = Mapper(instOf: Inst -> (Name, nat), frameOf: T.Location -> Option<FrameLoc>)

  function FramesOf(mapper: Mapper, stack: seq<T.Location>): seq<Option<FrameLoc>> {
    seq(|stack|, i requires 0 <= i < |stack| => mapper.frameOf(stack[i]))
  }

  function FixOf(mapper: Mapper, fl: FixLoc, desc: FixDesc): Fix {
    if desc.kind.Subprogram() then
      Raised(FramesOf(mapper, desc.dynStack), desc.stackIdx, desc.kind.AddPersistCallstackOpt?)
    else
      var (fn, id) := mapper.instOf(fl.first);
      InPlace(fn, id, desc.kind)
  }

  function FixesOf(mapper: Mapper, m: FixMap, keys: seq<FixLoc>): seq<Fix>
    requires forall fl | fl in keys :: fl in m
  {
    seq(|keys|, i requires 0 <= i < |keys| => FixOf(mapper, keys[i], m[keys[i]]))
  }

  /** What a raised fix has done on the way. */
  datatype Made = Made(r: Outcome, progs: seq<Program>, clones: seq<Option<Name>>)

  /** The fix is one for this program. */
  ghost predicate Fits(p: Program, fix: Fix) {
    match fix
    case InPlace(fn, _, kind) => fn in p && fn.Source? && kind.Primitive()
    case Raised(stack, _, _) => SourceFrames(p, stack)
  }

  ghost predicate OneFix(p: Program, q: Program, pm: PmDesc, fix: Fix, made: Made) {
    match fix
    case InPlace(fn, id, kind) =>
      fn in p &&
      q == p[fn := ExpandFunction(p[fn], FixStore(id, FlushDuty in Duties(kind), FenceDuty in Duties(kind)))]
    case Raised(stack, idx, fence) => Subprogram(p, q, pm, stack, idx, fence, made.r, made.progs, made.clones)
  }

  /** The program before the first fix, and after each of them. */
  ghost predicate Applied(progs: seq<Program>, pm: PmDesc, fixes: seq<Fix>, made: seq<Made>) {
    && |progs| == |fixes| + 1 && |made| == |fixes|
    && (forall i | 0 <= i < |fixes| :: Fits(progs[0], fixes[i]))
    && forall i | 0 <= i < |fixes| :: OneFix(progs[i], progs[i + 1], pm, fixes[i], made[i])
  }

  /** Fits stays true: no function of the source is lost. */
  ghost predicate SourcesStay(p: Program, q: Program) {
    forall n: Name | n in p && n.Source? :: n in q
  }

  lemma FitsLater(p: Program, q: Program, fix: Fix)
    requires Fits(p, fix) && SourcesStay(p, q)
    ensures Fits(q, fix)
  {
  }

  /** A raised fix cannot be made: its levels cannot all be gone up, or a fence is due and none of them redirects a
      call. */
  ghost predicate Refused(p: Program, g: FixGenerator, fix: Fix, made: Made)
    requires fix.Raised?
  {
    Followable(p, g.persistentVersions, fix.stack, fix.idx) ==>
      && Levels(made.progs, g.pm, fix.stack, fix.idx, made.clones) && made.progs[0] == p
      && fix.fence && Anchor(made.progs, fix.stack, fix.idx).None?
  }

  method ApplyFix(g: FixGenerator, fix: Fix) returns (ok: bool, ghost made: Made)
    requires g.Valid() && Fits(g.functions, fix)
    modifies g
    ensures g.Valid() && SourcesStay(old(g.functions), g.functions)
    ensures ok ==> OneFix(old(g.functions), g.functions, g.pm, fix, made)
    ensures !ok ==> fix.Raised? && made.r.Failed?
    ensures fix.Raised? ==> (!ok <==> Refused(old(g.functions), g, fix, made))
  {
    match fix
    case InPlace(fn, id, kind) =>
      FixBug(g, fn, id, kind);
      ok, made := true, Made(NotInserted, [], []);
    case Raised(stack, idx, fence) =>
      var r, progs, clones := g.InsertPersistentSubProgram(stack, idx, fence);
      ok, made := !r.Failed?, Made(r, progs, clones);
  }

  /** What an entry of the map does to the program, in terms of the entry. In place, it puts the flush and the fence of
      its type behind the store at its place. Raised, it inserts a persistent subprogram over the frames of its call
      stack up to its frame, with a fence if its type has one. */
  ghost predicate EntryDone(p: Program, q: Program, pm: PmDesc, mapper: Mapper, fl: FixLoc, desc: FixDesc, made: Made) {
    if desc.kind == AddPersistCallstackOpt || desc.kind == AddPersistCallstackOptNoFence then
      exists stack ::
        && |stack| == |desc.dynStack|
        && (forall i | 0 <= i < |stack| :: stack[i] == mapper.frameOf(desc.dynStack[i]))
        && Subprogram(p, q, pm, stack, desc.stackIdx, desc.kind == AddPersistCallstackOpt,
                      made.r, made.progs, made.clones)
    else
      var (fn, id) := mapper.instOf(fl.first);
      && fn in p && desc.kind in {AddFlushOnly, AddFenceOnly, AddFlushAndFence}
      && q == p[fn := ExpandFunction(p[fn], FixStore(id, desc.kind != AddFenceOnly, desc.kind != AddFlushOnly))]
  }

  lemma FixDone(p: Program, q: Program, pm: PmDesc, mapper: Mapper, fl: FixLoc, desc: FixDesc, made: Made)
    requires Fits(p, FixOf(mapper, fl, desc)) && OneFix(p, q, pm, FixOf(mapper, fl, desc), made)
    ensures EntryDone(p, q, pm, mapper, fl, desc, made)
  {
    hide Subprogram, ExpandFunction, FixStore;
    if desc.kind.Subprogram() {
      var stack := FramesOf(mapper, desc.dynStack);
      assert forall i | 0 <= i < |stack| :: stack[i] == mapper.frameOf(desc.dynStack[i]);
    }
  }

  lemma EntriesDone(progs: seq<Program>, pm: PmDesc, mapper: Mapper, m: FixMap, keys: seq<FixLoc>, made: seq<Made>,
                    n: nat)
    requires (forall fl | fl in keys :: fl in m) && n <= |keys| && n <= |made|
    requires |progs| == n + 1 && Applied(progs, pm, FixesOf(mapper, m, keys)[..n], made[..n])
    ensures forall i | 0 <= i < n :: EntryDone(progs[i], progs[i + 1], pm, mapper, keys[i], m[keys[i]], made[i])
  {
    hide OneFix, Fits, FixOf, EntryDone;
    var fixes := FixesOf(mapper, m, keys)[..n];
    forall i | 0 <= i < n ensures EntryDone(progs[i], progs[i + 1], pm, mapper, keys[i], m[keys[i]], made[i]) {
      assert fixes[i] == FixOf(mapper, keys[i], m[keys[i]]) && made[..n][i] == made[i];
      FitsThere(progs, pm, fixes, made[..n], i);
      assert OneFix(progs[i], progs[i + 1], pm, fixes[i], made[..n][i]);
      FixDone(progs[i], progs[i + 1], pm, mapper, keys[i], m[keys[i]], made[i]);
    }
  }

  /** Step 3. It ends early only where a fence is due and no call has been redirected, or where a frame that is needed
      has no mapping. */
  method FixAll(g: FixGenerator, mapper: Mapper, m: FixMap, keys: seq<FixLoc>)
    returns (ok: bool, ghost progs: seq<Program>, ghost made: seq<Made>)
    requires g.Valid() && B.InOrder(keys) && (forall fl :: fl in keys <==> fl in m)
    requires forall i | 0 <= i < |keys| :: Fits(g.functions, FixesOf(mapper, m, keys)[i])
    modifies g
    ensures g.Valid() && 1 <= |progs| <= |keys| + 1 && progs[0] == old(g.functions)
    ensures |progs| - 1 <= |made| <= |keys| && forall p | p in progs :: Implements(g.base, p)
    ensures forall i | 0 <= i < |progs| - 1 ::
              EntryDone(progs[i], progs[i + 1], g.pm, mapper, keys[i], m[keys[i]], made[i])
    ensures Applied(progs, g.pm, FixesOf(mapper, m, keys)[..|progs| - 1], made[..|progs| - 1])
    ensures ok ==> |progs| == |keys| + 1 && progs[|keys|] == g.functions
    ensures !ok ==>
              && |progs| == |made| && made[|made| - 1].r.Failed?
              && var fix := FixesOf(mapper, m, keys)[|made| - 1];
                 fix.Raised? && Refused(progs[|progs| - 1], g, fix, made[|made| - 1])
  {
    hide Fits, OneFix, FixOf, Levels, Anchor, EntryDone, Refused;
    ghost var fixes := FixesOf(mapper, m, keys);
    progs, made, ok := [g.functions], [], true;
    for k := 0 to |keys|
      invariant g.Valid() && |progs| == k + 1 && |made| == k && progs[k] == g.functions && progs[0] == old(g.functions)
      invariant SourcesStay(old(g.functions), g.functions)
      invariant Applied(progs, g.pm, fixes[..k], made) && forall p | p in progs :: Implements(g.base, p)
    {
      FitsLater(old(g.functions), g.functions, fixes[k]);
      ghost var one;
      ok, one := ApplyFix(g, FixOf(mapper, keys[k], m[keys[k]]));
      made := made + [one];
      if !ok {
        assert made[..k] == made[..|made| - 1];
        EntriesDone(progs, g.pm, mapper, m, keys, made, k);
        return;
      }
      progs := progs + [g.functions];
      assert fixes[..k + 1] == fixes[..k] + [fixes[k]];
    }
    assert fixes[..|keys|] == fixes && made[..|keys|] == made;
    EntriesDone(progs, g.pm, mapper, m, keys, made, |keys|);
  }

  // ----- What all entries together put behind a store -------------------------------------------------------

  /** What the fixes in place put behind store `id` of `fn`. */
  function PutBehind(fixes: seq<Fix>, fn: Name, id: nat, ptr: nat): seq<Instr> {
    if fixes == [] then []
    else PutByOne(fixes[|fixes| - 1], fn, id, ptr) + PutBehind(fixes[..|fixes| - 1], fn, id, ptr)
  }

  function PutByOne(fix: Fix, fn: Name, id: nat, ptr: nat): seq<Instr> {
    if fix.InPlace? && fix.fn == fn && fix.id == id then Behind(fix.kind, ptr) else []
  }

  function PutIn(fixes: seq<Fix>, fn: Name): Behinds {
    (id: nat, ptr: nat) => PutBehind(fixes, fn, id, ptr)
  }

  predicate FramesSource(stack: seq<Option<FrameLoc>>) {
    forall l | l in stack && l.Some? :: l.value.fn.Source?
  }

  /** One level redirects calls in a source function, and leaves clones alone. */
  lemma LevelKeeps(p: Program, q: Program, pm: PmDesc, stack: seq<Option<FrameLoc>>, i: nat, clone: Option<Name>,
                   n: Name, f0: Function, add: Behinds)
    requires Level(p, q, pm, stack, i, clone) && FramesSource(stack) && n in p && Image(f0, p[n], add)
    ensures n in q && Image(f0, q[n], add) && (!n.Source? ==> q[n] == p[n])
  {
    hide ExpandFunction, FlushedFunction, NoCalls, CallsAt, Image;
    assert stack[i + 1] in stack;
    var next := stack[i + 1].value;
    if stack[i].None? {
      var calls := CallsAt(p[next.fn], next.insts);
      RedirectedAdds([calls[0].id], calls[0].callee, Persistent(calls[0].callee));
      if n == next.fn {
        ImageKept(f0, p[n], add, Redirected([calls[0].id], calls[0].callee, Persistent(calls[0].callee)));
      }
    } else {
      RedirectedAdds(next.insts, stack[i].value.fn, clone.value);
      if n == next.fn {
        ImageKept(f0, p[n], add, Redirected(next.insts, stack[i].value.fn, clone.value));
      }
    }
  }

  lemma {:induction false} LevelsKeep(progs: seq<Program>, pm: PmDesc, stack: seq<Option<FrameLoc>>, idx: nat,
                                      clones: seq<Option<Name>>, j: nat, k: nat, n: Name, f0: Function, add: Behinds)
    requires Levels(progs, pm, stack, idx, clones) && FramesSource(stack) && j <= k <= idx
    requires n in progs[j] && Image(f0, progs[j][n], add)
    ensures n in progs[k] && Image(f0, progs[k][n], add) && (!n.Source? ==> progs[k][n] == progs[j][n])
    decreases k - j
  {
    hide Level, Image;
    if j < k {
      LevelsKeep(progs, pm, stack, idx, clones, j, k - 1, n, f0, add);
      var i := k - 1;
      assert Level(progs[i], progs[i + 1], pm, stack, i, clones[i]);
      LevelKeeps(progs[k - 1], progs[k], pm, stack, k - 1, clones[k - 1], n, f0, add);
    }
  }

  lemma {:induction false} AnchorIsSource(progs: seq<Program>, stack: seq<Option<FrameLoc>>, n: nat)
    requires n <= |progs| && Anchor(progs, stack, n).Some? && FramesSource(stack)
    ensures Anchor(progs, stack, n).value.0.Source?
  {
    hide LevelCall;
    var call := LevelCall(progs[n - 1], stack, n - 1);
    if call.Some? && n < |stack| && stack[n].Some? {
      assert stack[n] in stack;
    } else {
      AnchorIsSource(progs, stack, n - 1);
    }
  }

  /** From any level to the end of a raised fix. */
  lemma SubprogramKeeps(p: Program, q: Program, pm: PmDesc, fix: Fix, made: Made, j: nat, n: Name, f0: Function,
                        add: Behinds)
    requires fix.Raised? && OneFix(p, q, pm, fix, made) && FramesSource(fix.stack) && j <= fix.idx
    requires n in made.progs[j] && Image(f0, made.progs[j][n], add)
    ensures n in q && Image(f0, q[n], add) && (!n.Source? ==> q[n] == made.progs[j][n])
  {
    hide Levels, Anchor, Image, ExpandFunction;
    LevelsLength(made.progs, pm, fix.stack, fix.idx, made.clones);
    LevelsKeep(made.progs, pm, fix.stack, fix.idx, made.clones, j, fix.idx, n, f0, add);
    if made.r.Inserted? {
      AnchorIsSource(made.progs, fix.stack, fix.idx);
      FenceCallAdds(made.r.id);
      if n == made.r.fn {
        ImageKept(f0, made.progs[fix.idx][n], add, FenceCall(made.r.id));
      }
    }
  }

  /** What one fix does to a function. */
  lemma OneFixImage(p: Program, q: Program, pm: PmDesc, fix: Fix, made: Made, n: Name, f0: Function, add: Behinds)
    requires Fits(p, fix) && OneFix(p, q, pm, fix, made) && n in p && Image(f0, p[n], add)
    ensures n in q && (!n.Source? ==> q[n] == p[n])
    ensures Image(f0, q[n], (id: nat, ptr: nat) => PutByOne(fix, n, id, ptr) + add(id, ptr))
  {
    hide Image, ExpandFunction, FixStore, Subprogram;
    var more := (id: nat, ptr: nat) => PutByOne(fix, n, id, ptr) + add(id, ptr);
    match fix
    case InPlace(fn, id, kind) =>
      FixStoreAdds(id, kind);
      if n == fn {
        var two := FixStore(id, FlushDuty in Duties(kind), FenceDuty in Duties(kind));
        var b := FixBehind(id, kind);
        ImageThen(f0, p[n], add, two, b);
        forall x, ptr ensures b(x, ptr) + add(x, ptr) == more(x, ptr) {
        }
        ImageSame(f0, q[n], (x: nat, ptr: nat) => b(x, ptr) + add(x, ptr), more);
      } else {
        NothingPut(f0, q[n], fix, n, add);
      }
    case Raised(stack, idx, fence) =>
      SubprogramStarts(p, q, pm, fix, made);
      SubprogramKeeps(p, q, pm, fix, made, 0, n, f0, add);
      NothingPut(f0, q[n], fix, n, add);
  }

  lemma SubprogramStarts(p: Program, q: Program, pm: PmDesc, fix: Fix, made: Made)
    requires fix.Raised? && Fits(p, fix) && OneFix(p, q, pm, fix, made)
    ensures FramesSource(fix.stack) && made.progs != [] && made.progs[0] == p
  {
    hide Levels;
    LevelsLength(made.progs, pm, fix.stack, fix.idx, made.clones);
  }

  lemma NothingPut(f0: Function, f: Function, fix: Fix, n: Name, add: Behinds)
    requires Image(f0, f, add) && !(fix.InPlace? && fix.fn == n)
    ensures Image(f0, f, (id: nat, ptr: nat) => PutByOne(fix, n, id, ptr) + add(id, ptr))
  {
    hide Image;
    var more := (id: nat, ptr: nat) => PutByOne(fix, n, id, ptr) + add(id, ptr);
    forall id, ptr ensures add(id, ptr) == more(id, ptr) {
      assert [] + add(id, ptr) == add(id, ptr);
    }
    ImageSame(f0, f, add, more);
  }

  /** The functions of the source after the first `k` fixes. */
  lemma {:induction false} SourceImage(progs: seq<Program>, pm: PmDesc, fixes: seq<Fix>, made: seq<Made>, k: nat,
                                       n: Name)
    requires Applied(progs, pm, fixes, made) && k <= |fixes| && n in progs[0] && n.Source?
    ensures n in progs[k] && Image(progs[0][n], progs[k][n], PutIn(fixes[..k], n))
    decreases k
  {
    hide Image, OneFix, Fits;
    if k == 0 {
      ImageUnchanged(progs[0][n]);
      forall id, ptr ensures NOTHING(id, ptr) == PutIn(fixes[..0], n)(id, ptr) {
      }
      ImageSame(progs[0][n], progs[0][n], NOTHING, PutIn(fixes[..0], n));
    } else {
      var i := k - 1;
      SourceImage(progs, pm, fixes, made, i, n);
      FitsThere(progs, pm, fixes, made, i);
      assert OneFix(progs[i], progs[i + 1], pm, fixes[i], made[i]);
      var add := PutIn(fixes[..i], n);
      OneFixImage(progs[i], progs[k], pm, fixes[i], made[i], n, progs[0][n], add);
      var more := (id: nat, ptr: nat) => PutByOne(fixes[i], n, id, ptr) + add(id, ptr);
      forall id, ptr ensures more(id, ptr) == PutIn(fixes[..k], n)(id, ptr) {
        assert fixes[..k][..i] == fixes[..i];
      }
      ImageSame(progs[0][n], progs[k][n], more, PutIn(fixes[..k], n));
    }
  }

  lemma {:induction false} FitsThere(progs: seq<Program>, pm: PmDesc, fixes: seq<Fix>, made: seq<Made>, k: nat)
    requires Applied(progs, pm, fixes, made) && k <= |fixes|
    ensures SourcesStay(progs[0], progs[k])
    ensures k < |fixes| ==> Fits(progs[k], fixes[k])
    decreases k
  {
    hide OneFix, Fits;
    if k > 0 {
      var i := k - 1;
      FitsThere(progs, pm, fixes, made, i);
      assert OneFix(progs[i], progs[i + 1], pm, fixes[i], made[i]);
      forall n: Name | n in progs[0] && n.Source? ensures n in progs[k] {
        ImageUnchanged(progs[i][n]);
        OneFixImage(progs[i], progs[k], pm, fixes[i], made[i], n, progs[i][n], NOTHING);
      }
    }
    if k < |fixes| {
      assert Fits(progs[0], fixes[k]);
      FitsLater(progs[0], progs[k], fixes[k]);
    }
  }

  // ----- Clones ---------------------------------------------------------------------------------------------

  /** Level `l` of a raised fix has made the clone `c` of `fn`. */
  predicate Clones(fix: Fix, made: Made, l: nat, fn: Name, c: Name) {
    && fix.Raised? && l < fix.idx && l < |fix.stack| && l < |made.clones|
    && fix.stack[l].Some? && fix.stack[l].value.fn == fn && made.clones[l] == Some(c)
  }

  /** What a new clone looks like, and that it stays so to the end of the fix. */
  lemma NewClone(p: Program, q: Program, pm: PmDesc, fix: Fix, made: Made, l: nat, fn: Name, c: Name, f0: Function,
                 add: Behinds)
    requires Fits(p, fix) && OneFix(p, q, pm, fix, made) && Clones(fix, made, l, fn, c)
    requires fn in p && Image(f0, p[fn], add)
    ensures c.Clone? && c.base == fn && c in q
    ensures Image(f0, q[c], (id: nat, ptr: nat) => FlushBehind(pm, c)(id, ptr) + add(id, ptr))
  {
    hide Image, ExpandFunction, Anchor, FlushedFunction, NoCalls, FlushAll;
    var progs, stack := made.progs, fix.stack;
    SubprogramStarts(p, q, pm, fix, made);
    LevelsKeep(progs, pm, stack, fix.idx, made.clones, 0, l, fn, f0, add);
    assert Level(progs[l], progs[l + 1], pm, stack, l, made.clones[l]);
    FlushAllAdds(pm, c);
    ImageThen(f0, progs[l][fn], add, FlushAll(pm, c), FlushBehind(pm, c));
    var more := (id: nat, ptr: nat) => FlushBehind(pm, c)(id, ptr) + add(id, ptr);
    assert progs[l + 1][c] == ExpandFunction(progs[l][fn], FlushAll(pm, c));
    SubprogramKeeps(p, q, pm, fix, made, l + 1, c, f0, more);
  }

  /** A clone has what was behind the stores of its function when it was made, and a flush behind each store to
      persistent memory. What is put into the function later does not reach it. */
  lemma {:induction false} CloneImage(progs: seq<Program>, pm: PmDesc, fixes: seq<Fix>, made: seq<Made>, j: nat, l: nat,
                                      fn: Name, c: Name, k: nat)
    requires Applied(progs, pm, fixes, made) && j < k <= |fixes| && Clones(fixes[j], made[j], l, fn, c)
    ensures fn in progs[0] && fn.Source? && c.Clone? && c.base == fn && c in progs[k]
    ensures Image(progs[0][fn], progs[k][c],
                  (id: nat, ptr: nat) => FlushBehind(pm, c)(id, ptr) + PutBehind(fixes[..j], fn, id, ptr))
    decreases k
  {
    hide Image, OneFix;
    assert Fits(progs[0], fixes[j]) && fixes[j].stack[l] in fixes[j].stack;
    hide Fits;
    var i := k - 1;
    FitsThere(progs, pm, fixes, made, i);
    assert OneFix(progs[i], progs[i + 1], pm, fixes[i], made[i]);
    if k == j + 1 {
      SourceImage(progs, pm, fixes, made, j, fn);
      var add := PutIn(fixes[..j], fn);
      NewClone(progs[j], progs[k], pm, fixes[j], made[j], l, fn, c, progs[0][fn], add);
      ImageSame(progs[0][fn], progs[k][c], (id: nat, ptr: nat) => FlushBehind(pm, c)(id, ptr) + add(id, ptr),
                (id: nat, ptr: nat) => FlushBehind(pm, c)(id, ptr) + PutBehind(fixes[..j], fn, id, ptr));
    } else {
      CloneImage(progs, pm, fixes, made, j, l, fn, c, i);
      ImageUnchanged(progs[i][c]);
      OneFixImage(progs[i], progs[k], pm, fixes[i], made[i], c, progs[i][c], NOTHING);
    }
  }

  // ----- Which fences reach which version of a function -----------------------------------------------------

  /** A fix in place with a fence is among these, for store `id` of `fn`. */
  ghost predicate FencesStore(fixes: seq<Fix>, fn: Name, id: nat) {
    exists i :: 0 <= i < |fixes| && IsFenceFor(fixes[i], fn, id)
  }

  predicate IsFenceFor(fix: Fix, fn: Name, id: nat) {
    fix.InPlace? && fix.fn == fn && fix.id == id && FenceDuty in Duties(fix.kind)
  }

  lemma {:induction false} FenceIsPut(fixes: seq<Fix>, fn: Name, id: nat, ptr: nat)
    requires forall i | 0 <= i < |fixes| && fixes[i].InPlace? :: fixes[i].kind.Primitive()
    ensures Fence(true) in PutBehind(fixes, fn, id, ptr) <==> FencesStore(fixes, fn, id)
  {
    if fixes != [] {
      var front, fix := fixes[..|fixes| - 1], fixes[|fixes| - 1];
      FenceIsPut(front, fn, id, ptr);
      assert Fence(true) in PutByOne(fix, fn, id, ptr) <==> IsFenceFor(fix, fn, id);
      assert forall i | 0 <= i < |front| :: front[i] == fixes[i];
    }
  }

  lemma FitFixesPrimitive(progs: seq<Program>, pm: PmDesc, fixes: seq<Fix>, made: seq<Made>)
    requires Applied(progs, pm, fixes, made)
    ensures forall i | 0 <= i < |fixes| && fixes[i].InPlace? :: fixes[i].kind.Primitive()
  {
    hide OneFix;
    forall i | 0 <= i < |fixes| && fixes[i].InPlace? ensures fixes[i].kind.Primitive() {
      assert Fits(progs[0], fixes[i]);
    }
  }

  /** In the function itself, a store has a fence in the end exactly if some entry asks for one there. */
  lemma SourceFencedIff(progs: seq<Program>, pm: PmDesc, fixes: seq<Fix>, made: seq<Made>, fn: Name, id: nat)
    requires Applied(progs, pm, fixes, made) && fn in progs[0] && fn.Source? && PlainFunction(progs[0][fn])
    ensures fn in progs[|fixes|]
    ensures FencedStore(progs[|fixes|][fn], id) <==>
              (forall ptr :: !HasStore(progs[0][fn], id, ptr)) || FencesStore(fixes, fn, id)
  {
    hide Image, OneFix, Fits, FencedStore, PlainFunction, HasStore, PutBehind;
    SourceImage(progs, pm, fixes, made, |fixes|, fn);
    assert fixes[..|fixes|] == fixes;
    FencedStoreIff(progs[0][fn], progs[|fixes|][fn], PutIn(fixes, fn), id);
    FitFixesPrimitive(progs, pm, fixes, made);
    forall ptr ensures Fence(true) in PutBehind(fixes, fn, id, ptr) <==> FencesStore(fixes, fn, id) {
      FenceIsPut(fixes, fn, id, ptr);
    }
  }

  /** In a clone of it, exactly if such an entry comes before the raised fix that makes the clone. */
  lemma CloneFencedIff(progs: seq<Program>, pm: PmDesc, fixes: seq<Fix>, made: seq<Made>, j: nat, l: nat, fn: Name,
                       c: Name, id: nat)
    requires Applied(progs, pm, fixes, made) && j < |fixes| && Clones(fixes[j], made[j], l, fn, c)
    requires fn in progs[0] && PlainFunction(progs[0][fn])
    ensures c in progs[|fixes|]
    ensures FencedStore(progs[|fixes|][c], id) <==>
              (forall ptr :: !HasStore(progs[0][fn], id, ptr)) || FencesStore(fixes[..j], fn, id)
  {
    hide Image, OneFix, Fits, FencedStore, PlainFunction, HasStore, PutBehind;
    CloneImage(progs, pm, fixes, made, j, l, fn, c, |fixes|);
    var add := (x: nat, ptr: nat) => FlushBehind(pm, c)(x, ptr) + PutBehind(fixes[..j], fn, x, ptr);
    FencedStoreIff(progs[0][fn], progs[|fixes|][c], add, id);
    FitFixesPrimitive(progs, pm, fixes, made);
    forall ptr ensures Fence(true) in add(id, ptr) <==> FencesStore(fixes[..j], fn, id) {
      FenceIsPut(fixes[..j], fn, id, ptr);
      assert Fence(true) !in FlushBehind(pm, c)(id, ptr);
    }
  }

  /** So step 3 depends on the order of the map. An entry in place with a fence reaches every version of its function
      exactly if no entry before it clones that function. */
  lemma InPlaceReachesAllIff(progs: seq<Program>, pm: PmDesc, fixes: seq<Fix>, made: seq<Made>, i: nat)
    requires Applied(progs, pm, fixes, made) && i < |fixes|
    requires fixes[i].InPlace? && FenceDuty in Duties(fixes[i].kind) && PlainFunction(progs[0][fixes[i].fn])
    requires exists ptr :: HasStore(progs[0][fixes[i].fn], fixes[i].id, ptr)
    requires forall k | 0 <= k < |fixes| && IsFenceFor(fixes[k], fixes[i].fn, fixes[i].id) :: k == i
    ensures (forall j: nat, l: nat, c | CloneIn(fixes, made, j, l, fixes[i].fn, c) ::
               c in progs[|fixes|] && FencedStore(progs[|fixes|][c], fixes[i].id))
            <==> forall j: nat, l: nat, c | CloneIn(fixes, made, j, l, fixes[i].fn, c) :: i < j
  {
    hide Image, OneFix, FencedStore, PlainFunction, HasStore;
    var fn, id := fixes[i].fn, fixes[i].id;
    forall j: nat, l: nat, c | CloneIn(fixes, made, j, l, fn, c)
      ensures c in progs[|fixes|] && (FencedStore(progs[|fixes|][c], id) <==> i < j)
    {
      CloneFencedIff(progs, pm, fixes, made, j, l, fn, c, id);
      if i < j {
        assert fixes[..j][i] == fixes[i];
      }
    }
  }

  predicate CloneIn(fixes: seq<Fix>, made: seq<Made>, j: nat, l: nat, fn: Name, c: Name) {
    j < |fixes| && j < |made| && Clones(fixes[j], made[j], l, fn, c)
  }

  // ----- A fix in place, in the end -------------------------------------------------------------------------

  /** The only entry for a store decides what is put behind it. */
  lemma {:induction false} PutOnce(fixes: seq<Fix>, i: int, fn: Name, id: nat, ptr: nat)
    requires forall k | 0 <= k < |fixes| && fixes[k].InPlace? && fixes[k].fn == fn && fixes[k].id == id :: k == i
    ensures PutBehind(fixes, fn, id, ptr) == if 0 <= i < |fixes| then PutByOne(fixes[i], fn, id, ptr) else []
  {
    if fixes != [] {
      var front, fix := fixes[..|fixes| - 1], fixes[|fixes| - 1];
      assert forall k | 0 <= k < |front| :: front[k] == fixes[k];
      PutOnce(front, i, fn, id, ptr);
      assert PutByOne(fix, fn, id, ptr) + [] == PutByOne(fix, fn, id, ptr);
    }
  }

  /** Flushes of its own pointer, one or two, and then a fence. */
  predicate SecuredAt(code: seq<Instr>, k: nat)
    requires k < |code| && code[k].Store?
  {
    var flush := Flush(code[k].ptr, true);
    && k + 2 < |code| && code[k + 1] == flush
    && (code[k + 2] == Fence(true) || (k + 3 < |code| && code[k + 2] == flush && code[k + 3] == Fence(true)))
  }

  function SecuredStores(id: nat): seq<Instr> -> bool {
    (code: seq<Instr>) => forall k | 0 <= k < |code| && IsStore(code[k], id) :: SecuredAt(code, k)
  }

  lemma SecuredTail(id: nat)
    ensures TailClosed(SecuredStores(id))
  {
    forall code: seq<Instr> | code != [] && SecuredStores(id)(code) ensures SecuredStores(id)(code[1..]) {
      forall k | 0 <= k < |code[1..]| && IsStore(code[1..][k], id) ensures SecuredAt(code[1..], k) {
        assert code[1..][k] == code[k + 1] && SecuredAt(code, k + 1);
      }
    }
  }

  /** A version of a function: the function itself, or a clone of it. */
  ghost predicate Version(fixes: seq<Fix>, made: seq<Made>, i: nat, fn: Name, v: Name) {
    v == fn || exists j: nat, l: nat :: i < j && CloneIn(fixes, made, j, l, fn, v)
  }

  /** Every version that an entry with flush and fence reaches has both behind the store in the end. */
  lemma VersionSecured(progs: seq<Program>, pm: PmDesc, fixes: seq<Fix>, made: seq<Made>, i: nat, v: Name)
    requires Applied(progs, pm, fixes, made) && i < |fixes|
    requires fixes[i].InPlace? && fixes[i].kind.AddFlushAndFence? && Version(fixes, made, i, fixes[i].fn, v)
    requires forall k | 0 <= k < |fixes| && fixes[k].InPlace? && fixes[k].fn == fixes[i].fn
                        && fixes[k].id == fixes[i].id :: k == i
    ensures v in progs[|fixes|] && BlocksHave(progs[|fixes|][v], SecuredStores(fixes[i].id))
  {
    assert Fits(progs[0], fixes[i]);
    hide Image, OneFix, Fits, PutBehind, FlushBehind, BlocksHave, SecuredStores, Clones;
    var fn, id, q := fixes[i].fn, fixes[i].id, progs[|fixes|];
    if v == fn {
      SourceImage(progs, pm, fixes, made, |fixes|, fn);
      assert fixes[..|fixes|] == fixes;
      forall ptr ensures PutIn(fixes, fn)(id, ptr) == [Flush(ptr, true), Fence(true)] {
        PutFlushAndFence(fixes, |fixes|, i, ptr);
      }
      AddSecures(progs[0][fn], q[v], PutIn(fixes, fn), id);
    } else {
      var j: nat, l: nat :| i < j && CloneIn(fixes, made, j, l, fn, v);
      CloneImage(progs, pm, fixes, made, j, l, fn, v, |fixes|);
      var add := (x: nat, ptr: nat) => FlushBehind(pm, v)(x, ptr) + PutBehind(fixes[..j], fn, x, ptr);
      forall ptr ensures || add(id, ptr) == [Flush(ptr, true), Fence(true)]
                         || add(id, ptr) == [Flush(ptr, true), Flush(ptr, true), Fence(true)] {
        PutFlushAndFence(fixes, j, i, ptr);
        FlushBefore(pm, v, id, ptr);
      }
      AddSecures(progs[0][fn], q[v], add, id);
    }
  }

  lemma PutFlushAndFence(fixes: seq<Fix>, j: nat, i: nat, ptr: nat)
    requires i < j <= |fixes| && fixes[i].InPlace? && fixes[i].kind.AddFlushAndFence?
    requires forall k | 0 <= k < |fixes| && fixes[k].InPlace? && fixes[k].fn == fixes[i].fn
                        && fixes[k].id == fixes[i].id :: k == i
    ensures PutBehind(fixes[..j], fixes[i].fn, fixes[i].id, ptr) == [Flush(ptr, true), Fence(true)]
  {
    hide PutBehind;
    assert fixes[..j][i] == fixes[i];
    PutOnce(fixes[..j], i, fixes[i].fn, fixes[i].id, ptr);
  }

  lemma FlushBefore(pm: PmDesc, v: Name, id: nat, ptr: nat)
    ensures var all := FlushBehind(pm, v)(id, ptr) + [Flush(ptr, true), Fence(true)];
            || all == [Flush(ptr, true), Fence(true)]
            || all == [Flush(ptr, true), Flush(ptr, true), Fence(true)]
  {
    var fix := [Flush(ptr, true), Fence(true)];
    assert [] + fix == fix && [Flush(ptr, true)] + fix == [Flush(ptr, true), Flush(ptr, true), Fence(true)];
  }

  lemma BehindElements(code: seq<Instr>, k: nat, more: seq<Instr>)
    requires k < |code| && BehindAt(code, k, more) && 2 <= |more| <= 3
    ensures k + |more| < |code| && code[k + 1] == more[0] && code[k + 2] == more[1]
    ensures |more| == 3 ==> code[k + 3] == more[2]
  {
    var part := code[k + 1..k + 1 + |more|];
    assert part[0] == code[k + 1] && part[1] == code[k + 2];
    assert |more| == 3 ==> part[2] == code[k + 3];
  }

  lemma AddSecures(f0: Function, f: Function, add: Behinds, id: nat)
    requires Image(f0, f, add)
    requires forall ptr :: || add(id, ptr) == [Flush(ptr, true), Fence(true)]
                           || add(id, ptr) == [Flush(ptr, true), Flush(ptr, true), Fence(true)]
    ensures BlocksHave(f, SecuredStores(id))
  {
    hide Image;
    BehindStores(f0, f, add, id);
    forall b | b in f.blocks ensures SecuredStores(id)(b.code) {
      var code := b.code;
      forall k | 0 <= k < |code| && IsStore(code[k], id) ensures SecuredAt(code, k) {
        var more := add(id, code[k].ptr);
        assert BehindAt(code, k, more);
        BehindElements(code, k, more);
      }
    }
  }

  /** A store, one or two flushes of it, and a fence. */
  lemma MorePersist(ops: seq<P.Op>, more: seq<P.Op>, b: nat)
    requires 3 <= |more| && more[0].Writes(b) && more[1] == P.Clwb(more[0].address) && more[|more| - 1] == P.Fence
    requires forall n | 1 <= n < |more| :: !more[n].Store?
    requires P.Line(more[0].address) == P.Line(b)
    ensures P.Run(ops + more).Persisted(b)
  {
    hide P.Run;
    var all, n := ops + more, |ops|;
    assert all[n] == more[0] && all[n + 1] == more[1] && all[|all| - 1] == more[|more| - 1];
    assert forall i | n < i < |all| :: all[i] == more[i - n] && !all[i].Store?;
    forall i | 0 <= i < |all| && all[i].Writes(b) ensures P.Secured(all, i, b) {
      assert all[n + 1].WritesBack(b) && all[|all| - 1].Fence?;
      assert i <= n;
    }
    P.PersistedIff(all, b);
  }

  lemma RunFour(q: Program, s: State, start: State, k: nat)
    requires s == Run(q, start, k)
    ensures Run(q, start, k + 4) == Step(q, Step(q, Step(q, Step(q, s))))
  {
    hide Step;
    RunThree(q, s, start, k);
    assert Run(q, start, k + 4) == Step(q, Run(q, start, k + 3));
  }

  lemma StoreFlushFlushFence(q: Program, s: State)
    requires s.frames != [] && s.input != []
    requires var code := s.frames[|s.frames| - 1].code;
             && |code| > 3 && code[0].Store? && code[1] == Flush(code[0].ptr, true) && code[2] == code[1]
             && code[3] == Fence(true)
    ensures var top := s.frames[|s.frames| - 1];
            var a := top.Addr(top.code[0].ptr);
            Ops(Step(q, Step(q, Step(q, Step(q, s)))).log)
            == Ops(s.log) + [P.Store(a, s.input[0].bytes), P.Clwb(a), P.Clwb(a), P.Fence]
  {
    var n := |s.frames| - 1;
    var t := Step(q, s);
    var u := Step(q, t);
    var w := Step(q, u);
    assert t.frames[n].code == s.frames[n].code[1..] && t.frames[n].regs == s.frames[n].regs;
    assert u.frames[n].code == s.frames[n].code[2..] && u.frames[n].regs == s.frames[n].regs;
    assert w.frames[n].code == s.frames[n].code[3..];
  }

  /** What an entry in place with flush and fence achieves, whatever else is in the map: in every run of the final
      program, when the store is done by any version of its function that was not cloned before, the bytes are
      persisted three or four steps later. */
  lemma InPlacePersists(progs: seq<Program>, pm: PmDesc, fixes: seq<Fix>, made: seq<Made>, i: nat, v: Name,
                        main: Name, input: seq<Choice>, k: nat, b: nat) returns (n: nat)
    requires Applied(progs, pm, fixes, made) && i < |fixes|
    requires fixes[i].InPlace? && fixes[i].kind.AddFlushAndFence? && Version(fixes, made, i, fixes[i].fn, v)
    requires forall k | 0 <= k < |fixes| && fixes[k].InPlace? && fixes[k].fn == fixes[i].fn
                        && fixes[k].id == fixes[i].id :: k == i
    requires Defined(progs[|fixes|], main)
    requires Stores(Run(progs[|fixes|], Start(progs[|fixes|], main, input), k), v, fixes[i].id)
    requires var s := Run(progs[|fixes|], Start(progs[|fixes|], main, input), k);
             var top := s.frames[|s.frames| - 1];
             var a := top.Addr(top.code[0].ptr);
             a <= b < a + |s.input[0].bytes|
    ensures 3 <= n <= 4
    ensures P.Run(Ops(Run(progs[|fixes|], Start(progs[|fixes|], main, input), k + n).log)).Persisted(b)
  {
    assert |fixes| < |progs|;
    hide Run, Step, P.Run, Applied, Version, BlocksHave, TailClosed, FramesHave;
    var q, id := progs[|fixes|], fixes[i].id;
    var start := Start(q, main, input);
    VersionSecured(progs, pm, fixes, made, i, v);
    SecuredTail(id);
    RunHave(q, main, input, v, SecuredStores(id), k);
    var s := Run(q, start, k);
    n := SecuredPersists(q, start, s, v, id, k, b);
  }

  lemma SecuredPersists(q: Program, start: State, s: State, v: Name, id: nat, k: nat, b: nat) returns (n: nat)
    requires s == Run(q, start, k) && Stores(s, v, id) && FramesHave(s, v, SecuredStores(id))
    requires var top := s.frames[|s.frames| - 1];
             var a := top.Addr(top.code[0].ptr);
             a <= b < a + |s.input[0].bytes|
    ensures 3 <= n <= 4 && P.Run(Ops(Run(q, start, k + n).log)).Persisted(b)
  {
    hide Run, Step, P.Run;
    var top := s.frames[|s.frames| - 1];
    assert top in s.frames && SecuredStores(id)(top.code);
    assert SecuredAt(top.code, 0);
    var a := top.Addr(top.code[0].ptr);
    if top.code[2] == Fence(true) {
      n := 3;
      RunThree(q, s, start, k);
      StoreFlushFence(q, s);
      MorePersist(Ops(s.log), [P.Store(a, s.input[0].bytes), P.Clwb(a), P.Fence], b);
    } else {
      n := 4;
      RunFour(q, s, start, k);
      StoreFlushFlushFence(q, s);
      MorePersist(Ops(s.log), [P.Store(a, s.input[0].bytes), P.Clwb(a), P.Clwb(a), P.Fence], b);
    }
  }
}
