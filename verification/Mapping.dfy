/**
 From source locations to ranges of instructions (src/BugReports.hpp:86-179,
 src/BugReports.cpp:124-157, src/BugReports.cpp:189-300).
 */
module Mapping {
  import opened Traces

  /** An instruction, by its basic block and its position there. */
  datatype Inst = Inst(block: nat, pos: nat)

  /** A range of instructions of one basic block, both ends included. */
  datatype FixLoc = FixLoc(first: Inst, last: Inst)
  {
    predicate IsValid() {
      first.block == last.block
    }

    predicate Holds(i: Inst) {
      i.block == first.block == last.block && first.pos <= i.pos <= last.pos
    }

    /** The instructions of the range, in order. */
    function Insts(): seq<Inst> {
      if !IsValid() || last.pos < first.pos then []
      else seq(last.pos + 1 - first.pos, k requires 0 <= k => Inst(first.block, first.pos + k))
    }

    lemma InstsAreHeld(i: Inst)
      ensures i in Insts() <==> Holds(i)
    {
      if Holds(i) {
        assert Insts()[i.pos - first.pos] == i;
      }
    }

    /** The order of the fix map. Addresses of instructions are modelled by (block, position). */
    predicate Less(other: FixLoc) {
      || InstLess(first, other.first)
      || (first == other.first && InstLess(last, other.last))
    }
  }

  predicate InstLess(i: Inst, j: Inst) {
    i.block < j.block || (i.block == j.block && i.pos < j.pos)
  }

  /** One instruction of the module: its source location, if it has debug information, and whether
      it only declares a variable to the debugger. */
  datatype CodeInst = CodeInst(inst: Inst, loc: seq<Location>, isDeclare: bool)
  {
    predicate At(l: Location) {
      loc != [] && loc[0] == l
    }
  }

  /** The instructions of location `l` that a fix could apply to. */
  ghost predicate Fixable(code: seq<CodeInst>, l: Location, i: Inst) {
    exists c :: c in code && c.At(l) && !c.isDeclare && c.inst == i
  }

  /** Both ends of `fl` are instructions of `l`: the range cannot be smaller. */
  ghost predicate Tight(code: seq<CodeInst>, l: Location, fl: FixLoc) {
    && fl.Holds(fl.first) && fl.Holds(fl.last)
    && Fixable(code, l, fl.first) && Fixable(code, l, fl.last)
  }

  ghost predicate Held(locs: seq<FixLoc>, i: Inst) {
    exists fl :: fl in locs && fl.Holds(i)
  }

  /** `locs` has, for each block that location `l` reaches, the smallest range with all of its
      instructions there, and nothing else. */
  ghost predicate Spans(code: seq<CodeInst>, l: Location, locs: seq<FixLoc>) {
    && (forall i {:trigger Held(locs, i)} :: Fixable(code, l, i) ==> Held(locs, i))
    && (forall fl {:trigger Tight(code, l, fl)} :: fl in locs ==> Tight(code, l, fl))
    && OnePerBlock(locs)
  }

  predicate OnePerBlock(locs: seq<FixLoc>) {
    forall j, k | 0 <= j < k < |locs| :: locs[j].first.block != locs[k].first.block
  }

  /** In terms of the code alone: each instruction at location `l`, declarations of variables excepted, is in a range
      of the location, and both ends of each range are such instructions. */
  lemma SpansMeaning(code: seq<CodeInst>, l: Location, locs: seq<FixLoc>, c: CodeInst, fl: FixLoc)
    requires Spans(code, l, locs)
    ensures c in code && c.loc != [] && c.loc[0] == l && !c.isDeclare ==> exists x :: x in locs && x.Holds(c.inst)
    ensures fl in locs ==>
              && (exists x :: x in code && x.loc != [] && x.loc[0] == l && !x.isDeclare && x.inst == fl.first)
              && (exists x :: x in code && x.loc != [] && x.loc[0] == l && !x.isDeclare && x.inst == fl.last)
  {
    hide FixLoc.Holds, OnePerBlock;
    if c in code && c.loc != [] && c.loc[0] == l && !c.isDeclare {
      assert Fixable(code, l, c.inst) && Held(locs, c.inst);
    }
    if fl in locs {
      assert Tight(code, l, fl);
    }
  }

  class BugLocationMapper {
    var locMap: map<Location, seq<CodeInst>>
    var fixLocMap: map<Location, seq<FixLoc>>

    constructor (code: seq<CodeInst>)
      ensures forall c | c in code && c.loc != [] :: c.loc[0] in fixLocMap
      ensures forall l | l in fixLocMap :: exists c :: c in code && c.At(l)
      ensures forall l | l in fixLocMap :: Spans(code, l, fixLocMap[l])
    {
      locMap, fixLocMap := map[], map[];
      new;
      for k := 0 to |code|
        invariant fixLocMap == map[]
        invariant Listed(code[..k])
      {
        InsertMapping(code[k]);
        assert code[..k + 1] == code[..k] + [code[k]];
      }
      assert code[..|code|] == code;

      var todo := locMap.Keys;
      while todo != {}
        invariant todo <= locMap.Keys && fixLocMap.Keys == locMap.Keys - todo
        invariant Listed(code)
        invariant forall l | l in fixLocMap :: Spans(code, l, fixLocMap[l])
        decreases todo
      {
        var l :| l in todo;
        var locs, blocks := GroupByBlock(locMap[l]);
        SpansFromGroup(code, l, locMap[l], locs, blocks);
        fixLocMap := fixLocMap[l := locs];
        todo := todo - {l};
      }
      forall l | l in fixLocMap ensures exists c :: c in code && c.At(l) {
        assert locMap[l][0] in locMap[l];
      }
    }

    /** `locMap` lists, for each location, its instructions in `code`. */
    ghost predicate Listed(code: seq<CodeInst>)
      reads this`locMap
    {
      && (forall c | c in code && c.loc != [] :: c.loc[0] in locMap && c in locMap[c.loc[0]])
      && (forall l | l in locMap :: locMap[l] != [] && forall c | c in locMap[l] :: c in code && c.At(l))
    }

    method InsertMapping(c: CodeInst)
      modifies this`locMap
      ensures c.loc == [] ==> locMap == old(locMap)
      ensures c.loc != [] ==>
                locMap == old(locMap)[c.loc[0] := (if c.loc[0] in old(locMap) then old(locMap)[c.loc[0]] else []) + [c]]
    {
      if c.loc != [] {
        var before := if c.loc[0] in locMap then locMap[c.loc[0]] else [];
        locMap := locMap[c.loc[0] := before + [c]];
      }
    }
  }

  /** `blocks` has, for each block, the smallest range with the given instructions. */
  ghost predicate Grouped(insts: seq<CodeInst>, blocks: map<nat, FixLoc>) {
    && (forall c | c in insts && !c.isDeclare :: c.inst.block in blocks && blocks[c.inst.block].Holds(c.inst))
    && (forall b {:trigger Ends(insts, b, blocks)} :: b in blocks ==> Ends(insts, b, blocks))
  }

  ghost predicate Among(insts: seq<CodeInst>, i: Inst) {
    exists c :: c in insts && !c.isDeclare && c.inst == i
  }

  ghost predicate Ends(insts: seq<CodeInst>, b: nat, blocks: map<nat, FixLoc>)
    requires b in blocks
  {
    var fl := blocks[b];
    && fl.first.block == b
    && fl.Holds(fl.first) && fl.Holds(fl.last)
    && Among(insts, fl.first) && Among(insts, fl.last)
  }

  function Widen(fl: FixLoc, i: Inst): FixLoc {
    FixLoc(if i.pos < fl.first.pos then i else fl.first, if fl.last.pos < i.pos then i else fl.last)
  }

  lemma GroupedStep(insts: seq<CodeInst>, blocks: map<nat, FixLoc>, c: CodeInst)
    requires Grouped(insts, blocks)
    ensures c.isDeclare ==> Grouped(insts + [c], blocks)
    ensures !c.isDeclare ==>
              var b := c.inst.block;
              Grouped(insts + [c], blocks[b := if b in blocks then Widen(blocks[b], c.inst)
                else FixLoc(c.inst, c.inst)])
  {
    var more := insts + [c];
    var b := c.inst.block;
    assert c in more;
    forall b | b in blocks ensures Ends(insts, b, blocks) && Ends(more, b, blocks) {
      assert Ends(insts, b, blocks);
    }
    if !c.isDeclare {
      var blocks' := blocks[b := if b in blocks then Widen(blocks[b], c.inst) else FixLoc(c.inst, c.inst)];
      forall b' | b' in blocks' ensures Ends(more, b', blocks') {
        assert b' in blocks ==> Ends(more, b', blocks);
      }
    }
  }

  /** First and last instruction of each block, over all instructions of a location. */
  method GroupByBlock(insts: seq<CodeInst>) returns (locs: seq<FixLoc>, ghost blocks: map<nat, FixLoc>)
    ensures Grouped(insts, blocks) && OnePerBlock(locs)
    ensures forall fl :: fl in locs <==> fl in blocks.Values
  {
    var ranges: map<nat, FixLoc> := map[];
    for k := 0 to |insts|
      invariant Grouped(insts[..k], ranges)
    {
      var c := insts[k];
      GroupedStep(insts[..k], ranges, c);
      assert insts[..k + 1] == insts[..k] + [c];
      if !c.isDeclare {
        var b := c.inst.block;
        var fl := if b in ranges then Widen(ranges[b], c.inst) else FixLoc(c.inst, c.inst);
        ranges := ranges[b := fl];
      }
    }
    assert insts[..|insts|] == insts;
    blocks := ranges;
    assert forall b | b in ranges :: ranges[b].first.block == b by {
      forall b | b in ranges ensures ranges[b].first.block == b {
        assert Ends(insts, b, ranges);
      }
    }
    locs := ListRanges(ranges);
  }

  method ListRanges(ranges: map<nat, FixLoc>) returns (locs: seq<FixLoc>)
    requires forall b | b in ranges :: ranges[b].first.block == b
    ensures OnePerBlock(locs)
    ensures forall fl :: fl in locs <==> fl in ranges.Values
  {
    locs := [];
    var todo := ranges.Keys;
    while todo != {}
      invariant todo <= ranges.Keys
      invariant forall fl ::
                  fl in locs <==>
                  fl.first.block in ranges && fl.first.block !in todo && ranges[fl.first.block] == fl
      invariant OnePerBlock(locs)
      decreases todo
    {
      var b :| b in todo;
      assert forall fl | fl in locs :: fl.first.block != b;
      locs := locs + [ranges[b]];
      todo := todo - {b};
    }
  }

  lemma SpansFromGroup(code: seq<CodeInst>, l: Location, insts: seq<CodeInst>, locs: seq<FixLoc>,
                       blocks: map<nat, FixLoc>)
    requires forall c :: c in insts <==> c in code && c.At(l)
    requires Grouped(insts, blocks) && OnePerBlock(locs)
    requires forall fl :: fl in locs <==> fl in blocks.Values
    ensures Spans(code, l, locs)
  {
    forall i | Fixable(code, l, i) ensures Held(locs, i) {
      var c :| c in code && c.At(l) && !c.isDeclare && c.inst == i;
      assert c in insts;
      assert blocks[i.block] in blocks.Values;
    }
    forall fl | fl in locs ensures Tight(code, l, fl) {
      var b :| b in blocks && blocks[b] == fl;
      assert Ends(insts, b, blocks);
    }
  }
}
