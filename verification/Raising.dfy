/**
 Where a fix goes: which call-stack frame takes it (src/BugFixer.cpp:594-853) and which additions to
 the fix map a bug leads to (src/BugFixer.cpp:248-317).
 */
module Raising {
  import opened Options
  import opened Traces
  import opened Mapping
  import opened Fixes

  /** What the fixer works on. `aliases` gives the numbers of volatile and of persistent-memory
      objects that the stores and calls of a location may touch; the alias analysis is not modelled. */
  datatype Env = Env(trace: seq<TraceEvent>,
                     fixLocs: map<Location, seq<FixLoc>>,
                     stores: set<Inst>,
                     functionOf: nat -> string,
                     immutableFns: set<string>,
                     aliases: Location -> (nat, nat),
                     heuristicRaising: bool,
                     disableRaising: bool)
  {
    predicate Mapped(l: Location) {
      l in fixLocs
    }

    /** All ranges of the location are in one function. */
    predicate OneFunction(l: Location)
      requires Mapped(l)
    {
      forall fl | fl in fixLocs[l] :: functionOf(fl.last.block) == functionOf(fixLocs[l][0].last.block)
    }

    predicate Immutable(l: Location)
      requires Mapped(l) && fixLocs[l] != []
    {
      functionOf(fixLocs[l][0].last.block) in immutableFns
    }
  }

  // ----- The heuristic frame --------------------------------------------------------------------

  datatype Score = Unmapped | NoAliases | Aliased(value: int)

  function ScoreOf(env: Env, l: Location): Score {
    if !env.Mapped(l) then Unmapped
    else
      var (vol, pm) := env.aliases(l);
      if vol == 0 && pm == 0 then NoAliases else Aliased(pm - vol)
  }

  /** No frame up to `i` is free of aliases, and frame `i` has a score. */
  predicate Candidate(scores: seq<Score>, i: int) {
    0 <= i < |scores| && scores[i].Aliased? && forall j | 0 <= j <= i :: !scores[j].NoAliases?
  }

  /** The first of the highest scores before the first alias-free frame. */
  predicate IsBest(scores: seq<Score>, i: int) {
    && Candidate(scores, i)
    && forall j | 0 <= j < |scores| && Candidate(scores, j) ::
         scores[j].value <= scores[i].value && (j < i ==> scores[j].value < scores[i].value)
  }

  ghost function BestFrame(scores: seq<Score>): int {
    if i :| IsBest(scores, i) then i else -1
  }

  method FindBestFrame(scores: seq<Score>) returns (maxIdx: int)
    ensures maxIdx == BestFrame(scores)
    ensures maxIdx != -1 <==> exists i :: Candidate(scores, i)
  {
    maxIdx := -1;
    var l := 0;
    while l < |scores|
      invariant 0 <= l <= |scores|
      invariant forall j | 0 <= j < l :: !scores[j].NoAliases?
      invariant maxIdx == -1 ==> forall j | 0 <= j < l :: !Candidate(scores, j)
      invariant maxIdx != -1 ==> 0 <= maxIdx < l && Candidate(scores, maxIdx)
      invariant maxIdx != -1 ==> forall j | 0 <= j < l && Candidate(scores, j) ::
                    scores[j].value <= scores[maxIdx].value && (j < maxIdx ==> scores[j].value < scores[maxIdx].value)
    {
      if scores[l].NoAliases? {
        break;
      }
      if scores[l].Aliased? && (maxIdx == -1 || scores[l].value > scores[maxIdx].value) {
        maxIdx := l;
      }
      l := l + 1;
    }
    assert maxIdx != -1 ==> IsBest(scores, maxIdx);
  }

  function Scores(env: Env, stack: seq<Location>): seq<Score> {
    seq(|stack|, i requires 0 <= i < |stack| => ScoreOf(env, stack[i]))
  }

  // ----- The frame that takes the fix -------------------------------------------------------------

  /** A frame the fix cannot stay in. A frame without a mapping is passed over only when the fix has
      no instruction of its own to start from. */
  predicate Skipped(env: Env, l: Location, located: bool) {
    if !env.Mapped(l) then !located
    else env.fixLocs[l] != [] && env.Immutable(l)
  }

  /** A frame at which the fixer gives up. */
  predicate FrameFails(env: Env, l: Location, located: bool) {
    if !env.Mapped(l) then located
    else env.fixLocs[l] == [] || !env.OneFunction(l)
  }

  datatype Landing = GivesUp | Lands(idx: nat, curr: Option<FixLoc>)

  /** Going up from frame `from`: the first frame that is not skipped, and the range of the last
      mapped frame seen. */
  function Land(env: Env, stack: seq<Location>, located: bool, from: nat, curr: Option<FixLoc>): Landing
    decreases |stack| - from
  {
    if from >= |stack| then Lands(from, curr)
    else if FrameFails(env, stack[from], located) then GivesUp
    else
      var curr' := if env.Mapped(stack[from]) then Some(env.fixLocs[stack[from]][0]) else curr;
      if Skipped(env, stack[from], located) then Land(env, stack, located, from + 1, curr')
      else Lands(from, curr')
  }

  ghost function HeuristicFrame(env: Env, stack: seq<Location>): int {
    if env.heuristicRaising then BestFrame(Scores(env, stack)) else 0
  }

  datatype Choice = Fails | Stays | RaisedTo(curr: FixLoc, idx: nat)

  ghost function ChooseFrame(env: Env, stack: seq<Location>, located: bool): Choice {
    var h := HeuristicFrame(env, stack);
    if stack == [] || h < 0 then Fails
    else
      match Land(env, stack, located, h, None)
      case GivesUp => Fails
      case Lands(idx, curr) =>
        if h == 0 && idx == 0 then Stays
        else if curr.None? then Fails
        else RaisedTo(curr.value, idx)
  }

  /** The least usable frame at or above the starting one, and only skipped frames before it. */
  lemma {:induction false} LandIsLeast(env: Env, stack: seq<Location>, located: bool, from: nat, curr: Option<FixLoc>)
    requires from <= |stack|
    ensures var r := Land(env, stack, located, from, curr);
            r.Lands? ==>
              && from <= r.idx <= |stack|
              && (forall i | from <= i < r.idx :: Skipped(env, stack[i], located))
              && (r.idx < |stack| ==> !Skipped(env, stack[r.idx], located) && !FrameFails(env, stack[r.idx], located))
              && ((r.curr == curr && forall i | from <= i <= r.idx && i < |stack| :: !env.Mapped(stack[i]))
                  || (r.curr.Some? && HasLastMapped(env, stack, from, r.idx, r.curr.value)))
              && (r.idx < |stack| && env.Mapped(stack[r.idx]) ==> r.curr == Some(env.fixLocs[stack[r.idx]][0]))
    decreases |stack| - from
  {
    if from < |stack| && !FrameFails(env, stack[from], located) {
      var curr' := if env.Mapped(stack[from]) then Some(env.fixLocs[stack[from]][0]) else curr;
      if Skipped(env, stack[from], located) {
        LandIsLeast(env, stack, located, from + 1, curr');
        var r := Land(env, stack, located, from + 1, curr');
        if r.Lands? {
          LastMappedNext(env, stack, located, from, curr, r);
        }
      } else if env.Mapped(stack[from]) {
        assert LastMapped(env, stack, from, from, from, env.fixLocs[stack[from]][0]);
      }
    }
  }

  /** Frame `i` is the last mapped one from `from` up to `to`, and `fl` the first range of its line. */
  predicate LastMapped(env: Env, stack: seq<Location>, from: nat, to: nat, i: int, fl: FixLoc) {
    && from <= i <= to && i < |stack| && IsFrontOf(env, stack[i], fl)
    && forall j | i < j <= to && j < |stack| :: !env.Mapped(stack[j])
  }

  ghost predicate HasLastMapped(env: Env, stack: seq<Location>, from: nat, to: nat, fl: FixLoc) {
    exists i :: LastMapped(env, stack, from, to, i, fl)
  }

  lemma LastMappedNext(env: Env, stack: seq<Location>, located: bool, from: nat, curr: Option<FixLoc>, r: Landing)
    requires from < |stack| && !FrameFails(env, stack[from], located) && r.Lands? && from < r.idx
    requires var curr' := if env.Mapped(stack[from]) then Some(env.fixLocs[stack[from]][0]) else curr;
             || (r.curr == curr' && forall i | from + 1 <= i <= r.idx && i < |stack| :: !env.Mapped(stack[i]))
             || (r.curr.Some? && HasLastMapped(env, stack, from + 1, r.idx, r.curr.value))
    ensures || (r.curr == curr && forall i | from <= i <= r.idx && i < |stack| :: !env.Mapped(stack[i]))
            || (r.curr.Some? && HasLastMapped(env, stack, from, r.idx, r.curr.value))
  {
    if r.curr.Some? {
      if HasLastMapped(env, stack, from + 1, r.idx, r.curr.value) {
        var above := from + 1;
        var i :| LastMapped(env, stack, above, r.idx, i, r.curr.value);
        assert LastMapped(env, stack, from, r.idx, i, r.curr.value);
      } else if env.Mapped(stack[from]) {
        assert LastMapped(env, stack, from, r.idx, from, r.curr.value);
      }
    }
  }

  // ----- When there is a frame ----------------------------------------------------------------------------

  /** Among the candidates below `n` there is a best one, if there is any. */
  lemma {:induction false} BestBelow(scores: seq<Score>, n: nat) returns (best: int)
    requires n <= |scores|
    ensures best == -1 ==> forall j | 0 <= j < n :: !Candidate(scores, j)
    ensures best != -1 ==>
              && 0 <= best < n && Candidate(scores, best)
              && forall j | 0 <= j < n && Candidate(scores, j) ::
                   scores[j].value <= scores[best].value && (j < best ==> scores[j].value < scores[best].value)
  {
    if n == 0 {
      best := -1;
    } else {
      best := BestBelow(scores, n - 1);
      if Candidate(scores, n - 1) && (best == -1 || scores[best].value < scores[n - 1].value) {
        best := n - 1;
      }
    }
  }

  lemma BestFrameExists(scores: seq<Score>)
    ensures BestFrame(scores) >= 0 <==> exists i :: Candidate(scores, i)
    ensures BestFrame(scores) >= 0 ==> IsBest(scores, BestFrame(scores))
    ensures BestFrame(scores) >= -1
  {
    var best := BestBelow(scores, |scores|);
    if best != -1 {
      assert IsBest(scores, best);
    }
    if i :| Candidate(scores, i) {
      assert best != -1;
    }
  }

  predicate PassedOver(env: Env, l: Location, located: bool) {
    Skipped(env, l, located) && !FrameFails(env, l, located)
  }

  /** A frame that can take the fix. */
  predicate Usable(env: Env, l: Location) {
    env.Mapped(l) && env.fixLocs[l] != [] && env.OneFunction(l) && !env.Immutable(l)
  }

  /** No frame has a score before the first alias-free one. */
  ghost predicate NoScoredFrame(env: Env, stack: seq<Location>) {
    env.heuristicRaising && !exists i :: Candidate(Scores(env, stack), i)
  }

  /** Going up from frame `from`, a frame at which the fixer gives up comes before any that stops it. */
  ghost predicate FailsGoingUp(env: Env, stack: seq<Location>, located: bool, from: nat) {
    exists i :: from <= i < |stack| && FrameFails(env, stack[i], located) &&
      forall j | from <= j < i :: PassedOver(env, stack[j], located)
  }

  /** From frame `from` on, nothing is mapped and nothing stops the fixer. */
  predicate NothingMapped(env: Env, stack: seq<Location>, located: bool, from: nat) {
    forall i | from <= i < |stack| :: PassedOver(env, stack[i], located) && !env.Mapped(stack[i])
  }

  lemma {:induction false} LandFailsIff(env: Env, stack: seq<Location>, located: bool, from: nat, curr: Option<FixLoc>)
    requires from <= |stack|
    ensures var r := Land(env, stack, located, from, curr);
            && (r.GivesUp? <==> FailsGoingUp(env, stack, located, from))
            && (r.Lands? && r.curr.None? <==> curr.None? && NothingMapped(env, stack, located, from))
    decreases |stack| - from
  {
    hide Env.OneFunction, Env.Immutable;
    if from < |stack| {
      var l := stack[from];
      if FrameFails(env, l, located) {
        assert FailsGoingUp(env, stack, located, from);
      } else {
        var curr' := if env.Mapped(l) then Some(env.fixLocs[l][0]) else curr;
        if Skipped(env, l, located) {
          LandFailsIff(env, stack, located, from + 1, curr');
          FailsGoingUpNext(env, stack, located, from);
        } else {
          FailsGoingUpNext(env, stack, located, from);
        }
      }
    }
  }

  lemma FailsGoingUpNext(env: Env, stack: seq<Location>, located: bool, from: nat)
    requires from < |stack| && !FrameFails(env, stack[from], located)
    ensures FailsGoingUp(env, stack, located, from)
            <==> PassedOver(env, stack[from], located) && FailsGoingUp(env, stack, located, from + 1)
  {
    hide FrameFails, Skipped;
    if FailsGoingUp(env, stack, located, from) {
      var i :| from <= i < |stack| && FrameFails(env, stack[i], located) &&
               forall j | from <= j < i :: PassedOver(env, stack[j], located);
      assert i != from;
      assert FailsGoingUp(env, stack, located, from + 1);
    }
    if PassedOver(env, stack[from], located) && FailsGoingUp(env, stack, located, from + 1) {
      var i :| from + 1 <= i < |stack| && FrameFails(env, stack[i], located) &&
               forall j | from + 1 <= j < i :: PassedOver(env, stack[j], located);
      assert forall j | from <= j < i :: PassedOver(env, stack[j], located);
    }
  }

  /** Exactly when no frame can take a fix: no frame has a score, or the fixer gives up at a frame on its way
      up, or there is no mapped frame to take it. */
  lemma ChooseFailsIff(env: Env, stack: seq<Location>, located: bool)
    ensures ChooseFrame(env, stack, located).Fails? <==>
              || NoScoredFrame(env, stack)
              || FailsGoingUp(env, stack, located, FirstFrame(env, stack))
              || NothingMapped(env, stack, located, FirstFrame(env, stack))
  {
    hide FailsGoingUp, NothingMapped, BestFrame, Candidate, IsBest;
    var h := HeuristicFrame(env, stack);
    if env.heuristicRaising {
      BestFrameExists(Scores(env, stack));
    }
    if stack == [] {
      NothingMappedInNothing(env, located, FirstFrame(env, stack));
    } else if h >= 0 {
      FirstFrameInStack(env, stack);
      LandFailsIff(env, stack, located, h, None);
      LandIsLeast(env, stack, located, h, None);
      LandsMapped(env, stack, located);
    }
  }

  /** The same in terms of the mapping, the immutable functions and the aliases alone: no mapped frame has a score
      before the first alias-free one; or going up from the first frame, over lines that are only in functions that
      must not be changed and, for a fix without an instruction, over unmapped ones, the fixer comes to a line that has
      no range, that has ranges in two functions, or that is unmapped although the fix has an instruction; or nothing
      is mapped from there on. */
  lemma RaisingFailsIff(env: Env, desc: FixDesc, located: bool)
    ensures var stack, h := desc.dynStack, FirstFrame(env, desc.dynStack);
            RaiseAdds(env, desc, located).None? <==>
              || (env.heuristicRaising && forall i | 0 <= i < |stack| && stack[i] in env.fixLocs ::
                    !AliasedUpTo(env, stack, i))
              || (exists i :: h <= i < |stack| && Blocks(env, stack[i], located) &&
                    forall j | h <= j < i :: LetsPass(env, stack[j], located))
              || (!located && forall i | h <= i < |stack| :: stack[i] !in env.fixLocs)
              || |stack| <= h
  {
    hide FrameFails, Skipped, Blocks, LetsPass, ChooseFrame, AliasedUpTo;
    var stack, h := desc.dynStack, FirstFrame(env, desc.dynStack);
    ChooseFailsIff(env, stack, located);
    if env.heuristicRaising {
      NoHeuristicFrameIff(env, stack);
      BestFrameExists(Scores(env, stack));
    }
    forall l ensures FrameFails(env, l, located) <==> Blocks(env, l, located) {
      BlocksIff(env, l, located);
    }
    forall l ensures PassedOver(env, l, located) <==> LetsPass(env, l, located) {
      LetsPassIff(env, l, located);
    }
    NothingMappedIff(env, stack, located, h);
  }

  /** A line at which going up ends with a failure. */
  predicate Blocks(env: Env, l: Location, located: bool) {
    if l !in env.fixLocs then located
    else
      || env.fixLocs[l] == []
      || exists x, y :: x in env.fixLocs[l] && y in env.fixLocs[l]
                        && env.functionOf(x.last.block) != env.functionOf(y.last.block)
  }

  /** A line over which it goes on. */
  predicate LetsPass(env: Env, l: Location, located: bool) {
    if l !in env.fixLocs then !located
    else env.fixLocs[l] != [] && forall x | x in env.fixLocs[l] ::
      && env.functionOf(x.last.block) in env.immutableFns
      && env.functionOf(x.last.block) == env.functionOf(env.fixLocs[l][0].last.block)
  }

  lemma BlocksIff(env: Env, l: Location, located: bool)
    ensures FrameFails(env, l, located) <==> Blocks(env, l, located)
  {
    if env.Mapped(l) && env.fixLocs[l] != [] && !env.OneFunction(l) {
      var x :| x in env.fixLocs[l] && env.functionOf(x.last.block) != env.functionOf(env.fixLocs[l][0].last.block);
      assert env.fixLocs[l][0] in env.fixLocs[l];
    }
  }

  lemma LetsPassIff(env: Env, l: Location, located: bool)
    ensures PassedOver(env, l, located) <==> LetsPass(env, l, located)
  {
    if env.Mapped(l) && env.fixLocs[l] != [] {
      assert env.fixLocs[l][0] in env.fixLocs[l];
    }
  }

  lemma NothingMappedIff(env: Env, stack: seq<Location>, located: bool, from: nat)
    ensures NothingMapped(env, stack, located, from)
            <==> |stack| <= from || (!located && forall i | from <= i < |stack| :: stack[i] !in env.fixLocs)
  {
    if from < |stack| && NothingMapped(env, stack, located, from) {
      assert PassedOver(env, stack[from], located);
    }
  }

  // ----- What the scores mean -----------------------------------------------------------------------------

  /** No mapped frame up to `i` is without aliases. */
  predicate AliasedUpTo(env: Env, stack: seq<Location>, i: int) {
    forall j | 0 <= j <= i && j < |stack| && env.Mapped(stack[j]) :: env.aliases(stack[j]) != (0, 0)
  }

  lemma ScoresMean(env: Env, stack: seq<Location>, i: int)
    ensures var s := Scores(env, stack);
            && (Candidate(s, i) <==> 0 <= i < |stack| && env.Mapped(stack[i]) && AliasedUpTo(env, stack, i))
            && (Candidate(s, i) ==> s[i].value == env.aliases(stack[i]).1 - env.aliases(stack[i]).0)
  {
    var s := Scores(env, stack);
    if Candidate(s, i) {
      assert s[i].Aliased?;
      forall j | 0 <= j <= i && j < |stack| && env.Mapped(stack[j]) ensures env.aliases(stack[j]) != (0, 0) {
        assert !s[j].NoAliases?;
      }
    }
    if 0 <= i < |stack| && env.Mapped(stack[i]) && AliasedUpTo(env, stack, i) {
      forall j | 0 <= j <= i ensures !s[j].NoAliases? {
      }
    }
  }

  /** The frame that the heuristic picks, from the numbers of volatile and persistent objects of the lines alone: a
      mapped one, before the first mapped one without any, at which the persistent ones outnumber the volatile
      ones the most, and the lowest such frame. */
  lemma HeuristicFrameIff(env: Env, stack: seq<Location>, h: int)
    requires env.heuristicRaising
    ensures 0 <= h && HeuristicFrame(env, stack) == h <==>
              && 0 <= h < |stack| && env.Mapped(stack[h]) && AliasedUpTo(env, stack, h)
              && forall j | 0 <= j < |stack| && env.Mapped(stack[j]) && AliasedUpTo(env, stack, j) ::
                   && env.aliases(stack[j]).1 - env.aliases(stack[j]).0
                      <= env.aliases(stack[h]).1 - env.aliases(stack[h]).0
                   && (j < h ==> env.aliases(stack[j]).1 - env.aliases(stack[j]).0
                                 < env.aliases(stack[h]).1 - env.aliases(stack[h]).0)
  {
    hide AliasedUpTo, Scores, Candidate, BestFrame;
    var s := Scores(env, stack);
    forall j
      ensures Candidate(s, j) <==> 0 <= j < |stack| && env.Mapped(stack[j]) && AliasedUpTo(env, stack, j)
      ensures Candidate(s, j) ==> 0 <= j < |s| && s[j].Aliased?
      ensures Candidate(s, j) ==> s[j].value == env.aliases(stack[j]).1 - env.aliases(stack[j]).0
    {
      ScoresMean(env, stack, j);
      if Candidate(s, j) {
        CandidateScored(s, j);
      }
    }
    BestFrameExists(s);
    if IsBest(s, h) {
      assert Candidate(s, h) && IsBest(s, BestFrame(s)) && Candidate(s, BestFrame(s));
    }
    assert |s| == |stack| by {
      ScoresLength(env, stack);
    }
  }

  lemma CandidateScored(scores: seq<Score>, i: int)
    requires Candidate(scores, i)
    ensures 0 <= i < |scores| && scores[i].Aliased?
  {
  }

  lemma ScoresLength(env: Env, stack: seq<Location>)
    ensures |Scores(env, stack)| == |stack|
  {
  }

  /** It picks none if every mapped frame comes behind, or is, one without any. */
  lemma NoHeuristicFrameIff(env: Env, stack: seq<Location>)
    requires env.heuristicRaising
    ensures HeuristicFrame(env, stack) < 0 <==>
              forall i | 0 <= i < |stack| && env.Mapped(stack[i]) :: !AliasedUpTo(env, stack, i)
  {
    hide AliasedUpTo, Scores, Candidate;
    BestFrameExists(Scores(env, stack));
    forall i ensures Candidate(Scores(env, stack), i)
                     <==> 0 <= i < |stack| && env.Mapped(stack[i]) && AliasedUpTo(env, stack, i) {
      ScoresMean(env, stack, i);
    }
  }

  /** The frame at which the fixer starts. */
  ghost function FirstFrame(env: Env, stack: seq<Location>): nat {
    var h := HeuristicFrame(env, stack);
    if h < 0 then 0 else h
  }

  lemma FirstFrameInStack(env: Env, stack: seq<Location>)
    requires stack != [] && HeuristicFrame(env, stack) >= 0
    ensures HeuristicFrame(env, stack) < |stack|
  {
    if env.heuristicRaising {
      BestFrameExists(Scores(env, stack));
    }
  }

  lemma NothingMappedInNothing(env: Env, located: bool, from: nat)
    ensures NothingMapped(env, [], located, from)
  {
  }

  /** A fix that stays where it is has a mapped line there. */
  lemma LandsMapped(env: Env, stack: seq<Location>, located: bool)
    requires stack != []
    ensures Land(env, stack, located, 0, None) != Lands(0, None)
  {
    LandIsLeast(env, stack, located, 0, None);
  }

  /** With a scored frame before the first alias-free one, and a usable frame at or above the best of these
      with none in between at which the fixer gives up, some frame takes the fix. */
  lemma UsableFrameTakes(env: Env, stack: seq<Location>, located: bool, i: nat)
    requires env.heuristicRaising ==> exists c :: Candidate(Scores(env, stack), c)
    requires FirstFrame(env, stack) <= i < |stack| && Usable(env, stack[i])
    requires forall j | FirstFrame(env, stack) <= j < i :: !FrameFails(env, stack[j], located)
    ensures !ChooseFrame(env, stack, located).Fails?
  {
    hide FirstFrame, Candidate;
    ChooseFailsIff(env, stack, located);
    assert !FrameFails(env, stack[i], located) && !PassedOver(env, stack[i], located);
  }

  /** Where a fix is put when some frame takes it: the least usable frame at or above the best scored one,
      with only frames in between that are immutable or, for a fix without an instruction, unmapped; or,
      if there is no usable frame, the range of the last mapped one. */
  lemma FrameChoice(env: Env, stack: seq<Location>, located: bool)
    requires ChooseFrame(env, stack, located).RaisedTo?
    ensures var c, h := ChooseFrame(env, stack, located), HeuristicFrame(env, stack);
            && 0 <= h <= c.idx <= |stack| && 0 < c.idx
            && (env.heuristicRaising ==> IsBest(Scores(env, stack), h))
            && (forall i | h <= i < c.idx :: Skipped(env, stack[i], located))
            && (c.idx < |stack| ==>
                  && !Skipped(env, stack[c.idx], located)
                  && env.Mapped(stack[c.idx]) && env.fixLocs[stack[c.idx]] != []
                  && !env.Immutable(stack[c.idx])
                  && c.curr == env.fixLocs[stack[c.idx]][0])
            && HasLastMapped(env, stack, h, c.idx, c.curr)
            && (exists l :: l in stack && IsFrontOf(env, l, c.curr))
  {
    var h := HeuristicFrame(env, stack);
    if env.heuristicRaising {
      assert IsBest(Scores(env, stack), h);
    }
    LandIsLeast(env, stack, located, h, None);
    var r := Land(env, stack, located, h, None);
    var i :| LastMapped(env, stack, h, r.idx, i, r.curr.value);
    assert IsFrontOf(env, stack[i], ChooseFrame(env, stack, located).curr);
  }

  /** `fl` is where a fix is put when it is raised to frame `i`: a caller, or the only frame of a stack, in
      a function that must not be changed. */
  predicate LandsAt(env: Env, stack: seq<Location>, i: int, fl: FixLoc) {
    && 0 <= i < |stack| && IsFrontOf(env, stack[i], fl)
    && (0 < i || (|stack| == 1 && env.Immutable(stack[0])))
  }

  /** A raised fix goes to a caller, unless its stack has one frame only. */
  lemma RaisedToCaller(env: Env, stack: seq<Location>, located: bool)
    requires ChooseFrame(env, stack, located).RaisedTo? && (located || !env.Mapped(stack[0]))
    ensures exists i :: LandsAt(env, stack, i, ChooseFrame(env, stack, located).curr)
  {
    FrameChoice(env, stack, located);
    var c, h := ChooseFrame(env, stack, located), HeuristicFrame(env, stack);
    var secondMapped := 1 < |stack| && env.Mapped(stack[1]);
    var i :| LastMapped(env, stack, h, c.idx, i, c.curr);
    assert i == 0 ==> Skipped(env, stack[0], located);
    assert LandsAt(env, stack, i, c.curr);
  }

  /** Some store or flush of the trace has this call stack. */
  ghost predicate FromTrace(env: Env, stack: seq<Location>) {
    exists e :: e in env.trace && (e.kind.Store? || e.kind.Flush?) && e.callstack == stack
  }

  /** A place that fixes of the trace can be raised to. */
  ghost predicate CallSite(env: Env, fl: FixLoc) {
    exists stack, i :: FromTrace(env, stack) && LandsAt(env, stack, i, fl)
  }

  predicate IsFrontOf(env: Env, l: Location, fl: FixLoc) {
    env.Mapped(l) && env.fixLocs[l] != [] && fl == env.fixLocs[l][0]
  }

  /** `fl` can be the place of a raised fix. */
  ghost predicate IsFront(env: Env, fl: FixLoc) {
    exists l :: IsFrontOf(env, l, fl)
  }

  // ----- The additions of a bug -------------------------------------------------------------------

  function RaisedKind(kind: FixType): FixType {
    if kind.AddFlushOnly? then AddPersistCallstackOptNoFence else AddPersistCallstackOpt
  }

  /** What raising a fix adds to the map: nothing, or one entry at the chosen frame. */
  ghost function RaiseAdds(env: Env, desc: FixDesc, located: bool): Option<seq<Add>> {
    match ChooseFrame(env, desc.dynStack, located)
    case Fails => None
    case Stays => Some([])
    case RaisedTo(curr, idx) => Some([Add(curr, Desc(RaisedKind(desc.kind), desc.dynStack, idx))])
  }

  /** A raised entry stands at the line of its own frame, above the lowest one; step 3 goes up to this frame. */
  lemma RaisedEntryTop(env: Env, desc: FixDesc, located: bool)
    requires RaiseAdds(env, desc, located).Some? && RaiseAdds(env, desc, located).value != []
    ensures var a := RaiseAdds(env, desc, located).value[0];
            && 0 < a.desc.stackIdx <= |a.desc.dynStack| && a.desc.dynStack == desc.dynStack
            && (a.desc.stackIdx < |a.desc.dynStack| ==> IsFrontOf(env, a.desc.dynStack[a.desc.stackIdx], a.loc))
  {
    FrameChoice(env, desc.dynStack, located);
  }

  function KindFor(missingFlush: bool, missingFence: bool): FixType {
    if missingFlush && missingFence then AddFlushAndFence
    else if missingFlush then AddFlushOnly
    else if missingFence then AddFenceOnly
    else NoFix
  }

  function StoreAdds(env: Env, insts: seq<Inst>, desc: FixDesc): seq<Add> {
    if insts == [] then []
    else
      var i := insts[|insts| - 1];
      StoreAdds(env, insts[..|insts| - 1], desc) + if i in env.stores then [Add(FixLoc(i, i), desc)] else []
  }

  function RangeAdds(env: Env, locs: seq<FixLoc>, desc: FixDesc): seq<Add> {
    if locs == [] then []
    else RangeAdds(env, locs[..|locs| - 1], desc) + StoreAdds(env, locs[|locs| - 1].Insts(), desc)
  }

  /** The additions for one operation that needs fixing. */
  ghost function EventAdds(env: Env, e: TraceEvent, kind: FixType): Option<seq<Add>>
    requires e.callstack != [] && (e.kind.Store? || e.kind.Flush?)
  {
    var l := e.callstack[0];
    var desc := Desc(kind, e.callstack, 0);
    if !env.Mapped(l) then RaiseAdds(env, desc, false)
    else
      var adds := RangeAdds(env, env.fixLocs[l], desc);
      if env.fixLocs[l] == [] || (adds != [] && !e.kind.range.IsSingleCacheLine()) then None else Some(adds)
  }

  /** Events as the scan collects them: stores and flushes, with their call stacks. */
  predicate Found(events: seq<TraceEvent>) {
    forall k | 0 <= k < |events| :: events[k].callstack != [] && (events[k].kind.Store? || events[k].kind.Flush?)
  }

  ghost function EventsAdds(env: Env, events: seq<TraceEvent>, kind: FixType): Option<seq<Add>>
    requires Found(events)
  {
    if events == [] then Some([])
    else
      var before := EventsAdds(env, events[..|events| - 1], kind);
      var here := EventAdds(env, events[|events| - 1], kind);
      if before.None? || here.None? then None else Some(before.value + here.value)
  }

  /** Where a store of the location is fixed directly. */
  lemma {:induction false} StoreAddsMeaning(env: Env, insts: seq<Inst>, desc: FixDesc, a: Add)
    ensures a in StoreAdds(env, insts, desc)
            <==> a.desc == desc && a.loc.first == a.loc.last && a.loc.first in insts && a.loc.first in env.stores
  {
    if insts != [] {
      var front, i := insts[..|insts| - 1], insts[|insts| - 1];
      assert insts == front + [i];
      StoreAddsMeaning(env, front, desc, a);
      assert i in env.stores ==> (a in [Add(FixLoc(i, i), desc)] <==> a == Add(FixLoc(i, i), desc));
    }
  }

  ghost predicate StoreOf(env: Env, locs: seq<FixLoc>, i: Inst) {
    i in env.stores && exists fl :: fl in locs && fl.Holds(i)
  }

  /** The additions for a location are one for each store in one of its ranges. */
  lemma {:induction false} RangeAddsMeaning(env: Env, locs: seq<FixLoc>, desc: FixDesc, a: Add)
    ensures a in RangeAdds(env, locs, desc)
            <==> a.desc == desc && a.loc.first == a.loc.last && StoreOf(env, locs, a.loc.first)
  {
    if locs != [] {
      var front, fl := locs[..|locs| - 1], locs[|locs| - 1];
      assert locs == front + [fl];
      RangeAddsMeaning(env, front, desc, a);
      StoreAddsMeaning(env, fl.Insts(), desc, a);
      fl.InstsAreHeld(a.loc.first);
      if a.desc == desc && a.loc.first == a.loc.last && StoreOf(env, locs, a.loc.first) {
        var x :| x in locs && x.Holds(a.loc.first);
        assert x in front || x == fl;
      }
    }
  }

  /** Where its line is mapped, a fix of an operation fails exactly if the line has no range, or if it has a store while
      the operation spans more than one cache line. */
  lemma OperationFailsIff(env: Env, e: TraceEvent, kind: FixType)
    requires e.callstack != [] && (e.kind.Store? || e.kind.Flush?) && e.callstack[0] in env.fixLocs
    ensures EventAdds(env, e, kind).None? <==>
              || env.fixLocs[e.callstack[0]] == []
              || ((exists i :: StoreOf(env, env.fixLocs[e.callstack[0]], i)) && !e.kind.range.IsSingleCacheLine())
  {
    hide RangeAdds, StoreOf;
    var locs, desc := env.fixLocs[e.callstack[0]], Desc(kind, e.callstack, 0);
    var adds := RangeAdds(env, locs, desc);
    if adds != [] {
      assert adds[0] in adds;
      RangeAddsMeaning(env, locs, desc, adds[0]);
    }
    if i :| StoreOf(env, locs, i) {
      RangeAddsMeaning(env, locs, desc, Add(FixLoc(i, i), desc));
    }
  }
}
