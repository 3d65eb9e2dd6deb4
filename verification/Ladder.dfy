/**
 The rebalance planner (crates/rfq-maker/src/rebalance.rs:96-184): which rungs of a ladder are missing, and
 which to carve from the fattest piece or from a swap's change.
 */
module Ladder {
  import opened Options
  import opened Ordering
  import opened Matching
  import opened Store
  import opened Coins

  /** A ladder by its rungs, each at least `minPiece` and positive. How the rungs follow from base, ratio and
      tiers is floating-point arithmetic and left out. */
  datatype LadderSpec = LadderSpec(targets: seq<nat>, minPiece: nat) {
    ghost predicate Valid() {
      forall x :: x in targets ==> Reserve() <= x < U64_RANGE
    }

    /** What a carved piece must keep. */
    function Reserve(): (r: nat)
      ensures r >= 1 && r >= minPiece && (r == 1 || r == minPiece)
    {
      if minPiece < 1 then 1 else minPiece
    }
  }

  /** One source, by its position, and the rungs to carve from it. */
  datatype Split = Split(index: nat, rungs: seq<nat>)

  lemma CoveredStep(pieces: seq<nat>, targets: seq<nat>, pi: nat, i: nat)
    requires pi <= |pieces| && i < |targets|
    ensures Covered(pieces[pi..], targets[i..]) ==
      if pi == |pieces| then 0
      else if pieces[pi] < targets[i] then Covered(pieces[pi + 1..], targets[i..])
      else 1 + Covered(pieces[pi + 1..], targets[i + 1..])
  {
    assert targets[i..][1..] == targets[i + 1..];
    if pi < |pieces| {
      assert pieces[pi..][1..] == pieces[pi + 1..];
    }
  }

  /** Targets left uncovered: take the targets smallest first and give each the first piece, smallest first,
      that is large enough. */
  method LadderDeficit(available: seq<nat>, targets: seq<nat>) returns (deficit: seq<nat>)
    ensures deficit == Deficit(available, targets)
  {
    var pieces, tgts := Sort(Le, available), Sort(Le, targets);
    deficit := [];
    var pi := 0;
    assert pieces[0..] == pieces && tgts[0..] == tgts;
    ghost var covered := 0;
    for i := 0 to |tgts|
      invariant 0 <= pi <= |pieces| && covered <= i && (covered < i ==> pi == |pieces|)
      invariant Covered(pieces, tgts) == covered + Covered(pieces[pi..], tgts[i..])
      invariant deficit == tgts[covered..i]
    {
      pi := NextPiece(pieces, tgts, pi, i);
      CoveredStep(pieces, tgts, pi, i);
      if pi < |pieces| {
        pi, covered := pi + 1, covered + 1;
      } else {
        deficit := deficit + [tgts[i]];
      }
    }
  }

  /** The first piece from `pi` on that covers the target, or the end. */
  method NextPiece(pieces: seq<nat>, targets: seq<nat>, pi: nat, i: nat) returns (next: nat)
    requires pi <= |pieces| && i < |targets|
    ensures pi <= next <= |pieces| && (next < |pieces| ==> pieces[next] >= targets[i])
    ensures Covered(pieces[next..], targets[i..]) == Covered(pieces[pi..], targets[i..])
  {
    next := pi;
    while next < |pieces| && pieces[next] < targets[i]
      invariant pi <= next <= |pieces|
      invariant Covered(pieces[next..], targets[i..]) == Covered(pieces[pi..], targets[i..])
    {
      CoveredStep(pieces, targets, next, i);
      next := next + 1;
    }
  }

  predicate Ge(a: nat, b: nat) {
    a >= b
  }

  lemma GeTotal()
    ensures IsTotal(Ge)
  {
  }

  ghost predicate AllU64(s: seq<nat>) {
    forall i :: 0 <= i < |s| ==> s[i] < U64_RANGE
  }

  /** The rungs that are carved: each in turn that still fits and leaves the reserve. */
  function Carved(rungs: seq<nat>, remaining: nat, reserve: nat): seq<nat>
    requires AllU64(rungs)
  {
    if |rungs| == 0 then []
    else if remaining >= SaturatingAdd(rungs[0], reserve) then
      [rungs[0]] + Carved(rungs[1..], remaining - rungs[0], reserve)
    else Carved(rungs[1..], remaining, reserve)
  }

  method Carve(rungs: seq<nat>, source: nat, reserve: nat) returns (carved: seq<nat>)
    requires AllU64(rungs)
    ensures carved == Carved(rungs, source, reserve)
  {
    carved := [];
    var remaining: nat := source;
    assert rungs[0..] == rungs && [] + Carved(rungs, source, reserve) == Carved(rungs, source, reserve);
    for i := 0 to |rungs|
      invariant Carved(rungs, source, reserve) == carved + Carved(rungs[i..], remaining, reserve)
    {
      assert rungs[i..][1..] == rungs[i + 1..];
      if remaining >= SaturatingAdd(rungs[i], reserve) {
        assert carved + ([rungs[i]] + Carved(rungs[i + 1..], remaining - rungs[i], reserve))
            == (carved + [rungs[i]]) + Carved(rungs[i + 1..], remaining - rungs[i], reserve);
        carved := carved + [rungs[i]];
        remaining := remaining - rungs[i];
      }
    }
  }

  /** The position of the largest value, the last one of several. */
  function LastMax(values: seq<nat>): (i: nat)
    requires |values| > 0
    ensures i < |values|
    ensures forall j :: 0 <= j < |values| ==> values[j] <= values[i]
    ensures forall j :: i < j < |values| ==> values[j] < values[i]
  {
    if |values| == 1 then 0
    else
      var before := LastMax(values[..|values| - 1]);
      if values[|values| - 1] >= values[before] then |values| - 1 else before
  }

  /** The missing rungs, largest first. */
  function Missing(values: seq<nat>, spec: LadderSpec): (m: seq<nat>)
    requires spec.Valid()
    ensures AllU64(m)
  {
    DeficitWithin(values, spec.targets);
    Sort(Ge, Deficit(values, spec.targets))
  }

  /** The split planned for these values. */
  function Plan(values: seq<nat>, spec: LadderSpec): (r: Option<Split>)
    requires spec.Valid()
    ensures r.Some? ==> r.value.index < |values|
  {
    if |Missing(values, spec)| == 0 || |values| == 0 then None
    else
      var source := LastMax(values);
      var rungs := Carved(Missing(values, spec), values[source], spec.Reserve());
      if |rungs| == 0 then None else Some(Split(source, rungs))
  }

  function Values(available: seq<(Outpoint, nat)>): (v: seq<nat>)
    ensures |v| == |available|
    ensures forall i :: 0 <= i < |v| ==> v[i] == available[i].1
  {
    seq(|available|, i requires 0 <= i < |available| => available[i].1)
  }

  method PlanLadder(available: seq<(Outpoint, nat)>, spec: LadderSpec) returns (r: Option<(Outpoint, nat, seq<nat>)>)
    requires spec.Valid()
    ensures r == match Plan(Values(available), spec)
      case None => None
      case Some(split) => Some((available[split.index].0, available[split.index].1, split.rungs))
  {
    if |spec.targets| == 0 {
      return None;
    }
    var values := Values(available);
    var deficit := LadderDeficit(values, spec.targets);
    DeficitWithin(values, spec.targets);
    if |deficit| == 0 || |available| == 0 {
      return None;
    }
    var source := available[LastMax(values)];
    var rungs := Carve(Sort(Ge, deficit), source.1, spec.Reserve());
    if |rungs| == 0 {
      return None;
    }
    r := Some((source.0, source.1, rungs));
  }

  /** Deficit rungs are targets, in either order. */
  lemma DeficitWithin(values: seq<nat>, targets: seq<nat>)
    ensures multiset(Sort(Ge, Deficit(values, targets))) == multiset(Deficit(values, targets)) <= multiset(targets)
    ensures |Sort(Ge, Deficit(values, targets))| == |Deficit(values, targets)|
    ensures forall i :: 0 <= i < |Deficit(values, targets)| ==> Sort(Ge, Deficit(values, targets))[i] in targets
    ensures |targets| == 0 ==> |Deficit(values, targets)| == 0
  {
    GeTotal();
    SortSorts(Ge, Deficit(values, targets));
    var p := DeficitMeaning(values, targets, [], []);
    var missing := Sort(Ge, Deficit(values, targets));
    forall i | 0 <= i < |missing|
      ensures missing[i] in targets
    {
      assert missing[i] in multiset(missing) && missing[i] in multiset(targets);
    }
  }

  /** The rungs a swap's change is split into. */
  function ChangeRungs(available: seq<nat>, change: nat, spec: LadderSpec): seq<nat>
    requires spec.Valid()
  {
    if |spec.targets| == 0 || change == 0 then [] else Carved(Missing(available, spec), change, spec.Reserve())
  }

  method PlanChangeRungs(available: seq<nat>, change: nat, spec: LadderSpec) returns (rungs: seq<nat>)
    requires spec.Valid()
    ensures rungs == ChangeRungs(available, change, spec)
  {
    if |spec.targets| == 0 || change == 0 {
      return [];
    }
    var deficit := LadderDeficit(available, spec.targets);
    DeficitWithin(available, spec.targets);
    rungs := Carve(Sort(Ge, deficit), change, spec.Reserve());
  }
}
