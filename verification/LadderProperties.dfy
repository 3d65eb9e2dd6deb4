/** What repeated planning achieves: value is conserved, coverage never worsens, and planning comes to rest. */
module LadderProperties {
  import opened Options
  import opened Ordering
  import opened Matching
  import opened Store
  import opened Coins
  import opened Ladder

  /** Carved rungs are missing ones. */
  lemma {:induction false} CarvedWithin(rungs: seq<nat>, source: nat, reserve: nat)
    requires AllU64(rungs)
    ensures multiset(Carved(rungs, source, reserve)) <= multiset(rungs)
  {
    if |rungs| > 0 {
      FirstApart(rungs);
      if source >= SaturatingAdd(rungs[0], reserve) {
        CarvedWithin(rungs[1..], source - rungs[0], reserve);
      } else {
        CarvedWithin(rungs[1..], source, reserve);
      }
    }
  }

  /** Carving leaves the source its reserve, and carves something if anything fits. */
  lemma {:induction false} CarvedLeaves(rungs: seq<nat>, source: nat, reserve: nat)
    requires AllU64(rungs) && source < U64_RANGE - 1
    ensures |Carved(rungs, source, reserve)| > 0 ==> Total(Carved(rungs, source, reserve)) + reserve <= source
    ensures |Carved(rungs, source, reserve)| == 0 <==> forall i :: 0 <= i < |rungs| ==> rungs[i] + reserve > source
  {
    if |rungs| > 0 {
      if source >= SaturatingAdd(rungs[0], reserve) {
        var rest := Carved(rungs[1..], source - rungs[0], reserve);
        CarvedLeaves(rungs[1..], source - rungs[0], reserve);
        assert ([rungs[0]] + rest)[1..] == rest;
      } else {
        CarvedLeaves(rungs[1..], source, reserve);
        assert forall i :: 1 <= i < |rungs| ==> rungs[i] == rungs[1..][i - 1];
      }
    }
  }

  /** Every missing rung has its turn, largest first, and is carved exactly if what the ones before it left of the
      source still holds it and the reserve (added up to no more than 64 bits hold). */
  lemma {:induction false} CarvedInTurn(rungs: seq<nat>, source: nat, reserve: nat, i: nat)
    requires AllU64(rungs) && i < |rungs|
    ensures var before := Carved(rungs[..i], source, reserve);
      && Total(before) <= source
      && Carved(rungs[..i + 1], source, reserve) == before +
        if source - Total(before) >= Min(rungs[i] + reserve, 0xFFFF_FFFF_FFFF_FFFF) then [rungs[i]] else []
  {
    var rest := rungs[1..];
    if i > 0 {
      assert rungs[..i][1..] == rest[..i - 1] && rungs[..i + 1][1..] == rest[..i];
      if source >= SaturatingAdd(rungs[0], reserve) {
        CarvedInTurn(rest, source - rungs[0], reserve, i - 1);
        var before := Carved(rest[..i - 1], source - rungs[0], reserve);
        assert Carved(rungs[..i], source, reserve) == [rungs[0]] + before;
        assert ([rungs[0]] + before)[1..] == before;
      } else {
        CarvedInTurn(rest, source, reserve, i - 1);
      }
    } else {
      assert rungs[..1][1..] == [];
    }
  }

  function Min(a: int, b: int): int {
    if a <= b then a else b
  }

  /** The rungs that have their turn: the missing ones, larger before smaller. */
  lemma MissingMeaning(values: seq<nat>, spec: LadderSpec)
    requires spec.Valid()
    ensures multiset(Missing(values, spec)) == multiset(Deficit(values, spec.targets))
    ensures forall i, j :: 0 <= i < j < |Missing(values, spec)| ==> Missing(values, spec)[i] >= Missing(values, spec)[j]
  {
    GeTotal();
    SortSorts(Ge, Deficit(values, spec.targets));
    forall i, j | 0 <= i < j < |Missing(values, spec)|
      ensures Missing(values, spec)[i] >= Missing(values, spec)[j]
    {
      SortedGe(Missing(values, spec), i, j);
    }
  }

  lemma {:induction false} SortedGe(s: seq<nat>, i: nat, j: nat)
    requires SortedBy(Ge, s) && i < j < |s|
    ensures s[i] >= s[j]
  {
    if i == 0 {
      assert s[j] in s[1..] && Ge(s[0], s[j]);
    } else {
      SortedGe(s[1..], i - 1, j - 1);
    }
  }

  /** Values small enough that no addition of the planner saturates. */
  ghost predicate Fits(values: seq<nat>) {
    Total(values) < U64_RANGE - 1
  }

  /** The other pieces and what is left of the source. */
  function Kept(values: seq<nat>, split: Split): seq<nat>
    requires split.index < |values| && Total(split.rungs) <= values[split.index]
  {
    Without(values, split.index) + [values[split.index] - Total(split.rungs)]
  }

  /** The pieces after a split: the source gives way to its rungs and what is left of it. */
  function After(values: seq<nat>, split: Split): seq<nat>
    requires split.index < |values| && Total(split.rungs) <= values[split.index]
  {
    Kept(values, split) + split.rungs
  }

  /** The planned split: rungs that are missing, from a piece no smaller than any other, which keeps a
      positive remainder of at least the smallest piece wanted. */
  lemma PlanSound(values: seq<nat>, spec: LadderSpec)
    requires spec.Valid() && Fits(values) && Plan(values, spec).Some?
    ensures var split := Plan(values, spec).value;
      && split.index < |values| && |split.rungs| > 0
      && (forall j :: 0 <= j < |values| ==> values[j] <= values[split.index])
      && multiset(split.rungs) <= multiset(Deficit(values, spec.targets))
      && Total(split.rungs) + spec.Reserve() <= values[split.index]
  {
    var split := Plan(values, spec).value;
    DeficitWithin(values, spec.targets);
    TotalWithout(values, split.index);
    CarvedWithin(Missing(values, spec), values[split.index], spec.Reserve());
    CarvedLeaves(Missing(values, spec), values[split.index], spec.Reserve());
  }

  /** No split is planned exactly when every target is covered, or no missing rung fits the fattest piece. */
  lemma {:induction false} NoPlan(values: seq<nat>, spec: LadderSpec)
    requires spec.Valid() && Fits(values)
    ensures Plan(values, spec).None? <==>
      |values| == 0 || forall i :: 0 <= i < |Missing(values, spec)| ==>
        Missing(values, spec)[i] + spec.Reserve() > values[LastMax(values)]
  {
    if |values| > 0 {
      DeficitWithin(values, spec.targets);
      TotalWithout(values, LastMax(values));
      CarvedLeaves(Missing(values, spec), values[LastMax(values)], spec.Reserve());
    }
  }

  /** A split conserves the total value. */
  lemma {:induction false} SplitConserves(values: seq<nat>, split: Split)
    requires split.index < |values| && Total(split.rungs) <= values[split.index]
    ensures Total(After(values, split)) == Total(values)
    ensures |After(values, split)| == |values| + |split.rungs|
  {
    TotalWithout(values, split.index);
    TotalConcat(Kept(values, split), split.rungs);
    TotalConcat(Without(values, split.index), [values[split.index] - Total(split.rungs)]);
  }

  /** What the pieces hold beyond one unit each: room for further splits. */
  function Room(values: seq<nat>): nat {
    if |values| == 0 then 0 else (if values[0] > 0 then values[0] - 1 else 0) + Room(values[1..])
  }

  lemma {:induction false} RoomConcat(s: seq<nat>, t: seq<nat>)
    ensures Room(s + t) == Room(s) + Room(t)
  {
    if |s| == 0 {
      assert s + t == t;
    } else {
      assert (s + t)[1..] == s[1..] + t;
      RoomConcat(s[1..], t);
    }
  }

  lemma {:induction false} RoomWithout(s: seq<nat>, i: nat)
    requires i < |s|
    ensures Room(s) == Room([s[i]]) + Room(Without(s, i))
  {
    if i == 0 {
      assert Without(s, 0) == s[1..];
    } else {
      RoomWithout(s[1..], i - 1);
      assert Without(s, i)[0] == s[0] && Without(s, i)[1..] == Without(s[1..], i - 1);
    }
  }

  lemma {:induction false} RoomOfPositive(s: seq<nat>)
    requires forall i :: 0 <= i < |s| ==> s[i] > 0
    ensures Room(s) + |s| == Total(s)
  {
    if |s| > 0 {
      RoomOfPositive(s[1..]);
    }
  }

  /** Each split uses up exactly one unit of room per rung. */
  lemma {:induction false} SplitUsesRoom(values: seq<nat>, spec: LadderSpec)
    requires spec.Valid() && Fits(values) && Plan(values, spec).Some?
    ensures var split := Plan(values, spec).value;
      && split.index < |values| && Total(split.rungs) <= values[split.index]
      && Room(After(values, split)) + |split.rungs| == Room(values)
  {
    var split := Plan(values, spec).value;
    PlanSound(values, spec);
    var rest := values[split.index] - Total(split.rungs);
    RoomWithout(values, split.index);
    RoomConcat(Kept(values, split), split.rungs);
    RoomConcat(Without(values, split.index), [rest]);
    RungsPositive(values, spec);
    RoomOfPositive(split.rungs);
  }

  lemma RungsPositive(values: seq<nat>, spec: LadderSpec)
    requires spec.Valid() && Fits(values) && Plan(values, spec).Some?
    ensures forall i :: 0 <= i < |Plan(values, spec).value.rungs| ==> Plan(values, spec).value.rungs[i] > 0
  {
    var rungs := Plan(values, spec).value.rungs;
    PlanSound(values, spec);
    DeficitWithin(values, spec.targets);
    forall i | 0 <= i < |rungs|
      ensures rungs[i] > 0
    {
      assert rungs[i] in multiset(rungs) && rungs[i] in multiset(spec.targets);
    }
  }

  /** Without one piece the others still cover all but one of the targets covered. */
  lemma CoverWithout(values: seq<nat>, targets: seq<nat>, index: nat) returns (p: seq<nat>, t: seq<nat>)
    requires index < |values|
    ensures Covers(multiset(Without(values, index)), multiset(CoveredTargets(values, targets)), p, t)
    ensures |t| + 1 >= |CoveredTargets(values, targets)|
  {
    var covered := CoveredTargets(values, targets);
    var q := DeficitMeaning(values, targets, [], []);
    WithoutContents(values, index);
    p, t := DropPiece(multiset(values), multiset(covered), q, covered, values[index]);
  }

  /** Coverage never worsens: carving k rungs leaves at least k - 1 fewer targets uncovered, whatever the
      source itself used to cover. */
  lemma CoverageGrows(values: seq<nat>, targets: seq<nat>, split: Split)
    requires split.index < |values| && Total(split.rungs) <= values[split.index]
    requires multiset(split.rungs) <= multiset(Deficit(values, targets))
    ensures |Deficit(After(values, split), targets)| + |split.rungs| <= |Deficit(values, targets)| + 1
  {
    var rungs, after := split.rungs, After(values, split);
    var p, t := CoverWithout(values, targets, split.index);
    JoinCovers(multiset(Without(values, split.index)), multiset(CoveredTargets(values, targets)), p, t, rungs);
    var q := DeficitMeaning(values, targets, [], []);
    assert multiset(after) == multiset(Kept(values, split)) + multiset(rungs);
    q := DeficitMeaning(after, targets, p + rungs, t + rungs);
  }

  /** Planning and splitting until no split is planned. */
  function Settled(values: seq<nat>, spec: LadderSpec): (r: seq<nat>)
    requires spec.Valid() && Fits(values)
    ensures Plan(r, spec).None?
    ensures Total(r) == Total(values)
    ensures |Deficit(r, spec.targets)| <= |Deficit(values, spec.targets)|
    ensures Room(r) + |r| == Room(values) + |values|
    decreases Room(values)
  {
    match Plan(values, spec)
    case None => values
    case Some(split) =>
      PlanSound(values, spec);
      SplitConserves(values, split);
      SplitUsesRoom(values, spec);
      CoverageGrows(values, spec.targets, split);
      Settled(After(values, split), spec)
  }

  /** The n-th largest of some values. */
  function NthLargest(values: seq<nat>, n: nat): nat {
    var sorted := Sort(Le, values);
    if 0 < n <= |sorted| then sorted[|sorted| - n] else 0
  }

  /** Exactly when one split is enough. After it the rungs cover themselves, so what counts is how many of
      the other targets the kept pieces leave uncovered: none, or so few that even the smallest of that many
      largest targets does not fit the fattest piece. */
  lemma OneSplitEnoughIff(values: seq<nat>, spec: LadderSpec, others: seq<nat>)
    requires spec.Valid() && Fits(values) && Plan(values, spec).Some?
    requires multiset(others) + multiset(Plan(values, spec).value.rungs) == multiset(spec.targets)
    ensures var split := Plan(values, spec).value;
      && split.index < |values| && Total(split.rungs) <= values[split.index]
      && var after, n := After(values, split), |Deficit(Kept(values, split), others)|;
         && (Plan(after, spec).None? <==> n == 0 || NthLargest(spec.targets, n) + spec.Reserve() > after[LastMax(after)])
  {
    var split := Plan(values, spec).value;
    PlanSound(values, spec);
    SplitConserves(values, split);
    var after, kept := After(values, split), Kept(values, split);
    EqualsCancel(kept, others, split.rungs, after, spec.targets);
    NoPlan(after, spec);
    MissingFits(after, spec, after[LastMax(after)]);
  }

  /** A missing rung fits exactly if the smallest one does. */
  lemma MissingFits(values: seq<nat>, spec: LadderSpec, source: nat)
    requires spec.Valid()
    ensures var n := |Deficit(values, spec.targets)|;
      (forall i :: 0 <= i < |Missing(values, spec)| ==> Missing(values, spec)[i] + spec.Reserve() > source) <==>
        n == 0 || NthLargest(spec.targets, n) + spec.Reserve() > source
  {
    var missing, deficit, sorted := Missing(values, spec), Deficit(values, spec.targets), Sort(Le, spec.targets);
    LeTotal();
    SortSorts(Le, spec.targets);
    DeficitWithin(values, spec.targets);
    var n := |deficit|;
    if n > 0 {
      assert deficit[0] == sorted[|sorted| - n];
      forall i | 0 <= i < |missing|
        ensures deficit[0] <= missing[i]
      {
        assert missing[i] in multiset(missing) && missing[i] in multiset(deficit);
        var j :| 0 <= j < n && deficit[j] == missing[i];
        if j > 0 {
          SortedPair(sorted, |sorted| - n, |sorted| - n + j);
        }
      }
      assert deficit[0] in multiset(deficit) && deficit[0] in multiset(missing);
    }
  }

  lemma SortFew<T>(le: Order<T>, x: T, y: T, z: T)
    ensures Sort(le, [x]) == [x] && Sort(le, [x, y]) == (if le(x, y) then [x, y] else [y, x])
    ensures Sort(le, [x, y, z]) == Insert(le, x, Sort(le, [y, z]))
  {
    assert [x][1..] == [] && [x, y][1..] == [y] && [x, y, z][1..] == [y, z];
    assert Sort(le, [x]) == Insert(le, x, []);
    assert Sort(le, [y]) == Insert(le, y, []);
    assert Sort(le, [x, y]) == Insert(le, x, [y]);
    assert [y][1..] == [];
  }

  lemma {:induction false} InsertLast(x: nat, y: nat, z: nat)
    requires y < z <= x
    ensures Insert(Le, x, [y, z]) == [y, z, x]
  {
    assert [y, z][1..] == [z] && [z][1..] == [];
    assert Insert(Le, x, []) == [x];
    assert Insert(Le, x, [z]) == [z, x];
  }

  lemma {:induction false} BothCover(pieces: seq<nat>, targets: seq<nat>)
    requires |pieces| == 2 && |targets| == 3 && pieces[0] >= targets[0] && pieces[1] >= targets[1]
    ensures Covered(pieces, targets) == 2
  {
    assert Covered(pieces, targets) == 1 + Covered(pieces[1..], targets[1..]);
    assert |pieces[1..][1..]| == 0;
  }

  lemma {:induction false} ThreeEqual(targets: seq<nat>, rung: nat)
    requires targets == [rung, rung, rung]
    ensures Sort(Le, targets) == targets
  {
    SortFew(Le, rung, rung, rung);
    assert [rung, rung] == [rung] + [rung];
  }

  /** Of three equal rungs two large pieces cover two. */
  lemma BeforeSplit(a: nat, b: nat, targets: seq<nat>, rung: nat)
    requires targets == [rung, rung, rung] && rung <= b < a
    ensures Deficit([a, b], targets) == [rung]
  {
    ThreeEqual(targets, rung);
    SortFew(Le, a, b, b);
    BothCover([b, a], targets);
  }

  /** The same pieces, one of them split into a rung and less than a rung, cover no more. */
  lemma AfterSplit(b: nat, left: nat, targets: seq<nat>, rung: nat)
    requires targets == [rung, rung, rung] && left < rung <= b
    ensures Deficit([b, left, rung], targets) == [rung]
  {
    ThreeEqual(targets, rung);
    SortFew(Le, b, left, rung);
    SortFew(Le, left, rung, rung);
    InsertLast(b, left, rung);
    assert [left, rung, b][1..] == [rung, b];
    BothCover([rung, b], targets);
  }

  lemma OneMoreSplit(values: seq<nat>, spec: LadderSpec, rung: nat)
    requires spec.Valid() && spec.Reserve() == 1 && Deficit(values, spec.targets) == [rung]
    requires |values| > 0 && rung < values[0] < U64_RANGE - 1
    requires forall i :: 0 < i < |values| ==> values[i] < values[0]
    ensures Plan(values, spec) == Some(Split(0, [rung]))
  {
    SortFew(Ge, rung, rung, rung);
    assert Missing(values, spec) == [rung];
    assert LastMax(values) == 0;
    assert [rung][1..] == [] && Carved([rung][1..], values[0] - rung, 1) == [];
    assert Carved([rung], values[0], 1) == [rung];
  }

  /** One split is not always enough, whatever the planner's comment says. With three equal rungs wanted and
      two pieces between one and two rungs large, say rungs of 100 and pieces of 150 and 140, the split of the
      first is followed by a split of the second. */
  lemma OneSplitNotEnough(a: nat, b: nat, rung: nat)
    requires 0 < rung < b < a < 2 * rung && a < U64_RANGE - 1
    ensures var spec, split := LadderSpec([rung, rung, rung], 1), Split(0, [rung]);
      && spec.Valid() && Plan([a, b], spec) == Some(split)
      && Total([rung]) == rung && After([a, b], split) == [b, a - rung, rung]
      && Plan([b, a - rung, rung], spec) == Some(split)
  {
    var spec := LadderSpec([rung, rung, rung], 1);
    BeforeSplit(a, b, spec.targets, rung);
    AfterSplit(b, a - rung, spec.targets, rung);
    OneMoreSplit([a, b], spec, rung);
    OneMoreSplit([b, a - rung, rung], spec, rung);
    assert [rung][1..] == [] && Total([rung]) == rung;
    assert Without([a, b], 0) == [b];
  }
}
