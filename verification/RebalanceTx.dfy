/** Fitting a rebalance transaction to its BTC budget (crates/rfq-maker/src/rebalance.rs:61-94, 186-267). */
module RebalanceTx {
  import opened Options
  import opened Ordering
  import opened Matching
  import opened Store
  import opened Coins

  const ANCHOR_SATS := 546

  /** The rungs to carve from one RGB source. */
  datatype AssetSplit = AssetSplit(asset: string, source: Outpoint, sourceAmount: nat, sourceSats: nat, rungs: seq<nat>)

  datatype BtcSplit = BtcSplit(source: Outpoint, sourceSats: nat, rungs: seq<nat>)

  datatype Transaction = Transaction(assets: seq<AssetSplit>, btc: Option<BtcSplit>, feeSats: nat, btcNeeded: nat)

  /** The plans under consideration. */
  datatype Plans = Plans(assets: seq<AssetSplit>, btc: Option<BtcSplit>) {
    predicate Empty() {
      |assets| == 0 && btc.None?
    }

    /** No plan without rungs. */
    ghost predicate NoEmptySplit() {
      (forall i :: 0 <= i < |assets| ==> |assets[i].rungs| > 0) && (btc.Some? ==> |btc.value.rungs| > 0)
    }
  }

  /** One RGB output per rung and one for each remainder. */
  function RgbOutputs(assets: seq<AssetSplit>): nat {
    if |assets| == 0 then 0 else |assets[0].rungs| + 1 + RgbOutputs(assets[1..])
  }

  function SourceSats(assets: seq<AssetSplit>): nat {
    if |assets| == 0 then 0 else assets[0].sourceSats + SourceSats(assets[1..])
  }

  function BtcRungs(btc: Option<BtcSplit>): nat {
    match btc case None => 0 case Some(b) => Total(b.rungs)
  }

  /** What the transaction must source, on unbounded numbers. */
  function Need(plans: Plans, fee: nat): nat {
    fee + ANCHOR_SATS * RgbOutputs(plans.assets) + BtcRungs(plans.btc)
  }

  /** What the transaction must source, as the program adds it up. */
  function RequiredBtc(plans: Plans, fee: nat): nat {
    SaturatingAdd(SaturatingAdd(fee, SaturatingMul(ANCHOR_SATS, RgbOutputs(plans.assets))), BtcRungs(plans.btc))
  }

  function SaturatingMul(a: nat, b: nat): nat {
    if a * b < U64_RANGE then a * b else U64_RANGE - 1
  }

  function Rungs(assets: seq<AssetSplit>): nat {
    if |assets| == 0 then 0 else |assets[0].rungs| + Rungs(assets[1..])
  }

  function RungCount(plans: Plans): nat {
    Rungs(plans.assets) + match plans.btc case None => 0 case Some(b) => |b.rungs|
  }

  /** Plans without the empty ones. */
  function Retained(assets: seq<AssetSplit>): (r: seq<AssetSplit>)
    ensures forall i :: 0 <= i < |r| ==> |r[i].rungs| > 0
    ensures Rungs(r) == Rungs(assets)
  {
    if |assets| == 0 then []
    else if |assets[0].rungs| == 0 then Retained(assets[1..])
    else [assets[0]] + Retained(assets[1..])
  }

  /** A position among the rungs of several plans. */
  datatype Place = Place(asset: nat, rung: nat)

  predicate At(assets: seq<AssetSplit>, p: Place) {
    p.asset < |assets| && p.rung < |assets[p.asset].rungs|
  }

  function RungAt(assets: seq<AssetSplit>, p: Place): nat
    requires At(assets, p)
  {
    assets[p.asset].rungs[p.rung]
  }

  /** Plan by plan, and in each rung by rung. */
  predicate Before(p: Place, q: Place) {
    p.asset < q.asset || (p.asset == q.asset && p.rung < q.rung)
  }

  /** `p` is the place of the smallest rung before `end`, the first of several. */
  ghost predicate SmallestBefore(assets: seq<AssetSplit>, p: Option<Place>, end: Place) {
    match p
    case None => forall q :: At(assets, q) ==> !Before(q, end)
    case Some(p) =>
      && At(assets, p) && Before(p, end)
      && forall q :: At(assets, q) && Before(q, end) ==>
           RungAt(assets, p) <= RungAt(assets, q) && (RungAt(assets, q) == RungAt(assets, p) ==> !Before(q, p))
  }

  /** Scans every rung for the smallest, replacing the best so far only by a strictly smaller one. */
  method SmallestRung(assets: seq<AssetSplit>) returns (smallest: Option<Place>)
    ensures SmallestBefore(assets, smallest, Place(|assets|, 0))
  {
    smallest := None;
    for ai := 0 to |assets|
      invariant SmallestBefore(assets, smallest, Place(ai, 0))
    {
      for ri := 0 to |assets[ai].rungs|
        invariant SmallestBefore(assets, smallest, Place(ai, ri))
      {
        if smallest.None? || assets[ai].rungs[ri] < RungAt(assets, smallest.value) {
          smallest := Some(Place(ai, ri));
        }
      }
    }
  }

  /** One plan loses the rung at `p`; a plan left without rungs goes. */
  function Cut(assets: seq<AssetSplit>, p: Place): seq<AssetSplit>
    requires At(assets, p)
  {
    Retained(assets[p.asset := assets[p.asset].(rungs := Without(assets[p.asset].rungs, p.rung))])
  }

  /** The position of the smallest value, the first of several. */
  function FirstMin(values: seq<nat>): (i: nat)
    requires |values| > 0
    ensures i < |values| && forall j :: 0 <= j < |values| ==> values[i] <= values[j]
    ensures forall j :: 0 <= j < i ==> values[i] < values[j]
  {
    if |values| == 1 then 0
    else
      var before := FirstMin(values[..|values| - 1]);
      if values[|values| - 1] < values[before] then |values| - 1 else before
  }

  function CutBtc(b: BtcSplit): Option<BtcSplit>
    requires |b.rungs| > 0
  {
    var rest := Without(b.rungs, FirstMin(b.rungs));
    if |rest| == 0 then None else Some(b.(rungs := rest))
  }

  /** One rung less: the smallest RGB rung, or, with no RGB plan left, the smallest BTC rung. */
  ghost predicate OneLess(before: Plans, after: Plans) {
    if Rungs(before.assets) > 0 then
      exists p :: At(before.assets, p) && SmallestBefore(before.assets, Some(p), Place(|before.assets|, 0))
        && after == Plans(Cut(before.assets, p), before.btc)
    else
      && before.btc.Some? && |before.btc.value.rungs| > 0
      && after == Plans(before.assets, CutBtc(before.btc.value))
  }

  lemma SomeRungs(plans: Plans)
    requires plans.NoEmptySplit()
    ensures Rungs(plans.assets) == 0 <==> |plans.assets| == 0
    ensures |plans.assets| > 0 ==> At(plans.assets, Place(0, 0)) && Before(Place(0, 0), Place(|plans.assets|, 0))
  {
  }

  /** Drops one rung, if there is one. */
  method ScaleDown(plans: Plans) returns (dropped: bool, after: Plans)
    requires plans.NoEmptySplit()
    ensures dropped <==> !plans.Empty()
    ensures if dropped then OneLess(plans, after) else after == plans
  {
    var smallest := SmallestRung(plans.assets);
    SomeRungs(plans);
    if smallest.Some? {
      assert At(plans.assets, smallest.value);
      return true, Plans(Cut(plans.assets, smallest.value), plans.btc);
    }
    if plans.btc.Some? {
      return true, Plans(plans.assets, CutBtc(plans.btc.value));
    }
    return false, plans;
  }

  // What a step keeps.

  /** An RGB rung with the plan it belongs to. */
  type Tag = (AssetSplit, nat)

  function Tags(head: AssetSplit, rungs: seq<nat>): multiset<Tag> {
    if |rungs| == 0 then multiset{} else multiset{(head, rungs[0])} + Tags(head, rungs[1..])
  }

  /** The RGB rungs of all plans, each with its plan's source. */
  function Tagged(assets: seq<AssetSplit>): multiset<Tag> {
    if |assets| == 0 then multiset{} else Tags(assets[0].(rungs := []), assets[0].rungs) + Tagged(assets[1..])
  }

  lemma {:induction false} TagsWithout(head: AssetSplit, rungs: seq<nat>, i: nat)
    requires i < |rungs|
    ensures Tags(head, rungs) == Tags(head, Without(rungs, i)) + multiset{(head, rungs[i])}
  {
    if i == 0 {
      assert Without(rungs, 0) == rungs[1..];
    } else {
      TagsWithout(head, rungs[1..], i - 1);
      var rest := Without(rungs, i);
      assert rest[0] == rungs[0] && rest[1..] == Without(rungs[1..], i - 1);
    }
  }

  lemma {:induction false} RetainedTagged(assets: seq<AssetSplit>)
    ensures Tagged(Retained(assets)) == Tagged(assets)
  {
    if |assets| > 0 {
      RetainedTagged(assets[1..]);
    }
  }

  lemma {:induction false} CutTagged(assets: seq<AssetSplit>, p: Place)
    requires At(assets, p)
    ensures var cut := assets[p.asset := assets[p.asset].(rungs := Without(assets[p.asset].rungs, p.rung))];
      && Tagged(assets) == Tagged(cut) + multiset{(assets[p.asset].(rungs := []), RungAt(assets, p))}
      && Rungs(cut) + 1 == Rungs(assets)
    decreases |assets|
  {
    var cut := assets[p.asset := assets[p.asset].(rungs := Without(assets[p.asset].rungs, p.rung))];
    if p.asset == 0 {
      TagsWithout(assets[0].(rungs := []), assets[0].rungs, p.rung);
      assert cut[1..] == assets[1..];
    } else {
      CutTagged(assets[1..], Place(p.asset - 1, p.rung));
      assert cut[0] == assets[0];
      assert cut[1..] == assets[1..][p.asset - 1 := cut[p.asset]];
    }
  }

  lemma {:induction false} TagPlace(assets: seq<AssetSplit>, t: Tag) returns (p: Place)
    requires t in Tagged(assets)
    ensures At(assets, p) && RungAt(assets, p) == t.1
  {
    if t in Tags(assets[0].(rungs := []), assets[0].rungs) {
      var i := TagIndex(assets[0].(rungs := []), assets[0].rungs, t);
      p := Place(0, i);
    } else {
      var q := TagPlace(assets[1..], t);
      p := Place(q.asset + 1, q.rung);
    }
  }

  lemma {:induction false} TagIndex(head: AssetSplit, rungs: seq<nat>, t: Tag) returns (i: nat)
    requires t in Tags(head, rungs)
    ensures i < |rungs| && rungs[i] == t.1
  {
    if t == (head, rungs[0]) {
      i := 0;
    } else {
      var j := TagIndex(head, rungs[1..], t);
      i := j + 1;
    }
  }

  function BtcRungList(btc: Option<BtcSplit>): seq<nat> {
    match btc case None => [] case Some(b) => b.rungs
  }

  /** What a step does: one rung goes, and it is no larger than any that stays of its kind; the BTC plan is
      touched only when no RGB rung is left. */
  lemma OneLessMeaning(before: Plans, after: Plans)
    requires OneLess(before, after) && before.NoEmptySplit()
    ensures after.NoEmptySplit() && RungCount(after) + 1 == RungCount(before)
    ensures Tagged(after.assets) <= Tagged(before.assets)
    ensures forall d, k :: d in Tagged(before.assets) - Tagged(after.assets) && k in Tagged(before.assets) ==> d.1 <= k.1
    ensures after.btc != before.btc ==> |before.assets| == 0 == |after.assets|
    ensures multiset(BtcRungList(after.btc)) <= multiset(BtcRungList(before.btc))
    ensures CutsSmallest(multiset(BtcRungList(before.btc)), multiset(BtcRungList(after.btc)))
    ensures SameSource(before.btc, after.btc)
  {
    if Rungs(before.assets) > 0 {
      var p :| At(before.assets, p) && SmallestBefore(before.assets, Some(p), Place(|before.assets|, 0))
        && after == Plans(Cut(before.assets, p), before.btc);
      CutMeaning(before.assets, p);
    } else {
      SomeRungs(before);
      BtcCutMeaning(before.btc.value);
    }
  }

  /** A BTC plan is only ever cut, never given another source. */
  predicate SameSource(before: Option<BtcSplit>, after: Option<BtcSplit>) {
    after.Some? ==> before.Some? && after.value.(rungs := []) == before.value.(rungs := [])
  }

  /** What goes is no larger than anything there was. */
  ghost predicate CutsSmallest(before: multiset<nat>, after: multiset<nat>) {
    forall d, k :: d in before - after && k in before ==> d <= k
  }

  lemma BtcCutMeaning(b: BtcSplit)
    requires |b.rungs| > 0
    ensures multiset(BtcRungList(CutBtc(b))) <= multiset(b.rungs)
    ensures CutsSmallest(multiset(b.rungs), multiset(BtcRungList(CutBtc(b))))
  {
    var i := FirstMin(b.rungs);
    WithoutContents(b.rungs, i);
    assert multiset(b.rungs) - multiset(Without(b.rungs, i)) == multiset{b.rungs[i]};
    assert BtcRungList(CutBtc(b)) == Without(b.rungs, i);
    forall k | k in multiset(b.rungs)
      ensures b.rungs[i] <= k
    {
      assert k in b.rungs;
    }
  }

  lemma {:induction false} CutMeaning(assets: seq<AssetSplit>, p: Place)
    requires At(assets, p) && SmallestBefore(assets, Some(p), Place(|assets|, 0))
    ensures Rungs(Cut(assets, p)) + 1 == Rungs(assets) && Tagged(Cut(assets, p)) <= Tagged(assets)
    ensures forall d, k :: d in Tagged(assets) - Tagged(Cut(assets, p)) && k in Tagged(assets) ==> d.1 <= k.1
  {
    var cut := assets[p.asset := assets[p.asset].(rungs := Without(assets[p.asset].rungs, p.rung))];
    CutTagged(assets, p);
    RetainedTagged(cut);
    forall d, k | d in Tagged(assets) - Tagged(Cut(assets, p)) && k in Tagged(assets)
      ensures d.1 <= k.1
    {
      assert d == (assets[p.asset].(rungs := []), RungAt(assets, p));
      var q := TagPlace(assets, k);
      assert Before(q, Place(|assets|, 0));
    }
  }

  // The fitting loop.

  /** The budget covers what the transaction needs. */
  predicate Funded(plans: Plans, available: nat, fee: nat) {
    available + SourceSats(plans.assets) >= Need(plans, fee)
  }

  /** The plans asked for, without empty ones. */
  function Normalised(plans: Plans): (r: Plans)
    ensures r.NoEmptySplit()
  {
    Plans(Retained(plans.assets), if plans.btc.Some? && |plans.btc.value.rungs| == 0 then None else plans.btc)
  }

  /** The successive attempts: each drops one rung of the one before, and only the last may be funded. */
  ghost predicate Attempts(trail: seq<Plans>, available: nat, fee: nat) {
    && |trail| > 0
    && (forall i :: 0 <= i < |trail| - 1 ==> OneLess(trail[i], trail[i + 1]))
    && (forall i :: 0 <= i < |trail| - 1 ==> !trail[i].Empty() && !Funded(trail[i], available, fee))
  }

  /** No sum the program forms exceeds 64 bits. */
  ghost predicate InRange(plans: Plans, available: nat, fee: nat) {
    Need(plans, fee) < U64_RANGE && available + SourceSats(plans.assets) < U64_RANGE
  }

  lemma {:induction false} RetainedShrinks(assets: seq<AssetSplit>)
    ensures RgbOutputs(Retained(assets)) <= RgbOutputs(assets) && SourceSats(Retained(assets)) <= SourceSats(assets)
  {
    if |assets| > 0 {
      RetainedShrinks(assets[1..]);
    }
  }

  lemma {:induction false} CutShrinks(assets: seq<AssetSplit>, p: Place)
    requires At(assets, p)
    ensures var cut := assets[p.asset := assets[p.asset].(rungs := Without(assets[p.asset].rungs, p.rung))];
      RgbOutputs(cut) < RgbOutputs(assets) && SourceSats(cut) == SourceSats(assets)
    decreases |assets|
  {
    if p.asset == 0 {
      var cut := assets[0 := assets[0].(rungs := Without(assets[0].rungs, p.rung))];
      assert cut[1..] == assets[1..];
    } else {
      var cut := assets[p.asset := assets[p.asset].(rungs := Without(assets[p.asset].rungs, p.rung))];
      CutShrinks(assets[1..], Place(p.asset - 1, p.rung));
      assert cut[1..] == assets[1..][p.asset - 1 := cut[p.asset]];
    }
  }

  /** Dropping a rung never makes a sum larger. */
  lemma StaysInRange(before: Plans, after: Plans, available: nat, fee: nat)
    requires OneLess(before, after) && InRange(before, available, fee)
    ensures InRange(after, available, fee)
  {
    if Rungs(before.assets) > 0 {
      var p :| At(before.assets, p) && SmallestBefore(before.assets, Some(p), Place(|before.assets|, 0))
        && after == Plans(Cut(before.assets, p), before.btc);
      CutShrinks(before.assets, p);
      RetainedShrinks(before.assets[p.asset := before.assets[p.asset].(rungs := Without(before.assets[p.asset].rungs, p.rung))]);
    } else {
      TotalWithout(before.btc.value.rungs, FirstMin(before.btc.value.rungs));
    }
  }

  lemma SumsExact(plans: Plans, available: nat, fee: nat)
    requires InRange(plans, available, fee)
    ensures SaturatingAdd(available, SourceSats(plans.assets)) == available + SourceSats(plans.assets)
    ensures RequiredBtc(plans, fee) == Need(plans, fee)
  {
  }

  lemma OneMoreAttempt(trail: seq<Plans>, after: Plans, available: nat, fee: nat)
    requires Attempts(trail, available, fee)
    requires var last := trail[|trail| - 1]; !last.Empty() && !Funded(last, available, fee) && OneLess(last, after)
    ensures Attempts(trail + [after], available, fee) && (trail + [after])[0] == trail[0]
  {
  }

  /** What a fitted transaction is: funded on unbounded numbers, where it needs the fee, 546 sats for each RGB rung
      and for what is left of each RGB source, and its BTC rungs; made of rungs that were asked for, no plan without
      rungs, every rung given up no larger than every one kept of its kind, and the BTC rungs whole unless no RGB
      plan is left. */
  ghost predicate Fitted(assets: seq<AssetSplit>, btc: Option<BtcSplit>, available: nat, fee: nat, tx: Transaction) {
    && tx.feeSats == fee
    && tx.btcNeeded == fee + 546 * (|Tagged(tx.assets)| + |tx.assets|) + Total(BtcRungList(tx.btc))
    && available + SourceSats(tx.assets) >= tx.btcNeeded
    && !Plans(tx.assets, tx.btc).Empty() && Plans(tx.assets, tx.btc).NoEmptySplit()
    && Tagged(tx.assets) <= Tagged(assets)
    && (forall d, k :: d in Tagged(assets) - Tagged(tx.assets) && k in Tagged(tx.assets) ==> d.1 <= k.1)
    && multiset(BtcRungList(tx.btc)) <= multiset(BtcRungList(btc))
    && (tx.assets != [] ==> BtcRungList(tx.btc) == BtcRungList(btc))
    && KeepsLargest(multiset(BtcRungList(btc)), multiset(BtcRungList(tx.btc)))
    && SameSource(btc, tx.btc)
  }

  /** Tries the plans asked for, and with ever one rung less, until the budget covers them. The ghost result
      is the trail of attempts. */
  method Assemble(assets: seq<AssetSplit>, btc: Option<BtcSplit>, available: nat, fee: nat)
      returns (r: Option<Transaction>, ghost trail: seq<Plans>)
    requires InRange(Plans(assets, btc), available, fee)
    ensures r.Some? ==> Fitted(assets, btc, available, fee, r.value)
    ensures Attempts(trail, available, fee) && trail[0] == Normalised(Plans(assets, btc))
    ensures var last := trail[|trail| - 1];
      match r
      case None => last.Empty()
      case Some(tx) =>
        && !last.Empty() && Funded(last, available, fee)
        && tx == Transaction(last.assets, last.btc, fee, Need(last, fee))
  {
    var plans := Normalised(Plans(assets, btc));
    RetainedShrinks(assets);
    if plans.Empty() {
      return None, [plans];
    }
    r, trail := Fit(plans, available, fee);
    if r.Some? {
      FittedTransaction(assets, btc, available, fee, trail);
    }
  }

  method Fit(wanted: Plans, available: nat, fee: nat) returns (r: Option<Transaction>, ghost trail: seq<Plans>)
    requires wanted.NoEmptySplit() && InRange(wanted, available, fee)
    ensures Attempts(trail, available, fee) && trail[0] == wanted
    ensures var last := trail[|trail| - 1];
      match r
      case None => last.Empty()
      case Some(tx) =>
        && !last.Empty() && Funded(last, available, fee)
        && tx == Transaction(last.assets, last.btc, fee, Need(last, fee))
  {
    var plans := wanted;
    trail := [wanted];
    while true
      invariant plans.NoEmptySplit() && InRange(plans, available, fee)
      invariant Attempts(trail, available, fee) && trail[|trail| - 1] == plans && trail[0] == wanted
      decreases RungCount(plans)
    {
      if plans.Empty() {
        return None, trail;
      }
      SumsExact(plans, available, fee);
      var avail := SaturatingAdd(available, SourceSats(plans.assets));
      var need := RequiredBtc(plans, fee);
      if avail >= need {
        return Some(Transaction(plans.assets, plans.btc, fee, need)), trail;
      }
      var dropped, after := ScaleDown(plans);
      if !dropped {
        return None, trail;
      }
      OneLessMeaning(plans, after);
      StaysInRange(plans, after, available, fee);
      OneMoreAttempt(trail, after, available, fee);
      plans := after;
      trail := trail + [after];
    }
  }

  /** What is left at the end of any trail of attempts: RGB rungs that were asked for, the largest of them;
      BTC rungs that were asked for, and all of them unless no RGB rung is left; no plan without rungs. */
  lemma {:induction false} TrailKeepsLargest(trail: seq<Plans>, available: nat, fee: nat)
    requires Attempts(trail, available, fee) && trail[0].NoEmptySplit()
    ensures var first, last := trail[0], trail[|trail| - 1];
      && last.NoEmptySplit() && RungCount(last) + |trail| - 1 == RungCount(first)
      && Tagged(last.assets) <= Tagged(first.assets)
      && (forall d, k :: d in Tagged(first.assets) - Tagged(last.assets) && k in Tagged(last.assets) ==> d.1 <= k.1)
      && multiset(BtcRungList(last.btc)) <= multiset(BtcRungList(first.btc))
      && BtcKeepsLargest(first.btc, last.btc) && SameSource(first.btc, last.btc)
      && (last.btc != first.btc ==> |last.assets| == 0)
    decreases |trail|
  {
    if |trail| > 1 {
      var front := trail[..|trail| - 1];
      TrailKeepsLargest(front, available, fee);
      LastStep(trail[0], front[|front| - 1], trail[|trail| - 1]);
    }
  }

  /** Nothing given up is larger than anything kept. */
  ghost predicate KeepsLargest(before: multiset<nat>, after: multiset<nat>) {
    forall d, k :: d in before - after && k in after ==> d <= k
  }

  ghost predicate BtcKeepsLargest(before: Option<BtcSplit>, after: Option<BtcSplit>) {
    KeepsLargest(multiset(BtcRungList(before)), multiset(BtcRungList(after)))
  }

  lemma LastStep(first: Plans, before: Plans, after: Plans)
    requires before.NoEmptySplit() && OneLess(before, after)
    requires Tagged(before.assets) <= Tagged(first.assets)
    requires forall d, k :: d in Tagged(first.assets) - Tagged(before.assets) && k in Tagged(before.assets) ==> d.1 <= k.1
    requires multiset(BtcRungList(before.btc)) <= multiset(BtcRungList(first.btc))
    requires before.btc != first.btc ==> |before.assets| == 0
    requires BtcKeepsLargest(first.btc, before.btc) && SameSource(first.btc, before.btc)
    ensures BtcKeepsLargest(first.btc, after.btc) && SameSource(first.btc, after.btc)
    ensures after.NoEmptySplit() && RungCount(after) + 1 == RungCount(before)
    ensures Tagged(after.assets) <= Tagged(first.assets)
    ensures forall d, k :: d in Tagged(first.assets) - Tagged(after.assets) && k in Tagged(after.assets) ==> d.1 <= k.1
    ensures multiset(BtcRungList(after.btc)) <= multiset(BtcRungList(first.btc))
    ensures after.btc != first.btc ==> |after.assets| == 0
  {
    OneLessMeaning(before, after);
    TagsKeepOn(Tagged(first.assets), Tagged(before.assets), Tagged(after.assets));
    if |before.assets| == 0 {
      assert |after.assets| == 0;
    }
    KeepsOn(multiset(BtcRungList(first.btc)), multiset(BtcRungList(before.btc)), multiset(BtcRungList(after.btc)));
  }

  lemma TagsKeepOn(first: multiset<Tag>, before: multiset<Tag>, after: multiset<Tag>)
    requires after <= before <= first
    requires forall d, k :: d in first - before && k in before ==> d.1 <= k.1
    requires forall d, k :: d in before - after && k in before ==> d.1 <= k.1
    ensures forall d, k :: d in first - after && k in after ==> d.1 <= k.1
  {
    forall d, k | d in first - after && k in after
      ensures d.1 <= k.1
    {
      assert k in before;
      assert d in first - before || d in before - after;
    }
  }

  lemma KeepsOn(first: multiset<nat>, before: multiset<nat>, after: multiset<nat>)
    requires after <= before <= first && KeepsLargest(first, before) && CutsSmallest(before, after)
    ensures KeepsLargest(first, after)
  {
    forall d, k | d in first - after && k in after
      ensures d <= k
    {
      assert k in before;
      assert d in first - before || d in before - after;
    }
  }

  /** Each plan has one output more than it has rungs: what is left of its source. */
  lemma {:induction false} OutputsOfRungs(assets: seq<AssetSplit>)
    ensures RgbOutputs(assets) == |Tagged(assets)| + |assets|
  {
    if |assets| > 0 {
      OutputsOfRungs(assets[1..]);
      OneTagEach(assets[0].(rungs := []), assets[0].rungs);
    }
  }

  lemma {:induction false} OneTagEach(head: AssetSplit, rungs: seq<nat>)
    ensures |Tags(head, rungs)| == |rungs|
  {
    if |rungs| > 0 {
      OneTagEach(head, rungs[1..]);
    }
  }

  lemma {:induction false} NormalisedRungs(assets: seq<AssetSplit>, btc: Option<BtcSplit>)
    ensures var plans := Normalised(Plans(assets, btc));
      && Tagged(plans.assets) == Tagged(assets)
      && BtcRungList(plans.btc) == BtcRungList(btc) && SameSource(btc, plans.btc)
  {
    RetainedTagged(assets);
  }

  lemma FittedTransaction(assets: seq<AssetSplit>, btc: Option<BtcSplit>, available: nat, fee: nat, trail: seq<Plans>)
    requires Attempts(trail, available, fee) && trail[0] == Normalised(Plans(assets, btc))
    requires var last := trail[|trail| - 1]; !last.Empty() && Funded(last, available, fee)
    ensures var last := trail[|trail| - 1];
      Fitted(assets, btc, available, fee, Transaction(last.assets, last.btc, fee, Need(last, fee)))
  {
    TrailKeepsLargest(trail, available, fee);
    NormalisedRungs(assets, btc);
    OutputsOfRungs(trail[|trail| - 1].assets);
  }
}
