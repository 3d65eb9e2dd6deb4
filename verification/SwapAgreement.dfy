/**
 Agreement between what the maker reserves and asks for (crates/rfq-maker/src/lib.rs) and what the swap
 builders check (crates/rfq-rgb/src/swap.rs): between the two crates no check of the builders ever fires.
 */
module SwapAgreement {
  import opened Options
  import opened Ordering
  import opened Matching
  import opened Coins
  import opened Ladder
  import opened LadderProperties
  import opened Swap

  /** The rungs a buy's change is split into: none without a ladder, change or anchors to pay with. */
  function BuyChangeRungs(ladder: Option<LadderSpec>, amounts: seq<nat>, sats: seq<nat>, amount: nat, available: seq<nat>): seq<nat>
    requires ladder.Some? ==> ladder.value.Valid()
  {
    match ladder
    case None => []
    case Some(spec) =>
      var change := SaturatingSub(Total(amounts), amount);
      var affordable := Total(sats) / SEAL_ANCHOR_SATS;
      if change == 0 || affordable == 0 then []
      else
        var rungs := ChangeRungs(available, change, spec);
        if |rungs| <= affordable then rungs else rungs[..affordable]
  }

  method ComputeBuyChangeRungs(ladder: Option<LadderSpec>, amounts: seq<nat>, sats: seq<nat>, amount: nat, available: seq<nat>)
      returns (rungs: seq<nat>)
    requires ladder.Some? ==> ladder.value.Valid()
    ensures rungs == BuyChangeRungs(ladder, amounts, sats, amount, available)
  {
    if ladder.None? {
      return [];
    }
    var change := SaturatingSub(Total(amounts), amount);
    if change == 0 {
      return [];
    }
    var recycled := Total(sats);
    var maxBySats := recycled / SEAL_ANCHOR_SATS;
    if maxBySats == 0 {
      return [];
    }
    rungs := PlanChangeRungs(available, change, ladder.value);
    if |rungs| > maxBySats {
      rungs := rungs[..maxBySats];
    }
  }

  /** The rungs a sell's BTC change is split into. */
  function SellChangeRungs(ladder: Option<LadderSpec>, makerTotal: nat, gross: nat, available: seq<nat>): seq<nat>
    requires ladder.Some? ==> ladder.value.Valid()
  {
    match ladder
    case None => []
    case Some(spec) => ChangeRungs(available, MakerChangeSats(makerTotal, gross), spec)
  }

  method ComputeSellBtcChangeRungs(ladder: Option<LadderSpec>, makerTotal: nat, gross: nat, available: seq<nat>)
      returns (rungs: seq<nat>)
    requires ladder.Some? ==> ladder.value.Valid()
    ensures rungs == SellChangeRungs(ladder, makerTotal, gross, available)
  {
    if ladder.None? {
      return [];
    }
    var makerChange := SaturatingSub(SaturatingSub(makerTotal, gross), SEAL_ANCHOR_SATS);
    if makerChange == 0 {
      return [];
    }
    rungs := PlanChangeRungs(available, makerChange, ladder.value);
  }

  /** Rungs of a change always leave a positive remainder. */
  lemma ChangeRungsLeave(available: seq<nat>, change: nat, spec: LadderSpec)
    requires spec.Valid() && change < U64_RANGE - 1
    ensures |ChangeRungs(available, change, spec)| > 0 ==> Total(ChangeRungs(available, change, spec)) + spec.Reserve() <= change
    ensures multiset(ChangeRungs(available, change, spec)) <= multiset(Deficit(available, spec.targets))
  {
    DeficitWithin(available, spec.targets);
    CarvedWithin(Missing(available, spec), change, spec.Reserve());
    CarvedLeaves(Missing(available, spec), change, spec.Reserve());
  }

  /** A change is split exactly if some missing rung, with the reserve, fits it. */
  lemma ChangeRungsIff(available: seq<nat>, change: nat, spec: LadderSpec)
    requires spec.Valid() && change < U64_RANGE - 1
    ensures |ChangeRungs(available, change, spec)| > 0 <==>
      change > 0 && exists x :: x in Deficit(available, spec.targets) && x + spec.Reserve() <= change
  {
    var missing := Missing(available, spec);
    DeficitWithin(available, spec.targets);
    CarvedLeaves(missing, change, spec.Reserve());
    SameElements(Deficit(available, spec.targets), missing);
    if |Carved(missing, change, spec.Reserve())| > 0 {
      var i :| 0 <= i < |missing| && missing[i] + spec.Reserve() <= change;
      assert missing[i] in Deficit(available, spec.targets);
    } else {
      forall x | x in missing
        ensures x + spec.Reserve() > change
      {
        var i :| 0 <= i < |missing| && missing[i] == x;
      }
    }
  }

  lemma SameElements(s: seq<nat>, t: seq<nat>)
    requires multiset(s) == multiset(t)
    ensures forall x :: x in s <==> x in t
  {
    forall x
      ensures x in s <==> x in t
    {
      assert x in s <==> x in multiset(s);
      assert x in t <==> x in multiset(t);
    }
  }

  /** How many rungs a buy carves: as many as the change calls for, but no more than the maker's recycled sats can
      anchor; and it carves some exactly if there is a ladder, the reserved RGB exceeds the amount, one anchor is
      affordable, and a missing rung fits the change. */
  lemma {:induction false} BuyRungsIff(ladder: Option<LadderSpec>, amounts: seq<nat>, sats: seq<nat>, amount: nat, available: seq<nat>)
    requires ladder.Some? ==> ladder.value.Valid()
    requires Total(amounts) < U64_RANGE - 1
    ensures var rungs := BuyChangeRungs(ladder, amounts, sats, amount, available);
      |rungs| > 0 <==>
        && ladder.Some? && Total(amounts) > amount && Total(sats) >= 546
        && exists x ::
             x in Deficit(available, ladder.value.targets) && x + ladder.value.Reserve() <= Total(amounts) - amount
    ensures ladder.Some? && Total(amounts) > amount ==>
      var rungs := BuyChangeRungs(ladder, amounts, sats, amount, available);
      var all := ChangeRungs(available, Total(amounts) - amount, ladder.value);
      rungs <= all && (|rungs| == |all| || 546 * (|rungs| + 1) > Total(sats))
  {
    if ladder.Some? && Total(amounts) > amount {
      ChangeRungsIff(available, Total(amounts) - amount, ladder.value);
    }
  }

  /** A sell splits its BTC change exactly if a missing rung fits it. */
  lemma SellRungsIff(ladder: Option<LadderSpec>, makerTotal: nat, gross: nat, available: seq<nat>)
    requires ladder.Some? ==> ladder.value.Valid()
    requires gross + 546 <= makerTotal < U64_RANGE
    ensures |SellChangeRungs(ladder, makerTotal, gross, available)| > 0 <==>
      && ladder.Some? && makerTotal > gross + 546
      && exists x ::
           x in Deficit(available, ladder.value.targets) && x + ladder.value.Reserve() <= makerTotal - gross - 546
  {
    if ladder.Some? {
      ChangeRungsIff(available, makerTotal - gross - 546, ladder.value);
    }
  }

  /** A buy's rungs fit both budgets: less than the RGB change, and an anchor for each within the maker's own
      recycled sats. */
  lemma {:induction false} BuyRungsFit(ladder: Option<LadderSpec>, amounts: seq<nat>, sats: seq<nat>, amount: nat, available: seq<nat>)
    requires ladder.Some? ==> ladder.value.Valid()
    requires Total(amounts) < U64_RANGE - 1
    ensures var rungs := BuyChangeRungs(ladder, amounts, sats, amount, available);
      && SEAL_ANCHOR_SATS * |rungs| <= Total(sats)
      && (|rungs| > 0 ==> Total(amounts) > amount && Total(rungs) < Total(amounts) - amount)
  {
    var rungs := BuyChangeRungs(ladder, amounts, sats, amount, available);
    if |rungs| > 0 {
      var all := ChangeRungs(available, Total(amounts) - amount, ladder.value);
      ChangeRungsLeave(available, Total(amounts) - amount, ladder.value);
      assert all == all[..|rungs|] + all[|rungs|..] && rungs == all[..|rungs|];
      TotalConcat(all[..|rungs|], all[|rungs|..]);
    }
  }

  lemma {:induction false} FindFirst(outputs: seq<Output>, k: nat)
    requires k < |outputs| && forall i :: 0 <= i < k ==> outputs[i].script != outputs[k].script
    ensures Find(outputs, outputs[k].script) == Some(k)
    decreases |outputs|
  {
    if k > 0 {
      FindFirst(outputs[1..], k - 1);
    }
  }

  lemma {:induction false} RungFound(front: seq<Output>, amounts: seq<nat>, back: seq<Output>, i: nat)
    requires i < |amounts| && forall j :: 0 <= j < |front| ==> !front[j].script.Rung?
    ensures Find(front + RungOutputs(amounts) + back, Rung(i)) == Some(|front| + i)
    ensures |front| + i < |front + RungOutputs(amounts) + back|
    ensures (front + RungOutputs(amounts) + back)[|front| + i] == Output(Rung(i), amounts[i])
  {
    var outputs := front + RungOutputs(amounts) + back;
    RungOutputsMeaning(amounts);
    assert outputs[|front| + i] == RungOutputs(amounts)[i];
    forall j | 0 <= j < |front| + i
      ensures outputs[j].script != Rung(i)
    {
      assert outputs[j] == if j < |front| then front[j] else RungOutputs(amounts)[j - |front|];
    }
    FindFirst(outputs, |front| + i);
  }

  lemma {:induction false} ReceiveFound(front: seq<Output>, amounts: seq<nat>, back: seq<Output>)
    requires forall j :: 0 <= j < |front| ==> front[j].script != TakerReceive
    requires |back| > 0 && back[0].script == TakerReceive
    ensures var outputs := front + RungOutputs(amounts) + back;
      Find(outputs, TakerReceive).Some? && outputs[Find(outputs, TakerReceive).value] == back[0]
  {
    var outputs, k := front + RungOutputs(amounts) + back, |front + RungOutputs(amounts)|;
    RungOutputsMeaning(amounts);
    assert outputs[k] == back[0];
    forall j | 0 <= j < k
      ensures outputs[j].script != TakerReceive
    {
      assert outputs[j] == if j < |front| then front[j] else RungOutputs(amounts)[j - |front|];
    }
    FindFirst(outputs, k);
  }

  /** What is enough for a builder's preconditions: every output that RGB is to be sealed to is there, with the
      anchor it is to carry. */
  lemma BuyOutputsFound(makerTotal: nat, takerTotal: nat, seal: Seal, gross: nat, fee: nat, rungs: nat)
    ensures var outputs := BuyOutputs(makerTotal, takerTotal, seal, gross, fee, rungs);
      && Find(outputs, MakerHost) == Some(0)
      && (seal.Witness? ==> FoundAnchor(outputs, TakerReceive))
      && forall i :: 0 <= i < rungs ==> FoundAnchor(outputs, Rung(i))
  {
    var front := [Output(MakerHost, gross)] + UnlessDust(MakerChange, SaturatingSub(makerTotal, SEAL_ANCHOR_SATS * rungs));
    var receive := if seal.Witness? then [Output(TakerReceive, SEAL_ANCHOR_SATS)] else [];
    var back := receive + UnlessDust(TakerPayout, TakerChange(takerTotal, gross, fee, seal));
    var outputs := BuyOutputs(makerTotal, takerTotal, seal, gross, fee, rungs);
    assert outputs == front + RungOutputs(Anchors(rungs)) + back;
    AllAnchors(rungs);
    forall i | 0 <= i < rungs
      ensures FoundAnchor(outputs, Rung(i))
    {
      RungFound(front, Anchors(rungs), back, i);
    }
    if seal.Witness? {
      ReceiveFound(front, Anchors(rungs), back);
    }
  }

  /** The first output of the role carries exactly an anchor. */
  ghost predicate FoundAnchor(outputs: seq<Output>, script: Script) {
    Find(outputs, script).Some? && outputs[Find(outputs, script).value].sats == SEAL_ANCHOR_SATS
  }

  /** A buy as the maker prepares it always builds: reserved RGB that covers the amount, taker inputs selected
      for price, fee and anchor, and the maker's own rungs meet every check of both builders, and no sealed
      output is missing. */
  lemma {:induction false} BuyBuilds(ladder: Option<LadderSpec>, amounts: seq<nat>, sats: seq<nat>, amount: nat, available: seq<nat>,
                                    seal: Seal, takerInputs: seq<nat>, gross: nat, fee: nat)
    requires ladder.Some? ==> ladder.value.Valid()
    requires amount <= Total(amounts) < U64_RANGE - 1 && Total(sats) < U64_RANGE
    requires gross + fee + SEAL_ANCHOR_SATS <= Total(takerInputs) < U64_RANGE
    ensures var rungs := BuyChangeRungs(ladder, amounts, sats, amount, available);
      && Total(takerInputs) >= gross + fee + Anchor(seal) && Total(sats) >= SEAL_ANCHOR_SATS * |rungs|
      && (if Total(amounts) == amount then |rungs| == 0 else Total(rungs) < Total(amounts) - amount)
      && var outputs := BuyOutputs(Total(sats), Total(takerInputs), seal, gross, fee, |rungs|);
         && Find(outputs, MakerHost).Some? && (seal.Witness? ==> Find(outputs, TakerReceive).Some?)
         && forall i :: 0 <= i < |rungs| ==> Find(outputs, Rung(i)).Some?
  {
    var rungs := BuyChangeRungs(ladder, amounts, sats, amount, available);
    BuyRungsFit(ladder, amounts, sats, amount, available);
    BuyOutputsFound(Total(sats), Total(takerInputs), seal, gross, fee, |rungs|);
    var outputs := BuyOutputs(Total(sats), Total(takerInputs), seal, gross, fee, |rungs|);
    assert forall i :: 0 <= i < |rungs| ==> FoundAnchor(outputs, Rung(i));
    assert |rungs| == 0 ==> Total(rungs) == 0;
  }

  /** A sell likewise: BTC selected for price and anchor and the maker's own rungs meet every check, and a
      split change keeps a positive remainder. */
  lemma SellBuilds(ladder: Option<LadderSpec>, makerTotal: nat, takerTotal: nat, gross: nat, fee: nat, available: seq<nat>,
                   change: Option<Seal>)
    requires ladder.Some? ==> ladder.value.Valid()
    requires gross + SEAL_ANCHOR_SATS <= makerTotal < U64_RANGE
    ensures var rungs := SellChangeRungs(ladder, makerTotal, gross, available);
      && Total(rungs) <= makerTotal - gross - SEAL_ANCHOR_SATS
      && (|rungs| > 0 ==> Total(rungs) < makerTotal - gross - SEAL_ANCHOR_SATS)
      && var outputs := SellOutputs(makerTotal, takerTotal, change, gross, fee, rungs);
         Find(outputs, MakerHost) == Some(0) && (change == Some(Witness) ==> Find(outputs, TakerReceive).Some?)
  {
    var rungs := SellChangeRungs(ladder, makerTotal, gross, available);
    if ladder.Some? {
      ChangeRungsLeave(available, MakerChangeSats(makerTotal, gross), ladder.value);
    }
    assert |rungs| == 0 ==> Total(rungs) == 0;
    var outputs := SellOutputs(makerTotal, takerTotal, change, gross, fee, rungs);
    if change == Some(Witness) {
      assert outputs[|outputs| - 1] == Output(TakerReceive, SEAL_ANCHOR_SATS);
    }
  }
}
