/**
 Value arithmetic of the swap transactions (crates/rfq-rgb/src/swap.rs:418-562, 568-706, 1006-1152,
 1165-1287). Scripts stand for the role an output plays; the addresses behind different roles are taken to be
 different.
 */
module Swap {
  import opened Options
  import opened Ordering
  import opened Matching
  import opened Coins
  import opened Ladder
  import opened LadderProperties

  const SEAL_ANCHOR_SATS := 546
  const DUST_LIMIT_SATS := 546

  datatype Script = MakerHost | MakerChange | Rung(index: nat) | TakerReceive | TakerPayout

  datatype Output = Output(script: Script, sats: nat)

  /** Where a party takes its RGB: on an output it has already, or on one of this transaction's. */
  datatype Seal = Blinded | Witness

  /** An RGB amount states to the taker's existing output, or to output `vout` of the transaction. */
  datatype Assigned = Concealed(amount: nat) | Revealed(vout: nat, amount: nat)

  datatype BuildError =
    | UnderFunded(have: nat, need: nat)
    | RungAnchors(have: nat, need: nat)
    | RungCount(wanted: nat, prepared: nat)
    | RungsExceedChange(rungs: nat, change: nat)
    | RungsWithoutChange
    | AllocationsShort(have: nat, need: nat)
    | ChangeInvoiceRequired(surplus: nat)
    | OutputMissing(script: Script)

  function Sats(outputs: seq<Output>): nat {
    if |outputs| == 0 then 0 else outputs[0].sats + Sats(outputs[1..])
  }

  lemma {:induction false} SatsConcat(s: seq<Output>, t: seq<Output>)
    ensures Sats(s + t) == Sats(s) + Sats(t)
  {
    if |s| == 0 {
      assert s + t == t;
    } else {
      assert (s + t)[1..] == s[1..] + t;
      SatsConcat(s[1..], t);
    }
  }

  function Anchor(seal: Seal): nat {
    if seal.Witness? then SEAL_ANCHOR_SATS else 0
  }

  /** An output, left out if it would be dust. */
  function UnlessDust(script: Script, sats: nat): (r: seq<Output>)
    ensures Sats(r) == sats - Dropped(sats)
  {
    if sats > DUST_LIMIT_SATS then [Output(script, sats)] else []
  }

  /** What a left out output leaves to the fee. */
  function Dropped(sats: nat): (d: nat)
    ensures d <= DUST_LIMIT_SATS && d <= sats
  {
    if sats > DUST_LIMIT_SATS then 0 else sats
  }

  /** Outputs for the first `n` rungs. */
  function RungOutputs(amounts: seq<nat>): seq<Output> {
    if |amounts| == 0 then []
    else RungOutputs(amounts[..|amounts| - 1]) + [Output(Rung(|amounts| - 1), amounts[|amounts| - 1])]
  }

  lemma {:induction false} RungOutputsMeaning(amounts: seq<nat>)
    ensures |RungOutputs(amounts)| == |amounts| && Sats(RungOutputs(amounts)) == Total(amounts)
    ensures forall i :: 0 <= i < |amounts| ==> RungOutputs(amounts)[i] == Output(Rung(i), amounts[i])
  {
    if |amounts| > 0 {
      var n := |amounts| - 1;
      RungOutputsMeaning(amounts[..n]);
      SatsConcat(RungOutputs(amounts[..n]), [Output(Rung(n), amounts[n])]);
      TotalConcat(amounts[..n], [amounts[n]]);
      assert amounts == amounts[..n] + [amounts[n]];
    }
  }

  function Anchors(n: nat): (s: seq<nat>)
    ensures |s| == n && Total(s) == SEAL_ANCHOR_SATS * n
  {
    if n == 0 then []
    else
      TotalConcat(Anchors(n - 1), [SEAL_ANCHOR_SATS]);
      Anchors(n - 1) + [SEAL_ANCHOR_SATS]
  }

  lemma {:induction false} AllAnchors(n: nat)
    ensures forall i :: 0 <= i < n ==> Anchors(n)[i] == SEAL_ANCHOR_SATS
  {
    if n > 0 {
      AllAnchors(n - 1);
    }
  }

  /** What the outputs of one role carry together. */
  function Paid(outputs: seq<Output>, script: Script): nat {
    if |outputs| == 0 then 0
    else (if outputs[0].script == script then outputs[0].sats else 0) + Paid(outputs[1..], script)
  }

  lemma {:induction false} PaidConcat(s: seq<Output>, t: seq<Output>, script: Script)
    ensures Paid(s + t, script) == Paid(s, script) + Paid(t, script)
  {
    if |s| == 0 {
      assert s + t == t;
    } else {
      assert (s + t)[1..] == s[1..] + t;
      PaidConcat(s[1..], t, script);
    }
  }

  lemma {:induction false} PaidRungs(amounts: seq<nat>, script: Script)
    ensures Paid(RungOutputs(amounts), script) ==
      if script.Rung? && script.index < |amounts| then amounts[script.index] else 0
  {
    if |amounts| > 0 {
      var n := |amounts| - 1;
      PaidRungs(amounts[..n], script);
      PaidConcat(RungOutputs(amounts[..n]), [Output(Rung(n), amounts[n])], script);
      PaidOne(Output(Rung(n), amounts[n]), script);
    }
  }

  lemma {:induction false} PaidOne(output: Output, script: Script)
    ensures Paid([output], script) == if output.script == script then output.sats else 0
  {
    assert [output][1..] == [];
  }

  lemma {:induction false} PaidUnlessDust(role: Script, sats: nat, script: Script)
    ensures Paid(UnlessDust(role, sats), script) == if role == script && sats > DUST_LIMIT_SATS then sats else 0
  {
    PaidOne(Output(role, sats), script);
  }

  // The buy transaction.

  /** What the taker gets back. */
  function TakerChange(takerTotal: nat, gross: nat, fee: nat, seal: Seal): nat {
    SaturatingSub(SaturatingSub(SaturatingSub(takerTotal, gross), fee), Anchor(seal))
  }

  function BuyOutputs(makerTotal: nat, takerTotal: nat, seal: Seal, gross: nat, fee: nat, rungs: nat): seq<Output> {
    [Output(MakerHost, gross)]
      + UnlessDust(MakerChange, SaturatingSub(makerTotal, SEAL_ANCHOR_SATS * rungs))
      + RungOutputs(Anchors(rungs))
      + (if seal.Witness? then [Output(TakerReceive, SEAL_ANCHOR_SATS)] else [])
      + UnlessDust(TakerPayout, TakerChange(takerTotal, gross, fee, seal))
  }

  /** Builds the outputs of a buy: payout (the commitment host), maker change, rung anchors, the taker's
      receive anchor, the taker's change. The host is first already, so the final ordering changes nothing. */
  method AssembleBuy(makerInputs: seq<nat>, takerInputs: seq<nat>, seal: Seal, gross: nat, fee: nat, rungs: nat)
      returns (r: Result<seq<Output>, BuildError>)
    requires gross + fee + SEAL_ANCHOR_SATS < U64_RANGE && SEAL_ANCHOR_SATS * rungs < U64_RANGE
    ensures r.Success? <==>
      Total(takerInputs) >= gross + fee + Anchor(seal) && Total(makerInputs) >= SEAL_ANCHOR_SATS * rungs
    ensures r.Success? ==> r.value == BuyOutputs(Total(makerInputs), Total(takerInputs), seal, gross, fee, rungs)
    ensures r.Success? ==> |r.value| > 0 && r.value[0] == Output(MakerHost, gross) && Paid(r.value, MakerHost) == gross
    ensures r.Success? ==> (
      var change := Total(makerInputs) - 546 * rungs;
      Paid(r.value, MakerChange) == if change > 546 then change else 0)
    ensures r.Success? ==> (
      var change := Total(takerInputs) - gross - fee - (if seal.Witness? then 546 else 0);
      Paid(r.value, TakerPayout) == if change > 546 then change else 0)
    ensures r.Success? ==> Paid(r.value, TakerReceive) == if seal.Witness? then 546 else 0
    ensures r.Success? ==> forall i: nat :: Paid(r.value, Rung(i)) == if i < rungs then 546 else 0
  {
    var takerTotal := Total(takerInputs);
    var anchor := Anchor(seal);
    var required := SaturatingAdd(SaturatingAdd(gross, fee), anchor);
    if takerTotal < required {
      return Failure(UnderFunded(takerTotal, required));
    }
    var takerChange := SaturatingSub(SaturatingSub(SaturatingSub(takerTotal, gross), fee), anchor);
    var outputs := [Output(MakerHost, gross)];
    var makerTotal := Total(makerInputs);
    var rungAnchors := SEAL_ANCHOR_SATS * rungs;
    if makerTotal < rungAnchors {
      return Failure(RungAnchors(makerTotal, rungAnchors));
    }
    var makerChange := makerTotal - rungAnchors;
    if makerChange > DUST_LIMIT_SATS {
      outputs := outputs + [Output(MakerChange, makerChange)];
    }
    assert outputs == [Output(MakerHost, gross)] + UnlessDust(MakerChange, makerChange);
    outputs := PushRungs(outputs, Anchors(rungs), rungs);
    ghost var paying := outputs;
    if seal.Witness? {
      outputs := outputs + [Output(TakerReceive, anchor)];
    }
    assert outputs == paying + if seal.Witness? then [Output(TakerReceive, SEAL_ANCHOR_SATS)] else [];
    ghost var receiving := outputs;
    if takerChange > DUST_LIMIT_SATS {
      outputs := outputs + [Output(TakerPayout, takerChange)];
    }
    assert outputs == receiving + UnlessDust(TakerPayout, takerChange);
    BuyPays(makerTotal, takerTotal, seal, gross, fee, rungs);
    r := Success(outputs);
  }

  method PushRungs(outputs: seq<Output>, amounts: seq<nat>, n: nat) returns (r: seq<Output>)
    requires n == |amounts|
    ensures r == outputs + RungOutputs(amounts)
  {
    r := outputs;
    for i := 0 to n
      invariant r == outputs + RungOutputs(amounts[..i])
    {
      assert amounts[..i + 1][..i] == amounts[..i];
      r := r + [Output(Rung(i), amounts[i])];
    }
    assert amounts[..n] == amounts;
  }

  /** Who gets what of a buy: the maker its price, its inputs less an anchor per rung unless that is dust, and the
      anchors; the taker an anchor to receive on, if it has none, and its inputs less price, fee and anchor unless
      that is dust. */
  lemma BuyPays(makerTotal: nat, takerTotal: nat, seal: Seal, gross: nat, fee: nat, rungs: nat)
    requires takerTotal >= gross + fee + Anchor(seal) && makerTotal >= SEAL_ANCHOR_SATS * rungs
    ensures var outputs := BuyOutputs(makerTotal, takerTotal, seal, gross, fee, rungs);
      && |outputs| > 0 && outputs[0] == Output(MakerHost, gross) && Paid(outputs, MakerHost) == gross
      && (var change := makerTotal - 546 * rungs; Paid(outputs, MakerChange) == if change > 546 then change else 0)
      && (var change := takerTotal - gross - fee - (if seal.Witness? then 546 else 0);
          Paid(outputs, TakerPayout) == if change > 546 then change else 0)
      && Paid(outputs, TakerReceive) == (if seal.Witness? then 546 else 0)
      && forall i: nat :: Paid(outputs, Rung(i)) == if i < rungs then 546 else 0
  {
    AllAnchors(rungs);
    PaidUnlessDust(MakerChange, makerTotal - SEAL_ANCHOR_SATS * rungs, MakerChange);
    PaidUnlessDust(TakerPayout, takerTotal - gross - fee - Anchor(seal), TakerPayout);
    BuyPaysRole(makerTotal, takerTotal, seal, gross, fee, rungs, MakerHost);
    BuyPaysRole(makerTotal, takerTotal, seal, gross, fee, rungs, MakerChange);
    BuyPaysRole(makerTotal, takerTotal, seal, gross, fee, rungs, TakerPayout);
    BuyPaysRole(makerTotal, takerTotal, seal, gross, fee, rungs, TakerReceive);
    forall i: nat {
      BuyPaysRole(makerTotal, takerTotal, seal, gross, fee, rungs, Rung(i));
    }
  }

  lemma {:induction false} BuyPaysRole(makerTotal: nat, takerTotal: nat, seal: Seal, gross: nat, fee: nat, rungs: nat, script: Script)
    ensures Paid(BuyOutputs(makerTotal, takerTotal, seal, gross, fee, rungs), script) == match script
      case MakerHost => gross
      case MakerChange => Paid(UnlessDust(MakerChange, SaturatingSub(makerTotal, SEAL_ANCHOR_SATS * rungs)), MakerChange)
      case Rung(i) => if i < rungs then Anchors(rungs)[i] else 0
      case TakerReceive => if seal.Witness? then SEAL_ANCHOR_SATS else 0
      case TakerPayout => Paid(UnlessDust(TakerPayout, TakerChange(takerTotal, gross, fee, seal)), TakerPayout)
  {
    var a, b := [Output(MakerHost, gross)], UnlessDust(MakerChange, SaturatingSub(makerTotal, SEAL_ANCHOR_SATS * rungs));
    var c, d := RungOutputs(Anchors(rungs)), if seal.Witness? then [Output(TakerReceive, SEAL_ANCHOR_SATS)] else [];
    var e := UnlessDust(TakerPayout, TakerChange(takerTotal, gross, fee, seal));
    PaidConcat(a, b, script);
    PaidConcat(a + b, c, script);
    PaidConcat(a + b + c, d, script);
    PaidConcat(a + b + c + d, e, script);
    PaidRungs(Anchors(rungs), script);
    PaidOne(Output(MakerHost, gross), script);
    PaidOne(Output(TakerReceive, SEAL_ANCHOR_SATS), script);
    PaidUnlessDust(MakerChange, SaturatingSub(makerTotal, SEAL_ANCHOR_SATS * rungs), script);
    PaidUnlessDust(TakerPayout, TakerChange(takerTotal, gross, fee, seal), script);
  }

  /** Conservation of BTC in a buy: inputs are outputs plus the quoted fee plus at most two dust amounts. */
  lemma BuyConserves(makerTotal: nat, takerTotal: nat, seal: Seal, gross: nat, fee: nat, rungs: nat)
    requires takerTotal >= gross + fee + Anchor(seal) && makerTotal >= SEAL_ANCHOR_SATS * rungs
    ensures var dust := Dropped(makerTotal - SEAL_ANCHOR_SATS * rungs) + Dropped(takerTotal - gross - fee - Anchor(seal));
      makerTotal + takerTotal == Sats(BuyOutputs(makerTotal, takerTotal, seal, gross, fee, rungs)) + fee + dust
        && dust <= 2 * DUST_LIMIT_SATS
  {
    var a, b := [Output(MakerHost, gross)], UnlessDust(MakerChange, makerTotal - SEAL_ANCHOR_SATS * rungs);
    var c, d := RungOutputs(Anchors(rungs)), if seal.Witness? then [Output(TakerReceive, SEAL_ANCHOR_SATS)] else [];
    var e := UnlessDust(TakerPayout, TakerChange(takerTotal, gross, fee, seal));
    SatsConcat(a, b);
    SatsConcat(a + b, c);
    SatsConcat(a + b + c, d);
    SatsConcat(a + b + c + d, e);
    RungOutputsMeaning(Anchors(rungs));
  }

  // The sell transaction.

  /** What the taker is paid: the price less the fee, its own anchors, less the anchor of its change. */
  function Payout(gross: nat, fee: nat, takerTotal: nat, change: Option<Seal>): nat {
    SaturatingSub(SaturatingAdd(SaturatingSub(gross, fee), takerTotal), ChangeAnchor(change))
  }

  function ChangeAnchor(change: Option<Seal>): nat {
    match change case None => 0 case Some(seal) => Anchor(seal)
  }

  function MakerChangeSats(makerTotal: nat, gross: nat): nat {
    SaturatingSub(SaturatingSub(makerTotal, gross), SEAL_ANCHOR_SATS)
  }

  function SellOutputs(makerTotal: nat, takerTotal: nat, change: Option<Seal>, gross: nat, fee: nat, rungs: seq<nat>): seq<Output> {
    [Output(MakerHost, SEAL_ANCHOR_SATS), Output(TakerPayout, Payout(gross, fee, takerTotal, change))]
      + UnlessDust(MakerChange, SaturatingSub(MakerChangeSats(makerTotal, gross), Total(rungs)))
      + RungOutputs(rungs)
      + (if change == Some(Witness) then [Output(TakerReceive, SEAL_ANCHOR_SATS)] else [])
  }

  /** The commitment host first, everything else in its order. */
  function HostFirst(outputs: seq<Output>): seq<Output> {
    Hosts(outputs, true) + Hosts(outputs, false)
  }

  function Hosts(outputs: seq<Output>, host: bool): seq<Output> {
    if |outputs| == 0 then []
    else
      var last := outputs[|outputs| - 1];
      Hosts(outputs[..|outputs| - 1], host) + if last.script.MakerHost? == host then [last] else []
  }

  /** Builds the outputs of a sell: the taker's payout, maker change, rungs, the maker's receive output (the
      commitment host), the taker's change anchor; the final ordering moves the host to the front. */
  method AssembleSell(makerInputs: seq<nat>, takerInputs: seq<nat>, change: Option<Seal>, gross: nat, fee: nat,
                      rungs: seq<nat>, prepared: nat) returns (r: Result<seq<Output>, BuildError>)
    requires gross + SEAL_ANCHOR_SATS < U64_RANGE && gross + Total(takerInputs) < U64_RANGE
    ensures r.Success? <==>
      && |rungs| == prepared && Total(makerInputs) >= gross + SEAL_ANCHOR_SATS
      && Total(rungs) <= Total(makerInputs) - gross - SEAL_ANCHOR_SATS
    ensures r.Success? ==> r.value == SellOutputs(Total(makerInputs), Total(takerInputs), change, gross, fee, rungs)
    ensures r.Success? ==> |r.value| > 0 && r.value[0] == Output(MakerHost, 546) && Paid(r.value, MakerHost) == 546
    ensures r.Success? ==> (
      var due := (if gross >= fee then gross - fee else 0) + Total(takerInputs);
      var anchor := if change == Some(Witness) then 546 else 0;
      Paid(r.value, TakerPayout) == if due >= anchor then due - anchor else 0)
    ensures r.Success? ==> (
      var remainder := Total(makerInputs) - gross - 546 - Total(rungs);
      Paid(r.value, MakerChange) == if remainder > 546 then remainder else 0)
    ensures r.Success? ==> Paid(r.value, TakerReceive) == if change == Some(Witness) then 546 else 0
    ensures r.Success? ==> forall i: nat :: Paid(r.value, Rung(i)) == if i < |rungs| then rungs[i] else 0
  {
    if |rungs| != prepared {
      return Failure(RungCount(|rungs|, prepared));
    }
    var makerTotal := Total(makerInputs);
    var required := SaturatingAdd(gross, SEAL_ANCHOR_SATS);
    if makerTotal < required {
      return Failure(UnderFunded(makerTotal, required));
    }
    var takerTotal := Total(takerInputs);
    var changeAnchor := ChangeAnchor(change);
    var payout := SaturatingSub(SaturatingAdd(SaturatingSub(gross, fee), takerTotal), changeAnchor);
    var makerChange := SaturatingSub(SaturatingSub(makerTotal, gross), SEAL_ANCHOR_SATS);
    var outputs := [Output(TakerPayout, payout)];
    var rungsTotal := Total(rungs);
    if rungsTotal > makerChange {
      return Failure(RungsExceedChange(rungsTotal, makerChange));
    }
    var remainder := makerChange - rungsTotal;
    if remainder > DUST_LIMIT_SATS {
      outputs := outputs + [Output(MakerChange, remainder)];
    }
    assert outputs == [Output(TakerPayout, payout)] + UnlessDust(MakerChange, remainder);
    outputs := PushRungs(outputs, rungs, prepared);
    outputs := outputs + [Output(MakerHost, SEAL_ANCHOR_SATS)];
    if change == Some(Witness) {
      outputs := outputs + [Output(TakerReceive, changeAnchor)];
    }
    assert outputs == [Output(TakerPayout, payout)] + UnlessDust(MakerChange, remainder) + RungOutputs(rungs)
      + [Output(MakerHost, SEAL_ANCHOR_SATS)] + (if change == Some(Witness) then [Output(TakerReceive, SEAL_ANCHOR_SATS)] else []);
    SellOrder(Output(TakerPayout, payout), UnlessDust(MakerChange, remainder), rungs, change);
    SellOrdered(makerTotal, takerTotal, change, gross, fee, rungs);
    SellPays(makerTotal, takerTotal, change, gross, fee, rungs);
    r := Success(HostFirst(outputs));
  }

  lemma {:induction false} HostsConcat(s: seq<Output>, t: seq<Output>, host: bool)
    ensures Hosts(s + t, host) == Hosts(s, host) + Hosts(t, host)
  {
    if |t| == 0 {
      assert s + t == s;
    } else {
      assert (s + t)[..|s + t| - 1] == s + t[..|t| - 1];
      HostsConcat(s, t[..|t| - 1], host);
    }
  }

  lemma {:induction false} NoHosts(outputs: seq<Output>)
    requires NoHost(outputs)
    ensures Hosts(outputs, true) == [] && Hosts(outputs, false) == outputs
  {
    if |outputs| > 0 {
      NoHosts(outputs[..|outputs| - 1]);
    }
  }

  ghost predicate NoHost(outputs: seq<Output>) {
    forall i :: 0 <= i < |outputs| ==> !outputs[i].script.MakerHost?
  }

  lemma MovesHost(before: seq<Output>, host: Output, after: seq<Output>)
    requires NoHost(before) && host.script.MakerHost? && NoHost(after)
    ensures HostFirst(before + [host] + after) == [host] + before + after
  {
    NoHosts(before);
    NoHosts(after);
    assert [host][..0] == [];
    assert Hosts([host], true) == [host] && Hosts([host], false) == [];
    HostsConcat(before + [host], after, true);
    HostsConcat(before, [host], true);
    HostsConcat(before + [host], after, false);
    HostsConcat(before, [host], false);
  }

  lemma {:induction false} SellOrder(payout: Output, remainder: seq<Output>, rungs: seq<nat>, change: Option<Seal>)
    requires payout.script.TakerPayout? && forall i :: 0 <= i < |remainder| ==> remainder[i].script.MakerChange?
    ensures var receive := if change == Some(Witness) then [Output(TakerReceive, SEAL_ANCHOR_SATS)] else [];
      HostFirst([payout] + remainder + RungOutputs(rungs) + [Output(MakerHost, SEAL_ANCHOR_SATS)] + receive)
        == [Output(MakerHost, SEAL_ANCHOR_SATS)] + ([payout] + remainder + RungOutputs(rungs)) + receive
  {
    var receive := if change == Some(Witness) then [Output(TakerReceive, SEAL_ANCHOR_SATS)] else [];
    RungOutputsMeaning(rungs);
    assert NoHost([payout] + remainder) && NoHost(RungOutputs(rungs));
    MovesHost([payout] + remainder + RungOutputs(rungs), Output(MakerHost, SEAL_ANCHOR_SATS), receive);
  }

  /** Who gets what of a sell: the maker an anchor to receive on, its rungs, and what its inputs hold beyond price,
      anchor and rungs unless that is dust; the taker the price less the fee, its own inputs, less the anchor of its
      change, which it gets instead. */
  lemma {:induction false} SellPays(makerTotal: nat, takerTotal: nat, change: Option<Seal>, gross: nat, fee: nat, rungs: seq<nat>)
    requires gross + takerTotal < U64_RANGE
    requires makerTotal >= gross + SEAL_ANCHOR_SATS && Total(rungs) <= makerTotal - gross - SEAL_ANCHOR_SATS
    ensures var outputs := SellOutputs(makerTotal, takerTotal, change, gross, fee, rungs);
      && |outputs| > 0 && outputs[0] == Output(MakerHost, 546) && Paid(outputs, MakerHost) == 546
      && (var due := (if gross >= fee then gross - fee else 0) + takerTotal;
          var anchor := if change == Some(Witness) then 546 else 0;
          Paid(outputs, TakerPayout) == if due >= anchor then due - anchor else 0)
      && (var remainder := makerTotal - gross - 546 - Total(rungs);
          Paid(outputs, MakerChange) == if remainder > 546 then remainder else 0)
      && Paid(outputs, TakerReceive) == (if change == Some(Witness) then 546 else 0)
      && forall i: nat :: Paid(outputs, Rung(i)) == if i < |rungs| then rungs[i] else 0
  {
    PaidUnlessDust(MakerChange, makerTotal - gross - SEAL_ANCHOR_SATS - Total(rungs), MakerChange);
    SellPaysRole(makerTotal, takerTotal, change, gross, fee, rungs, MakerHost);
    SellPaysRole(makerTotal, takerTotal, change, gross, fee, rungs, MakerChange);
    SellPaysRole(makerTotal, takerTotal, change, gross, fee, rungs, TakerPayout);
    SellPaysRole(makerTotal, takerTotal, change, gross, fee, rungs, TakerReceive);
    forall i: nat {
      SellPaysRole(makerTotal, takerTotal, change, gross, fee, rungs, Rung(i));
    }
  }

  lemma {:induction false} SellPaysRole(makerTotal: nat, takerTotal: nat, change: Option<Seal>, gross: nat, fee: nat, rungs: seq<nat>,
                                       script: Script)
    ensures Paid(SellOutputs(makerTotal, takerTotal, change, gross, fee, rungs), script) == match script
      case MakerHost => SEAL_ANCHOR_SATS
      case MakerChange =>
        Paid(UnlessDust(MakerChange, SaturatingSub(MakerChangeSats(makerTotal, gross), Total(rungs))), MakerChange)
      case Rung(i) => if i < |rungs| then rungs[i] else 0
      case TakerReceive => if change == Some(Witness) then SEAL_ANCHOR_SATS else 0
      case TakerPayout => Payout(gross, fee, takerTotal, change)
  {
    var host, payout := Output(MakerHost, SEAL_ANCHOR_SATS), Output(TakerPayout, Payout(gross, fee, takerTotal, change));
    var b := UnlessDust(MakerChange, SaturatingSub(MakerChangeSats(makerTotal, gross), Total(rungs)));
    var c, d := RungOutputs(rungs), if change == Some(Witness) then [Output(TakerReceive, SEAL_ANCHOR_SATS)] else [];
    assert [host, payout] == [host] + [payout];
    PaidConcat([host], [payout], script);
    PaidConcat([host, payout], b, script);
    PaidConcat([host, payout] + b, c, script);
    PaidConcat([host, payout] + b + c, d, script);
    PaidRungs(rungs, script);
    PaidOne(host, script);
    PaidOne(payout, script);
    PaidOne(Output(TakerReceive, SEAL_ANCHOR_SATS), script);
    PaidUnlessDust(MakerChange, SaturatingSub(MakerChangeSats(makerTotal, gross), Total(rungs)), script);
  }

  lemma {:induction false} SellOrdered(makerTotal: nat, takerTotal: nat, change: Option<Seal>, gross: nat, fee: nat, rungs: seq<nat>)
    ensures var remainder := UnlessDust(MakerChange, SaturatingSub(MakerChangeSats(makerTotal, gross), Total(rungs)));
      var receive := if change == Some(Witness) then [Output(TakerReceive, SEAL_ANCHOR_SATS)] else [];
      [Output(MakerHost, SEAL_ANCHOR_SATS)]
        + ([Output(TakerPayout, Payout(gross, fee, takerTotal, change))] + remainder + RungOutputs(rungs)) + receive
        == SellOutputs(makerTotal, takerTotal, change, gross, fee, rungs)
  {
  }

  /** Conservation of BTC in a sell, exactly: inputs are outputs plus the quoted fee plus at most one dust
      amount if and only if the price covers the fee and what is then left of it, with the taker's own
      anchors, covers the anchor of the taker's change. Saturation hides the shortfall otherwise. */
  lemma {:induction false} SellConservesIff(makerTotal: nat, takerTotal: nat, change: Option<Seal>, gross: nat, fee: nat, rungs: seq<nat>)
    requires gross + takerTotal < U64_RANGE
    requires makerTotal >= gross + SEAL_ANCHOR_SATS && Total(rungs) <= makerTotal - gross - SEAL_ANCHOR_SATS
    ensures var dust := Dropped(makerTotal - gross - SEAL_ANCHOR_SATS - Total(rungs));
      (makerTotal + takerTotal == Sats(SellOutputs(makerTotal, takerTotal, change, gross, fee, rungs)) + fee + dust) <==>
        (gross >= fee && gross - fee + takerTotal >= ChangeAnchor(change))
  {
    var a := [Output(MakerHost, SEAL_ANCHOR_SATS), Output(TakerPayout, Payout(gross, fee, takerTotal, change))];
    var b, c := UnlessDust(MakerChange, makerTotal - gross - SEAL_ANCHOR_SATS - Total(rungs)), RungOutputs(rungs);
    var d := if change == Some(Witness) then [Output(TakerReceive, SEAL_ANCHOR_SATS)] else [];
    SatsConcat(a, b);
    SatsConcat(a + b, c);
    SatsConcat(a + b + c, d);
    RungOutputsMeaning(rungs);
    assert a[1..] == [a[1]];
  }

  /** Without those conditions the transaction may even overspend: a price of 300 sats, a fee of 200, no
      anchors from the taker and a change anchor to fund make outputs exceed inputs. */
  lemma SellMayOverspend()
    ensures Sats(SellOutputs(846, 0, Some(Witness), 300, 200, [])) > 846 + 0
  {
    var out := SellOutputs(846, 0, Some(Witness), 300, 200, []);
    assert out == [Output(MakerHost, 546), Output(TakerPayout, 0), Output(TakerReceive, 546)];
    assert out[1..] == [Output(TakerPayout, 0), Output(TakerReceive, 546)];
    assert out[1..][1..] == [Output(TakerReceive, 546)];
  }

  // The RGB side.

  /** The first output of a role, where the seal of its RGB will point. */
  function Find(outputs: seq<Output>, script: Script): (r: Option<nat>)
    ensures r.Some? ==> r.value < |outputs| && outputs[r.value].script == script
    ensures r.None? ==> forall i :: 0 <= i < |outputs| ==> outputs[i].script != script
  {
    if |outputs| == 0 then None
    else if outputs[0].script == script then Some(0)
    else match Find(outputs[1..], script) case None => None case Some(i) => Some(i + 1)
  }

  function Amounts(s: seq<Assigned>): nat {
    if |s| == 0 then 0 else s[0].amount + Amounts(s[1..])
  }

  lemma {:induction false} AmountsConcat(s: seq<Assigned>, t: seq<Assigned>)
    ensures Amounts(s + t) == Amounts(s) + Amounts(t)
  {
    if |s| == 0 {
      assert s + t == t;
    } else {
      assert (s + t)[1..] == s[1..] + t;
      AmountsConcat(s[1..], t);
    }
  }

  lemma {:induction false} AmountsNext(s: seq<Assigned>, a: Assigned)
    ensures Amounts(s + [a]) == Amounts(s) + a.amount
  {
    AmountsConcat(s, [a]);
    assert [a][1..] == [];
  }

  /** The loop that adds up the allocations spent. */
  method SumAllocations(allocations: seq<nat>) returns (sum: nat)
    requires Total(allocations) < U64_RANGE
    ensures sum == Total(allocations)
  {
    sum := 0;
    for i := 0 to |allocations|
      invariant sum == Total(allocations[..i])
    {
      assert allocations[..i + 1] == allocations[..i] + [allocations[i]];
      assert allocations == allocations[..i + 1] + allocations[i + 1..];
      TotalConcat(allocations[..i], [allocations[i]]);
      TotalConcat(allocations[..i + 1], allocations[i + 1..]);
      sum := SaturatingAdd(sum, allocations[i]);
    }
    assert allocations[..|allocations|] == allocations;
  }

  /** Assigns what a buy delivers to the taker and the change to its rungs and the host. With outputs as
      `AssembleBuy` made them no output is ever missing. */
  method BuildBuyTransition(allocations: seq<nat>, amount: nat, changeRungs: seq<nat>, seal: Seal,
                            outputs: seq<Output>, prepared: nat) returns (r: Result<seq<Assigned>, BuildError>)
    requires Total(allocations) < U64_RANGE
    requires Find(outputs, MakerHost).Some? && (seal.Witness? ==> Find(outputs, TakerReceive).Some?)
    requires forall i :: 0 <= i < prepared ==> Find(outputs, Rung(i)).Some?
    ensures r.Success? <==>
      && |changeRungs| == prepared && Total(allocations) >= amount
      && (if Total(allocations) == amount then |changeRungs| == 0 else Total(changeRungs) < Total(allocations) - amount)
    ensures r.Success? ==> Amounts(r.value) == Total(allocations)
    ensures r.Success? ==> r.value == BuyAssigned(Total(allocations), amount, changeRungs, seal, outputs)
    ensures r.Success? ==> |r.value| == if Total(allocations) == amount then 1 else |changeRungs| + 2
    ensures r.Success? ==> r.value[0].amount == amount && At(outputs, r.value[0], seal, TakerReceive)
    ensures r.Success? && Total(allocations) > amount ==>
      && (forall i :: 0 <= i < |changeRungs| ==>
            r.value[i + 1].amount == changeRungs[i] && At(outputs, r.value[i + 1], Witness, Rung(i)))
      && At(outputs, r.value[|changeRungs| + 1], Witness, MakerHost)
      && r.value[|changeRungs| + 1].amount == Total(allocations) - amount - Total(changeRungs)
  {
    if |changeRungs| != prepared {
      return Failure(RungCount(|changeRungs|, prepared));
    }
    var payoutVout := Find(outputs, MakerHost).value;
    var sum := SumAllocations(allocations);
    if sum < amount {
      return Failure(AllocationsShort(sum, amount));
    }
    var states := [ToTaker(seal, outputs, amount)];
    assert states[1..] == [];
    if sum > amount {
      var change := sum - amount;
      var rungsTotal := Total(changeRungs);
      if rungsTotal >= change {
        return Failure(RungsExceedChange(rungsTotal, change));
      }
      states := AssignRungs(states, changeRungs, outputs);
      AmountsNext(states, Revealed(payoutVout, change - rungsTotal));
      states := states + [Revealed(payoutVout, change - rungsTotal)];
    } else if |changeRungs| > 0 {
      return Failure(RungsWithoutChange);
    }
    assert states == BuyAssigned(sum, amount, changeRungs, seal, outputs);
    BuyAssignedMeaning(sum, amount, changeRungs, seal, outputs);
    r := Success(states);
  }

  method AssignRungs(states: seq<Assigned>, rungs: seq<nat>, outputs: seq<Output>) returns (r: seq<Assigned>)
    requires forall i :: 0 <= i < |rungs| ==> Find(outputs, Rung(i)).Some?
    ensures r == states + RungsAssigned(rungs, outputs)
    ensures Amounts(r) == Amounts(states) + Total(rungs)
  {
    r := states;
    for i := 0 to |rungs|
      invariant r == states + RungsAssigned(rungs[..i], outputs)
      invariant Amounts(r) == Amounts(states) + Total(rungs[..i])
    {
      assert rungs[..i + 1][..i] == rungs[..i] && rungs[..i + 1] == rungs[..i] + [rungs[i]];
      TotalConcat(rungs[..i], [rungs[i]]);
      AmountsNext(r, Revealed(VoutOf(outputs, Rung(i)), rungs[i]));
      r := r + [Revealed(Find(outputs, Rung(i)).value, rungs[i])];
    }
    assert rungs[..|rungs|] == rungs;
  }

  function VoutOf(outputs: seq<Output>, script: Script): nat {
    match Find(outputs, script) case None => 0 case Some(i) => i
  }

  function ToTaker(seal: Seal, outputs: seq<Output>, amount: nat): Assigned {
    if seal.Blinded? then Concealed(amount) else Revealed(VoutOf(outputs, TakerReceive), amount)
  }

  function RungsAssigned(amounts: seq<nat>, outputs: seq<Output>): seq<Assigned> {
    if |amounts| == 0 then []
    else
      var n := |amounts| - 1;
      RungsAssigned(amounts[..n], outputs) + [Revealed(VoutOf(outputs, Rung(n)), amounts[n])]
  }

  /** The amount is concealed for an output the party has already, or sealed to this transaction's output of the
      role. */
  predicate At(outputs: seq<Output>, a: Assigned, seal: Seal, script: Script) {
    if seal.Blinded? then a.Concealed? else a.Revealed? && a.vout < |outputs| && outputs[a.vout].script == script
  }

  lemma {:induction false} RungsAssignedMeaning(amounts: seq<nat>, outputs: seq<Output>)
    requires forall i :: 0 <= i < |amounts| ==> Find(outputs, Rung(i)).Some?
    ensures |RungsAssigned(amounts, outputs)| == |amounts|
    ensures forall i :: 0 <= i < |amounts| ==>
      var a := RungsAssigned(amounts, outputs)[i]; a.amount == amounts[i] && At(outputs, a, Witness, Rung(i))
  {
    if |amounts| > 0 {
      RungsAssignedMeaning(amounts[..|amounts| - 1], outputs);
    }
  }

  /** The taker's amount, each rung on its own output, and the rest of the change on the host. */
  function BuyAssigned(sum: nat, amount: nat, rungs: seq<nat>, seal: Seal, outputs: seq<Output>): seq<Assigned> {
    var delivered := [ToTaker(seal, outputs, amount)];
    if sum <= amount then delivered
    else
      var remainder := SaturatingSub(sum - amount, Total(rungs));
      delivered + RungsAssigned(rungs, outputs) + [Revealed(VoutOf(outputs, MakerHost), remainder)]
  }

  lemma {:induction false} BuyAssignedMeaning(sum: nat, amount: nat, rungs: seq<nat>, seal: Seal, outputs: seq<Output>)
    requires Find(outputs, MakerHost).Some? && (seal.Witness? ==> Find(outputs, TakerReceive).Some?)
    requires forall i :: 0 <= i < |rungs| ==> Find(outputs, Rung(i)).Some?
    requires sum > amount ==> Total(rungs) < sum - amount
    ensures var states := BuyAssigned(sum, amount, rungs, seal, outputs);
      && |states| == (if sum <= amount then 1 else |rungs| + 2)
      && states[0].amount == amount && At(outputs, states[0], seal, TakerReceive)
      && (sum > amount ==>
        && (forall i :: 0 <= i < |rungs| ==>
              states[i + 1].amount == rungs[i] && At(outputs, states[i + 1], Witness, Rung(i)))
        && At(outputs, states[|rungs| + 1], Witness, MakerHost)
        && states[|rungs| + 1].amount == sum - amount - Total(rungs))
  {
    RungsAssignedMeaning(rungs, outputs);
    var states := BuyAssigned(sum, amount, rungs, seal, outputs);
    if sum > amount {
      forall i | 0 <= i < |rungs|
        ensures states[i + 1] == RungsAssigned(rungs, outputs)[i]
      {
      }
    }
  }

  function SellAssigned(sum: nat, deliver: nat, change: Option<Seal>, outputs: seq<Output>): seq<Assigned> {
    var delivered := [Revealed(VoutOf(outputs, MakerHost), deliver)];
    if sum > deliver && change.Some? then delivered + [ToTaker(change.value, outputs, sum - deliver)] else delivered
  }

  /** Assigns what a sell delivers to the maker's receive output, and any surplus to the taker's change. */
  method BuildSellTransition(allocations: seq<nat>, deliver: nat, change: Option<Seal>, outputs: seq<Output>)
      returns (r: Result<seq<Assigned>, BuildError>)
    requires Total(allocations) < U64_RANGE
    requires Find(outputs, MakerHost).Some? && (change == Some(Witness) ==> Find(outputs, TakerReceive).Some?)
    ensures r.Success? <==> Total(allocations) >= deliver && (Total(allocations) > deliver ==> change.Some?)
    ensures r.Success? ==> Amounts(r.value) == Total(allocations)
    ensures r.Success? ==> r.value == SellAssigned(Total(allocations), deliver, change, outputs)
    ensures r.Success? ==> |r.value| == if Total(allocations) == deliver then 1 else 2
    ensures r.Success? ==> r.value[0].amount == deliver && At(outputs, r.value[0], Witness, MakerHost)
    ensures r.Success? && Total(allocations) > deliver ==>
      r.value[1].amount == Total(allocations) - deliver && At(outputs, r.value[1], change.value, TakerReceive)
  {
    var sum := SumAllocations(allocations);
    if sum < deliver {
      return Failure(AllocationsShort(sum, deliver));
    }
    var states := [Revealed(Find(outputs, MakerHost).value, deliver)];
    assert states[1..] == [];
    var surplus := sum - deliver;
    if surplus > 0 {
      if change.None? {
        return Failure(ChangeInvoiceRequired(surplus));
      }
      AmountsNext(states, ToTaker(change.value, outputs, surplus));
      states := states + [ToTaker(change.value, outputs, surplus)];
    }
    r := Success(states);
  }
}
