/** Quote totals and advertised depth (crates/rfq-maker/src/lib.rs:69-122, 564-618). */
module Pricing {
  import opened Arithmetic
  import opened Options
  import opened Ordering
  import opened Store
  import opened Coins
  import opened CoinSelect
  import opened CoinSelectProperties
  import Swap

  datatype Side = Buy | Sell

  /** A standing order: sats per whole token, the token's decimals, the largest single quote. */
  datatype PriceEntry = PriceEntry(asset: string, side: Side, price: nat, precision: nat, maxSize: nat)

  datatype OrderPrice = OrderPrice(entry: PriceEntry, availableSize: nat)

  datatype PriceLookup = Price(price: nat, precision: nat) | Decline | NoOrder

  function Pow10(n: nat): (p: nat)
    ensures p > 0
  {
    if n == 0 then 1 else 10 * Pow10(n - 1)
  }

  /** One whole token at precision `n` is `10^n` of its smallest units. */
  lemma Pow10Meaning(n: nat)
    ensures Pow10(0) == 1 && Pow10(1) == 10 && Pow10(n + 1) == 10 * Pow10(n)
    ensures n == 8 ==> Pow10(n) == 100_000_000
  {
    if n == 8 {
      assert Pow10(4) == 10_000;
    }
  }

  function Capped(x: nat): nat {
    if x < U64_RANGE then x else U64_RANGE - 1
  }

  /** `price * amount / 10^precision`, rounded against the taker. */
  function QuoteTotal(price: nat, amount: nat, precision: nat, roundUp: bool): nat {
    if roundUp then Capped(Ceil(Times(amount, price), Pow10(precision)))
    else Capped(Floor(Times(amount, price), Pow10(precision)))
  }

  /** `sats * 10^precision / price`, rounded down. */
  function UnitsForSats(price: nat, sats: nat, precision: nat): nat {
    if price == 0 then 0 else Capped(Floor(Times(sats, Pow10(precision)), price))
  }

  /** The two conversions fit together: a 64-bit amount is within the units some sats buy exactly if its exact
      price is within the sats, and then its total, rounded down, is too. */
  lemma {:induction false} UnitsMeaning(price: nat, sats: nat, precision: nat, amount: nat)
    requires price > 0 && amount < U64_RANGE
    ensures amount <= UnitsForSats(price, sats, precision) <==> Times(amount, price) <= Times(sats, Pow10(precision))
    ensures amount <= UnitsForSats(price, sats, precision) ==> QuoteTotal(price, amount, precision, false) <= sats
  {
    var scale := Pow10(precision);
    FloorMeaning(amount, Times(sats, scale), price);
    var total := Floor(Times(amount, price), scale);
    FloorMeaning(total, Times(amount, price), scale);
    TimesGrows(sats, total, scale);
  }

  /** A whole token costs its price, whichever way totals are rounded. */
  lemma {:induction false} WholeTokenCostsPrice(price: nat, precision: nat)
    requires price < U64_RANGE
    ensures QuoteTotal(price, Pow10(precision), precision, true) == price
    ensures QuoteTotal(price, Pow10(precision), precision, false) == price
  {
    var scale := Pow10(precision);
    TimesIsProduct(scale, price);
    TimesIsProduct(price, scale);
    var exact := Times(scale, price);
    assert exact == Times(price, scale);
    FloorMeaning(price, exact, scale);
    FloorMeaning(price + 1, exact, scale);
    CeilMeaning(price, exact, scale);
    TimesGrows(price, price + 1, scale);
    RoundingNearest(exact, scale);
  }

  /** Rounding never costs the maker: what a buyer pays covers the exact price, what a seller is paid is
      covered by it, and the two are the nearest whole sats. */
  lemma {:induction false} RoundingFavoursMaker(price: nat, amount: nat, precision: nat)
    requires Ceil(Times(amount, price), Pow10(precision)) < U64_RANGE
    ensures var up, down := QuoteTotal(price, amount, precision, true), QuoteTotal(price, amount, precision, false);
      var scale := Pow10(precision);
      && Times(down, scale) <= amount * price <= Times(up, scale)
      && (forall t: nat :: amount * price <= Times(t, scale) ==> up <= t)
      && (forall t: nat :: Times(t, scale) <= amount * price ==> t <= down)
      && down <= up <= down + 1
  {
    TimesIsProduct(amount, price);
    RoundingNearest(Times(amount, price), Pow10(precision));
  }

  lemma {:induction false} RoundingNearest(x: nat, d: nat)
    requires d > 0
    ensures Times(Floor(x, d), d) <= x <= Times(Ceil(x, d), d) && Floor(x, d) <= Ceil(x, d) <= Floor(x, d) + 1
    ensures forall t: nat :: x <= Times(t, d) ==> Ceil(x, d) <= t
    ensures forall t: nat :: Times(t, d) <= x ==> t <= Floor(x, d)
  {
    var floor, ceil := Floor(x, d), Ceil(x, d);
    CeilMeaning(ceil, x, d);
    CeilMeaning(floor + 1, x, d);
    FloorMeaning(floor, x, d);
    FloorMeaning(floor + 1, x, d);
    TimesGrows(ceil, floor, d);
    forall t: nat
      ensures x <= Times(t, d) ==> ceil <= t
      ensures Times(t, d) <= x ==> t <= floor
    {
      CeilMeaning(t, x, d);
      FloorMeaning(t, x, d);
    }
  }

  /** Splitting a request never pays: two buys cost at least as much as one, two sells bring at most as much. */
  lemma SplittingNeverPays(price: nat, a: nat, b: nat, precision: nat)
    requires Ceil(Times(a + b, price), Pow10(precision)) < U64_RANGE
    ensures QuoteTotal(price, a + b, precision, true) <= QuoteTotal(price, a, precision, true) + QuoteTotal(price, b, precision, true)
    ensures QuoteTotal(price, a, precision, false) + QuoteTotal(price, b, precision, false) <= QuoteTotal(price, a + b, precision, false)
  {
    TimesAdds(a, b, price);
    SplitRounding(Times(a, price), Times(b, price), Pow10(precision));
    RoundingNearest(Times(a + b, price), Pow10(precision));
  }

  lemma SplitRounding(x: nat, y: nat, d: nat)
    requires d > 0
    ensures Ceil(x + y, d) <= Ceil(x, d) + Ceil(y, d)
    ensures Floor(x, d) + Floor(y, d) <= Floor(x + y, d)
  {
    var cx, cy, fx, fy := Ceil(x, d), Ceil(y, d), Floor(x, d), Floor(y, d);
    CeilMeaning(cx, x, d);
    CeilMeaning(cy, y, d);
    TimesAdds(cx, cy, d);
    CeilMeaning(cx + cy, x + y, d);
    FloorMeaning(fx, x, d);
    FloorMeaning(fy, y, d);
    TimesAdds(fx, fy, d);
    FloorMeaning(fx + fy, x + y, d);
  }

  // Advertised depth.

  /** The order a quote is priced from: the first for its asset and side. */
  function FirstOrder(entries: seq<PriceEntry>, asset: string, side: Side): (r: Option<nat>)
    ensures r.Some? ==> r.value < |entries| && entries[r.value].asset == asset && entries[r.value].side == side
    ensures forall j :: 0 <= j < (if r.Some? then r.value else |entries|) ==>
      !(entries[j].asset == asset && entries[j].side == side)
  {
    if |entries| == 0 then None
    else if entries[0].asset == asset && entries[0].side == side then Some(0)
    else match FirstOrder(entries[1..], asset, side) case None => None case Some(i) => Some(i + 1)
  }

  function UnitPrice(entries: seq<PriceEntry>, asset: string, side: Side, amount: nat): PriceLookup {
    match FirstOrder(entries, asset, side)
    case None => NoOrder
    case Some(i) => if amount <= entries[i].maxSize then Price(entries[i].price, entries[i].precision) else Decline
  }

  /** What a request is priced at: by the first order for its asset and side, unless it asks for more than the order's
      largest size; without such an order, not at all. */
  lemma UnitPriceMeaning(entries: seq<PriceEntry>, asset: string, side: Side, amount: nat)
    ensures UnitPrice(entries, asset, side, amount) == NoOrder <==>
      forall j :: 0 <= j < |entries| ==> !(entries[j].asset == asset && entries[j].side == side)
    ensures forall i :: FirstAt(entries, asset, side, i) ==>
      UnitPrice(entries, asset, side, amount) ==
        if amount > entries[i].maxSize then Decline else Price(entries[i].price, entries[i].precision)
    ensures UnitPrice(entries, asset, side, amount) != NoOrder ==> exists i :: FirstAt(entries, asset, side, i)
  {
    if FirstOrder(entries, asset, side).Some? {
      assert FirstAt(entries, asset, side, FirstOrder(entries, asset, side).value);
    }
  }

  /** Order `i` is for the asset and side, and none before it is. */
  ghost predicate FirstAt(entries: seq<PriceEntry>, asset: string, side: Side, i: int) {
    && 0 <= i < |entries| && entries[i].asset == asset && entries[i].side == side
    && forall j :: 0 <= j < i ==> !(entries[j].asset == asset && entries[j].side == side)
  }

  /** The rows of an asset. */
  function OfAsset(asset: string, rows: seq<Utxo>): (r: seq<Utxo>)
    ensures OneAsset(asset, r)
  {
    if |rows| == 0 then [] else (if rows[0].asset == asset then [rows[0]] else []) + OfAsset(asset, rows[1..])
  }

  function Min(a: nat, b: nat): nat {
    if a <= b then a else b
  }

  /** What an order is advertised to fill. */
  function AvailableSize(e: PriceEntry, rgb: seq<Utxo>, btc: seq<Coin>): nat {
    if e.side.Buy? then Min(e.maxSize, Sum(Candidates(OfAsset(e.asset, rgb))))
    else if e.price > 0 then Min(e.maxSize, UnitsForSats(e.price, SaturatingSub(Sum(btc), Swap.SEAL_ANCHOR_SATS), e.precision))
    else 0
  }

  /** What is advertised: a buy up to the order's size and the available amount of the asset, a sell up to the order's
      size and what the BTC pool, less an anchor of 546 sats, pays at the exact price. */
  lemma {:induction false} AvailableSizeMeaning(e: PriceEntry, rgb: seq<Utxo>, btc: seq<Coin>, amount: nat)
    requires amount < U64_RANGE
    ensures e.side.Buy? ==>
      (amount <= AvailableSize(e, rgb, btc) <==> amount <= e.maxSize && amount <= Sum(Candidates(OfAsset(e.asset, rgb))))
    ensures e.side.Sell? && e.price == 0 ==> AvailableSize(e, rgb, btc) == 0
    ensures e.side.Sell? && e.price > 0 && Sum(btc) >= 546 ==>
      (amount <= AvailableSize(e, rgb, btc) <==>
        amount <= e.maxSize && amount * e.price <= Times(Sum(btc) - 546, Pow10(e.precision)))
    ensures e.side.Sell? && Sum(btc) < 546 && amount > 0 ==> amount > AvailableSize(e, rgb, btc)
  {
    if e.side.Sell? && e.price > 0 {
      var spendable := SaturatingSub(Sum(btc), Swap.SEAL_ANCHOR_SATS);
      UnitsMeaning(e.price, spendable, e.precision, amount);
      TimesIsProduct(amount, e.price);
      TimesGrows(0, amount, e.price);
    }
  }

  /** The price feed: one line per standing order, with the depth the inventory backs now. */
  method OrderPrices(entries: seq<PriceEntry>, rgb: seq<Utxo>, btc: seq<Coin>) returns (prices: seq<OrderPrice>)
    ensures |prices| == |entries|
    ensures forall i :: 0 <= i < |entries| ==> prices[i] == OrderPrice(entries[i], AvailableSize(entries[i], rgb, btc))
  {
    var btcAvailable := Sum(btc);
    prices := [];
    for i := 0 to |entries|
      invariant |prices| == i
      invariant forall j :: 0 <= j < i ==> prices[j] == OrderPrice(entries[j], AvailableSize(entries[j], rgb, btc))
    {
      var e := entries[i];
      var size: nat := 0;
      if e.side.Buy? {
        var have := AvailableOf(e.asset, rgb);
        size := Min(e.maxSize, have);
      } else if e.price > 0 {
        var spendable := SaturatingSub(btcAvailable, Swap.SEAL_ANCHOR_SATS);
        size := Min(e.maxSize, UnitsForSats(e.price, spendable, e.precision));
      }
      prices := prices + [OrderPrice(e, size)];
    }
  }

  lemma {:induction false} SumOfAsset(asset: string, rows: seq<Utxo>, i: nat)
    requires i < |rows|
    ensures Sum(Candidates(OfAsset(asset, rows[i..]))) ==
      Sum(Candidates(OfAsset(asset, rows[i + 1..]))) + if rows[i].asset == asset && rows[i].status.Available? then rows[i].amount else 0
  {
    assert rows[i..][1..] == rows[i + 1..];
    var rest := OfAsset(asset, rows[i + 1..]);
    if rows[i].asset == asset {
      assert ([rows[i]] + rest)[1..] == rest;
      SumConcat(Candidate(rows[i]), Candidates(rest));
    } else {
      assert [] + rest == rest;
    }
  }

  /** Adds up the available rows of an asset. */
  method AvailableOf(asset: string, rows: seq<Utxo>) returns (have: nat)
    ensures have == Sum(Candidates(OfAsset(asset, rows)))
  {
    have := 0;
    var i := |rows|;
    assert rows[|rows|..] == [];
    while i > 0
      invariant 0 <= i <= |rows| && have == Sum(Candidates(OfAsset(asset, rows[i..])))
    {
      i := i - 1;
      SumOfAsset(asset, rows, i);
      if rows[i].asset == asset && rows[i].status.Available? {
        have := have + rows[i].amount;
      }
    }
    assert rows[0..] == rows;
  }

  /** Every advertised sell is fillable from the pool it was computed from: the order prices it, and the pool
      covers the price and the maker's own anchor, so that largest-first selection succeeds. */
  lemma SellFillable(entries: seq<PriceEntry>, i: nat, rgb: seq<Utxo>, btc: seq<Coin>, amount: nat)
    requires i < |entries| && entries[i].side.Sell? && FirstOrder(entries, entries[i].asset, Sell) == Some(i)
    requires 0 < amount <= AvailableSize(entries[i], rgb, btc) && amount < U64_RANGE
    ensures UnitPrice(entries, entries[i].asset, Sell, amount) == Price(entries[i].price, entries[i].precision)
    ensures var required := QuoteTotal(entries[i].price, amount, entries[i].precision, false) + Swap.SEAL_ANCHOR_SATS;
      required <= Sum(btc) && Sum(Greedy(btc, required)) >= required
  {
    var e := entries[i];
    var spendable := SaturatingSub(Sum(btc), Swap.SEAL_ANCHOR_SATS);
    UnitsMeaning(e.price, spendable, e.precision, amount);
    TimesGrows(0, amount, e.price);
    GreedyFewest(btc, QuoteTotal(e.price, amount, e.precision, false) + Swap.SEAL_ANCHOR_SATS, []);
  }

  /** Every advertised buy is fillable likewise: the order prices it and selection of the asset's rows
      succeeds. */
  lemma {:induction false} BuyFillable(entries: seq<PriceEntry>, i: nat, rgb: seq<Utxo>, btc: seq<Coin>, amount: nat)
    requires i < |entries| && entries[i].side.Buy? && FirstOrder(entries, entries[i].asset, Buy) == Some(i)
    requires 0 < amount <= AvailableSize(entries[i], rgb, btc)
    ensures UnitPrice(entries, entries[i].asset, Buy, amount) == Price(entries[i].price, entries[i].precision)
    ensures Selected(entries[i].asset, amount, OfAsset(entries[i].asset, rgb)).Success?
  {
    SelectionSound(entries[i].asset, amount, OfAsset(entries[i].asset, rgb));
  }
}
