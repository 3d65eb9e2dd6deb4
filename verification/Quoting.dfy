/**
 Quoting end to end (crates/rfq-maker/src/lib.rs:1011-1112, 1510-1631): price the request from the standing
 orders, select from what the store lists as available, reserve the selection. Nothing comes in between here,
 so the first attempt wins; a lost race leaves the store as it was and is retried with what lost it excluded.
 */
module Quoting {
  import opened Options
  import opened Store
  import opened StoreRuns
  import opened Coins
  import opened CoinSelect
  import opened CoinSelectProperties
  import opened Pricing
  import opened Settlement
  import opened Arithmetic
  import Swap
  import opened Maker

  const QUOTE_TTL_MS := 30_000

  /** An available row of the asset, at its own outpoint. */
  predicate Offered(utxos: Utxos, asset: Option<string>, u: Utxo) {
    u.outpoint in utxos && utxos[u.outpoint] == u && u.status.Available? && (asset.None? || asset == Some(u.asset))
  }

  /** Exactly the offered rows, once each, in any order. */
  ghost predicate Listing(utxos: Utxos, asset: Option<string>, rows: seq<Utxo>) {
    && (forall i :: 0 <= i < |rows| ==> Offered(utxos, asset, rows[i]))
    && (forall i, j :: 0 <= i < j < |rows| ==> rows[i].outpoint != rows[j].outpoint)
    && (forall k :: k in utxos && Offered(utxos, asset, utxos[k]) ==> utxos[k] in rows)
  }

  method ListAvailable(utxos: Utxos, asset: Option<string>) returns (rows: seq<Utxo>)
    requires WellKeyed(utxos)
    ensures Listing(utxos, asset, rows)
  {
    rows := [];
    var todo := utxos.Keys;
    while todo != {}
      invariant todo <= utxos.Keys
      invariant forall i :: 0 <= i < |rows| ==> Offered(utxos, asset, rows[i]) && rows[i].outpoint !in todo
      invariant forall i, j :: 0 <= i < j < |rows| ==> rows[i].outpoint != rows[j].outpoint
      invariant forall k :: k in utxos && k !in todo && Offered(utxos, asset, utxos[k]) ==> utxos[k] in rows
      decreases |todo|
    {
      var k :| k in todo;
      todo := todo - {k};
      if Offered(utxos, asset, utxos[k]) {
        rows := rows + [utxos[k]];
      }
    }
  }

  lemma {:induction false} CandidateIsRow(rows: seq<Utxo>, o: Outpoint)
    requires o in Outpoints(Candidates(rows))
    ensures exists i :: 0 <= i < |rows| && rows[i].outpoint == o
  {
    if rows[0].outpoint != o {
      assert Outpoints(Candidates(rows)) == Outpoints(Candidate(rows[0])) + Outpoints(Candidates(rows[1..])) by {
        OutpointsOfFirst(rows);
      }
      if rows[0].status.Available? {
        SingleOutpoint(Coin(rows[0].amount, rows[0].outpoint));
      }
      CandidateIsRow(rows[1..], o);
      var i :| 0 <= i < |rows[1..]| && rows[1..][i].outpoint == o;
      assert rows[i + 1].outpoint == o;
    }
  }

  lemma {:induction false} OutpointsOfFirst(rows: seq<Utxo>)
    requires |rows| > 0
    ensures Outpoints(Candidates(rows)) == Outpoints(Candidate(rows[0])) + Outpoints(Candidates(rows[1..]))
  {
    var first, rest := Candidate(rows[0]), Candidates(rows[1..]);
    if rows[0].status.Available? {
      assert (first + rest)[1..] == rest && first[1..] == [];
    } else {
      assert first + rest == rest;
    }
  }

  /** What is selected from a listing can be reserved. */
  lemma {:induction false} ChosenReservable(utxos: Utxos, asset: Option<string>, rows: seq<Utxo>, chosen: seq<Outpoint>)
    requires Listing(utxos, asset, rows) && multiset(chosen) <= multiset(Outpoints(Candidates(rows)))
    ensures FirstBlocked(utxos, chosen).None?
  {
    forall o | o in chosen
      ensures Blocked(utxos, o).None?
    {
      assert o in multiset(chosen) && o in multiset(Outpoints(Candidates(rows)));
      CandidateIsRow(rows, o);
      var i :| 0 <= i < |rows| && rows[i].outpoint == o;
      assert Offered(utxos, asset, rows[i]);
    }
    FirstBlockedMeaning(utxos, chosen);
  }

  /** The answer to a buy request over the rows listed: no quote without a price or enough rows. */
  function Answer(entries: seq<PriceEntry>, asset: string, amount: nat, rows: seq<Utxo>): Result<Option<Selection>, SelectError> {
    if !UnitPrice(entries, asset, Buy, amount).Price? then Success(None)
    else match Selected(asset, amount, rows)
      case Success(selection) => Success(Some(selection))
      case Failure(Insufficient(_, _)) => Success(None)
      case Failure(e) => Failure(e)
  }

  /** A request is quoted exactly if a standing order prices it, it is not zero, and the rows cover it. */
  lemma {:induction false} QuotedIff(entries: seq<PriceEntry>, asset: string, amount: nat, rows: seq<Utxo>)
    requires OneAsset(asset, rows)
    ensures var r := Answer(entries, asset, amount, rows);
      && (r.Failure? <==> UnitPrice(entries, asset, Buy, amount).Price? && amount == 0)
      && (r.Success? && r.value.Some? <==>
            UnitPrice(entries, asset, Buy, amount).Price? && 0 < amount <= Sum(Candidates(rows)))
  {
    SelectionSound(asset, amount, rows);
  }

  /** Selecting from a listing and reserving the selection: uncontended, the reservation never fails. */
  method SelectAndReserve(m: Maker, rows: seq<Utxo>, rfq: string, quote: string, freshId: string, asset: string,
                          amount: nat, now: nat)
      returns (r: Result<Selection, SelectError>)
    requires m.Valid() && freshId !in m.owners && forall id :: id in m.owners ==> m.owners[id].quote != quote
    requires Listing(m.rgb.utxos, Some(asset), rows) && Sum(Candidates(rows)) < U64_RANGE
    modifies m`owners, m.rgb, m.btc
    ensures m.Valid() && r == Selected(asset, amount, rows)
    ensures r.Failure? ==> m.Abstract() == old(m.Abstract())
    ensures r.Success? ==>
      m.Abstract() == Next(old(m.Abstract()), Quote(Rgb, rfq, quote, r.value.chosen, now + QUOTE_TTL_MS, freshId, now))
    ensures m.btc.utxos == old(m.btc.utxos) && m.rgb.utxos.Keys == old(m.rgb.utxos).Keys
    ensures forall k :: k in m.rgb.utxos ==>
      var u := old(m.rgb.utxos)[k];
      m.rgb.utxos[k] ==
        if r.Success? && k in r.value.chosen then
          u.(status := Reserved(freshId, rfq, quote, now + 30_000), updatedAt := now)
        else u
    ensures r.Success? ==> forall o :: o in r.value.chosen ==> o in old(m.rgb.utxos) && old(m.rgb.utxos)[o].status.Available?
  {
    SelectionSound(asset, amount, rows);
    r := Select(asset, amount, rows);
    if r.Success? {
      ChosenReservable(m.rgb.utxos, Some(asset), rows, r.value.chosen);
      FirstBlockedMeaning(m.rgb.utxos, r.value.chosen);
      var reserved := m.ReserveFor(Rgb, rfq, quote, r.value.chosen, now + QUOTE_TTL_MS, freshId, now);
      assert reserved.Success?;
    }
  }

  /** A buy request: both pools age out, the available rows of the asset are listed, and, if the request is
      answered with a quote, exactly the rows selected are reserved for it until its deadline. */
  method RequestQuoteBuy(m: Maker, entries: seq<PriceEntry>, rfq: string, quote: string, freshId: string, asset: string,
                         amount: nat, now: nat)
      returns (r: Result<Option<Selection>, SelectError>, price: nat, ghost rows: seq<Utxo>)
    requires m.Valid() && freshId !in m.owners && forall id :: id in m.owners ==> m.owners[id].quote != quote
    requires WellKeyed(ExpiredAt(m.Abstract(), now).stores.rgb)
    requires forall rows :: Listing(ExpiredAt(m.Abstract(), now).stores.rgb, Some(asset), rows) ==>
      Sum(Candidates(rows)) < U64_RANGE
    modifies m`owners, m.rgb, m.btc
    ensures m.Valid() && Listing(ExpiredAt(old(m.Abstract()), now).stores.rgb, Some(asset), rows)
    ensures r == Answer(entries, asset, amount, rows)
    ensures var aged := ExpiredAt(old(m.Abstract()), now);
      m.Abstract() ==
        if r.Success? && r.value.Some? then
          Next(aged, Quote(Rgb, rfq, quote, r.value.value.chosen, now + QUOTE_TTL_MS, freshId, now))
        else aged
    ensures r.Success? && r.value.Some? ==>
      exists i :: (
        && FirstAt(entries, asset, Buy, i) && 0 < amount <= entries[i].maxSize
        && price == QuoteTotal(entries[i].price, amount, entries[i].precision, true))
    ensures m.rgb.utxos.Keys == old(m.rgb.utxos).Keys && m.btc.utxos.Keys == old(m.btc.utxos).Keys
    ensures forall k :: k in m.rgb.utxos ==>
      var u := old(m.rgb.utxos)[k];
      m.rgb.utxos[k] ==
        if r.Success? && r.value.Some? && k in r.value.value.chosen then
          u.(status := Reserved(freshId, rfq, quote, now + 30_000), updatedAt := now)
        else if u.status.Reserved? && u.status.expiresAt <= now then u.(status := Available, updatedAt := now)
        else u
    ensures forall k :: k in m.btc.utxos ==>
      var u := old(m.btc.utxos)[k];
      m.btc.utxos[k] ==
        if u.status.Reserved? && u.status.expiresAt <= now then u.(status := Available, updatedAt := now) else u
    ensures r.Success? && r.value.Some? ==> forall o :: o in r.value.value.chosen ==>
      && o in old(m.rgb.utxos)
      && var status := old(m.rgb.utxos)[o].status;
         status.Available? || (status.Reserved? && status.expiresAt <= now)
  {
    var _ := m.ExpireBoth(now);
    r, price, rows := QuoteBuyAged(m, entries, rfq, quote, freshId, asset, amount, now);
  }

  /** The rest of a buy request, once both pools have aged out. */
  method QuoteBuyAged(m: Maker, entries: seq<PriceEntry>, rfq: string, quote: string, freshId: string, asset: string,
                      amount: nat, now: nat)
      returns (r: Result<Option<Selection>, SelectError>, price: nat, ghost rows: seq<Utxo>)
    requires m.Valid() && freshId !in m.owners && forall id :: id in m.owners ==> m.owners[id].quote != quote
    requires WellKeyed(m.rgb.utxos)
    requires forall rows :: Listing(m.rgb.utxos, Some(asset), rows) ==> Sum(Candidates(rows)) < U64_RANGE
    modifies m`owners, m.rgb, m.btc
    ensures m.Valid() && Listing(old(m.rgb.utxos), Some(asset), rows)
    ensures r == Answer(entries, asset, amount, rows)
    ensures m.Abstract() ==
      if r.Success? && r.value.Some? then
        Next(old(m.Abstract()), Quote(Rgb, rfq, quote, r.value.value.chosen, now + QUOTE_TTL_MS, freshId, now))
      else old(m.Abstract())
    ensures r.Success? && r.value.Some? ==>
      exists i :: (
        && FirstAt(entries, asset, Buy, i) && 0 < amount <= entries[i].maxSize
        && price == QuoteTotal(entries[i].price, amount, entries[i].precision, true))
    ensures m.btc.utxos == old(m.btc.utxos) && m.rgb.utxos.Keys == old(m.rgb.utxos).Keys
    ensures forall k :: k in m.rgb.utxos ==>
      var u := old(m.rgb.utxos)[k];
      m.rgb.utxos[k] ==
        if r.Success? && r.value.Some? && k in r.value.value.chosen then
          u.(status := Reserved(freshId, rfq, quote, now + 30_000), updatedAt := now)
        else u
    ensures r.Success? && r.value.Some? ==> forall o :: o in r.value.value.chosen ==>
      o in old(m.rgb.utxos) && old(m.rgb.utxos)[o].status.Available?
  {
    price := 0;
    var listed := ListAvailable(m.rgb.utxos, Some(asset));
    rows := listed;
    UnitPriceMeaning(entries, asset, Buy, amount);
    var unit := UnitPrice(entries, asset, Buy, amount);
    if !unit.Price? {
      return Success(None), price, rows;
    }
    price := QuoteTotal(unit.price, amount, unit.precision, true);
    SelectionSound(asset, amount, listed);
    var selection := SelectAndReserve(m, listed, rfq, quote, freshId, asset, amount, now);
    match selection {
      case Success(chosen) => r := Success(Some(chosen));
      case Failure(Insufficient(_, _)) => r := Success(None);
      case Failure(e) => r := Failure(e);
    }
  }

  /** What a sell of the amount takes from the BTC pool: the price and the maker's own anchor. */
  function SellRequired(price: nat, precision: nat, amount: nat): nat {
    SaturatingAdd(QuoteTotal(price, amount, precision, false), Swap.SEAL_ANCHOR_SATS)
  }

  function LargestFirstSelection(rows: seq<Utxo>, required: nat): BtcSelection {
    var picked := Greedy(Candidates(rows), required);
    BtcSelection(Outpoints(picked), required, Sum(picked))
  }

  /** The answer to a sell request over the BTC rows listed. */
  function SellAnswer(entries: seq<PriceEntry>, asset: string, amount: nat, rows: seq<Utxo>): Option<BtcSelection> {
    match UnitPrice(entries, asset, Sell, amount)
    case Price(price, precision) =>
      var required := SellRequired(price, precision, amount);
      if Sum(Candidates(rows)) < required then None else Some(LargestFirstSelection(rows, required))
    case _ => None
  }

  /** What the price feed advertises is quoted, as long as the pool it was computed from is the pool listed. */
  lemma {:induction false} AdvertisedSellQuoted(entries: seq<PriceEntry>, i: nat, rgb: seq<Utxo>, rows: seq<Utxo>, amount: nat)
    requires i < |entries| && entries[i].side.Sell? && FirstOrder(entries, entries[i].asset, Sell) == Some(i)
    requires 0 < amount <= AvailableSize(entries[i], rgb, Candidates(rows)) && Sum(Candidates(rows)) < U64_RANGE
    requires amount < U64_RANGE
    ensures SellAnswer(entries, entries[i].asset, amount, rows).Some?
    ensures SellAnswer(entries, entries[i].asset, amount, rows).value.totalChosenSats
         >= QuoteTotal(entries[i].price, amount, entries[i].precision, false) + Swap.SEAL_ANCHOR_SATS
  {
    SellFillable(entries, i, rgb, Candidates(rows), amount);
  }

  /** A sell is quoted exactly if an order prices it and the pool holds its price and 546 sats more: as the price is
      rounded down, if the exact price falls short of one sat above what the pool holds beyond the 546. */
  lemma {:induction false} SellQuotedIff(entries: seq<PriceEntry>, i: nat, asset: string, amount: nat, rows: seq<Utxo>)
    requires i < |entries| && FirstOrder(entries, asset, Sell) == Some(i)
    requires Sum(Candidates(rows)) < U64_RANGE - 1
    ensures SellAnswer(entries, asset, amount, rows).Some? <==>
      && amount <= entries[i].maxSize && Sum(Candidates(rows)) >= 546
      && amount * entries[i].price < Times(Sum(Candidates(rows)) - 546 + 1, Pow10(entries[i].precision))
  {
    var e, pool := entries[i], Sum(Candidates(rows));
    TimesIsProduct(amount, e.price);
    if pool >= 546 {
      FloorMeaning(pool - 546 + 1, Times(amount, e.price), Pow10(e.precision));
    }
  }

  /** So a sell somewhat above what is advertised may still be quoted: with 546 sats in the pool nothing is advertised,
      yet nine tenths of a sat's worth is bought, for no sats at all. */
  lemma {:induction false} QuotedBeyondAdvertised(entries: seq<PriceEntry>, rows: seq<Utxo>, rgb: seq<Utxo>)
    requires entries == [PriceEntry("a", Sell, 1, 1, 9)] && Sum(Candidates(rows)) == 546
    ensures AvailableSize(entries[0], rgb, Candidates(rows)) == 0
    ensures SellAnswer(entries, "a", 9, rows).Some?
  {
    assert FirstOrder(entries, "a", Sell) == Some(0);
    Pow10Meaning(0);
    AvailableSizeMeaning(entries[0], rgb, Candidates(rows), 1);
    assert Times(0, 10) == 0 && Times(1, 10) == 10;
    SellQuotedIff(entries, 0, "a", 9, rows);
  }

  /** A sell request: the largest available BTC rows that cover price and anchor are reserved, exactly if a
      standing order prices the amount and the pool covers them. */
  method RequestQuoteSell(m: Maker, entries: seq<PriceEntry>, rfq: string, quote: string, freshId: string, asset: string,
                          amount: nat, now: nat)
      returns (r: Option<BtcSelection>, price: nat, ghost rows: seq<Utxo>)
    requires m.Valid() && freshId !in m.owners && forall id :: id in m.owners ==> m.owners[id].quote != quote
    requires WellKeyed(ExpiredAt(m.Abstract(), now).stores.btc)
    requires forall rows :: Listing(ExpiredAt(m.Abstract(), now).stores.btc, None, rows) ==> Sum(Candidates(rows)) < U64_RANGE
    modifies m`owners, m.rgb, m.btc
    ensures m.Valid() && Listing(ExpiredAt(old(m.Abstract()), now).stores.btc, None, rows)
    ensures r == SellAnswer(entries, asset, amount, rows)
    ensures var aged := ExpiredAt(old(m.Abstract()), now);
      m.Abstract() ==
        if r.Some? then Next(aged, Quote(Btc, rfq, quote, r.value.chosen, now + QUOTE_TTL_MS, freshId, now)) else aged
    ensures r.Some? ==>
      exists i :: (
        && FirstAt(entries, asset, Sell, i) && amount <= entries[i].maxSize
        && price == QuoteTotal(entries[i].price, amount, entries[i].precision, false))
    ensures r.Some? ==> r.value.requestedSats == SaturatingAdd(price, 546) <= r.value.totalChosenSats
    ensures m.rgb.utxos.Keys == old(m.rgb.utxos).Keys && m.btc.utxos.Keys == old(m.btc.utxos).Keys
    ensures forall k :: k in m.btc.utxos ==>
      var u := old(m.btc.utxos)[k];
      m.btc.utxos[k] ==
        if r.Some? && k in r.value.chosen then
          u.(status := Reserved(freshId, rfq, quote, now + 30_000), updatedAt := now)
        else if u.status.Reserved? && u.status.expiresAt <= now then u.(status := Available, updatedAt := now)
        else u
    ensures forall k :: k in m.rgb.utxos ==>
      var u := old(m.rgb.utxos)[k];
      m.rgb.utxos[k] ==
        if u.status.Reserved? && u.status.expiresAt <= now then u.(status := Available, updatedAt := now) else u
    ensures r.Some? ==> forall o :: o in r.value.chosen ==>
      && o in old(m.btc.utxos)
      && var status := old(m.btc.utxos)[o].status;
         status.Available? || (status.Reserved? && status.expiresAt <= now)
  {
    var _ := m.ExpireBoth(now);
    r, price, rows := QuoteSellAged(m, entries, rfq, quote, freshId, asset, amount, now);
  }

  /** The rest of a sell request, once both pools have aged out. */
  method QuoteSellAged(m: Maker, entries: seq<PriceEntry>, rfq: string, quote: string, freshId: string, asset: string,
                       amount: nat, now: nat)
      returns (r: Option<BtcSelection>, price: nat, ghost rows: seq<Utxo>)
    requires m.Valid() && freshId !in m.owners && forall id :: id in m.owners ==> m.owners[id].quote != quote
    requires WellKeyed(m.btc.utxos)
    requires forall rows :: Listing(m.btc.utxos, None, rows) ==> Sum(Candidates(rows)) < U64_RANGE
    modifies m`owners, m.rgb, m.btc
    ensures m.Valid() && Listing(old(m.btc.utxos), None, rows)
    ensures r == SellAnswer(entries, asset, amount, rows)
    ensures m.Abstract() ==
      if r.Some? then
        Next(old(m.Abstract()), Quote(Btc, rfq, quote, r.value.chosen, now + QUOTE_TTL_MS, freshId, now))
      else old(m.Abstract())
    ensures r.Some? ==>
      exists i :: (
        && FirstAt(entries, asset, Sell, i) && amount <= entries[i].maxSize
        && price == QuoteTotal(entries[i].price, amount, entries[i].precision, false))
    ensures r.Some? ==> r.value.requestedSats == SaturatingAdd(price, 546) <= r.value.totalChosenSats
    ensures m.rgb.utxos == old(m.rgb.utxos) && m.btc.utxos.Keys == old(m.btc.utxos).Keys
    ensures forall k :: k in m.btc.utxos ==>
      var u := old(m.btc.utxos)[k];
      m.btc.utxos[k] ==
        if r.Some? && k in r.value.chosen then
          u.(status := Reserved(freshId, rfq, quote, now + 30_000), updatedAt := now)
        else u
    ensures r.Some? ==> forall o :: o in r.value.chosen ==> o in old(m.btc.utxos) && old(m.btc.utxos)[o].status.Available?
  {
    price := 0;
    var listed := ListAvailable(m.btc.utxos, None);
    rows := listed;
    UnitPriceMeaning(entries, asset, Sell, amount);
    match UnitPrice(entries, asset, Sell, amount) {
      case Price(unit, precision) =>
        price := QuoteTotal(unit, amount, precision, false);
        r := SelectAndReserveBtc(m, listed, rfq, quote, freshId, SaturatingAdd(price, Swap.SEAL_ANCHOR_SATS), now);
      case _ =>
        r := None;
    }
  }

  method SelectAndReserveBtc(m: Maker, rows: seq<Utxo>, rfq: string, quote: string, freshId: string, required: nat, now: nat)
      returns (r: Option<BtcSelection>)
    requires m.Valid() && freshId !in m.owners && forall id :: id in m.owners ==> m.owners[id].quote != quote
    requires Listing(m.btc.utxos, None, rows) && Sum(Candidates(rows)) < U64_RANGE
    modifies m`owners, m.rgb, m.btc
    ensures m.Valid() && (r.Some? <==> Sum(Candidates(rows)) >= required)
    ensures r.None? ==> m.Abstract() == old(m.Abstract())
    ensures r.Some? ==> r.value == LargestFirstSelection(rows, required)
    ensures r.Some? ==>
      m.Abstract() == Next(old(m.Abstract()), Quote(Btc, rfq, quote, r.value.chosen, now + QUOTE_TTL_MS, freshId, now))
    ensures r.Some? ==> r.value.requestedSats == required <= r.value.totalChosenSats
    ensures m.rgb.utxos == old(m.rgb.utxos) && m.btc.utxos.Keys == old(m.btc.utxos).Keys
    ensures forall k :: k in m.btc.utxos ==>
      var u := old(m.btc.utxos)[k];
      m.btc.utxos[k] ==
        if r.Some? && k in r.value.chosen then
          u.(status := Reserved(freshId, rfq, quote, now + 30_000), updatedAt := now)
        else u
    ensures r.Some? ==> forall o :: o in r.value.chosen ==> o in old(m.btc.utxos) && old(m.btc.utxos)[o].status.Available?
  {
    var selection := SelectLargestFirst(required, Candidates(rows));
    if selection.Failure? {
      return None;
    }
    ChosenReservable(m.btc.utxos, None, rows, selection.value.chosen);
    FirstBlockedMeaning(m.btc.utxos, selection.value.chosen);
    var reserved := m.ReserveFor(Btc, rfq, quote, selection.value.chosen, now + QUOTE_TTL_MS, freshId, now);
    assert reserved.Success?;
    r := Some(selection.value);
  }
}
