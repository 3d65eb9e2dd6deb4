/**
 The maker's request handlers (crates/rfq-maker/src/lib.rs) over two stores and the map of parked settlements.
 Each handler is shown to be a run of events of the settlement protocol, uninterrupted, so that everything
 `SettlementSafety` proves holds of it; what comes from backends and the chain is a parameter.
 */
module Maker {
  import opened Options
  import opened Store
  import opened StoreRuns
  import opened Settlement
  import opened SettlementSafety

  datatype SignError = NoSettlement | NotBuilt | Expired | Rejected

  datatype AcceptError = ReservationGone | BuildFailed

  /** The filter over a store's rows that collects a reservation's outpoints. */
  method RowsReservedBy(utxos: Utxos, id: string) returns (inputs: set<Outpoint>)
    ensures inputs == ReservedRows(utxos, id)
  {
    var todo := utxos.Keys;
    inputs := {};
    while todo != {}
      invariant todo <= utxos.Keys
      invariant forall k :: k in inputs <==> k in utxos && k !in todo && ReservedBy(utxos[k], id)
      decreases |todo|
    {
      var k :| k in todo;
      todo := todo - {k};
      if ReservedBy(utxos[k], id) {
        inputs := inputs + {k};
      }
    }
  }

  class Maker {
    const rgb: InventoryStore
    const btc: InventoryStore
    var parked: map<string, Entry>
    ghost var owners: map<string, Owner>
    ghost var drafts: set<Draft>
    ghost var swaps: seq<Swap>
    ghost var confirmed: set<string>

    /** The maker as a state of the protocol. */
    ghost function Abstract(): State
      reads this, rgb, btc
    {
      State(Stores(rgb.utxos, btc.utxos), owners, parked, drafts, swaps, confirmed)
    }

    ghost predicate Valid()
      reads this, rgb, btc
    {
      rgb != btc && Inv(Abstract())
    }

    function StoreOf(pool: Pool): InventoryStore {
      match pool case Rgb => rgb case Btc => btc
    }

    constructor (rgb: InventoryStore, btc: InventoryStore)
      requires rgb != btc
      requires forall k :: k in rgb.utxos ==> Id(rgb.utxos[k].status).None?
      requires forall k :: k in btc.utxos ==> Id(btc.utxos[k].status).None?
      ensures Valid() && Initial(Abstract()) && this.rgb == rgb && this.btc == btc
    {
      this.rgb, this.btc, parked := rgb, btc, map[];
      owners, drafts, swaps, confirmed := map[], {}, [], {};
      new;
      InitialInv(Abstract());
    }

    /** Both pools age out. */
    method ExpireBoth(now: nat) returns (released: nat)
      requires Valid()
      modifies rgb, btc
      ensures Valid()
      ensures Abstract() == Next(Next(old(Abstract()), Manage(Rgb, Expire(now), now)), Manage(Btc, Expire(now), now))
      ensures rgb.utxos.Keys == old(rgb.utxos).Keys
      ensures forall k :: k in rgb.utxos ==>
        var u := old(rgb.utxos)[k];
        rgb.utxos[k] ==
          if u.status.Reserved? && u.status.expiresAt <= now then u.(status := Available, updatedAt := now) else u
      ensures btc.utxos.Keys == old(btc.utxos).Keys
      ensures forall k :: k in btc.utxos ==>
        var u := old(btc.utxos)[k];
        btc.utxos[k] ==
          if u.status.Reserved? && u.status.expiresAt <= now then u.(status := Available, updatedAt := now) else u
    {
      MoveKeepsInv(Abstract(), Rgb, Expire(now), now);
      var a := rgb.ReleaseExpiredReservations(now);
      MoveKeepsInv(Abstract(), Btc, Expire(now), now);
      var b := btc.ReleaseExpiredReservations(now);
      released := a + b;
    }

    /** Claims the selected outpoints for a quote; a lost race changes nothing. */
    method ReserveFor(pool: Pool, rfq: string, quote: string, outpoints: seq<Outpoint>, expiresAt: nat, freshId: string,
                      now: nat)
        returns (r: Result<string, StoreError>)
      requires Valid() && freshId !in owners && forall id :: id in owners ==> owners[id].quote != quote
      modifies rgb, btc, this`owners
      ensures Valid()
      ensures r.Success? <==> FirstBlocked(old(StoreOf(pool).utxos), outpoints).None?
      ensures r.Success? ==> r.value == freshId
      ensures r.Success? ==> Enabled(old(Abstract()), Quote(pool, rfq, quote, outpoints, expiresAt, freshId, now))
      ensures r.Success? ==> Abstract() == Next(old(Abstract()), Quote(pool, rfq, quote, outpoints, expiresAt, freshId, now))
      ensures r.Failure? ==> Abstract() == old(Abstract())
      ensures r.Success? ==> owners == old(owners)[freshId := Owner(pool, quote, set o | o in outpoints)]
      ensures var other := OtherPool(pool); StoreOf(other).utxos == old(StoreOf(other).utxos)
      ensures var store := StoreOf(pool); store.utxos.Keys == old(store.utxos).Keys
      ensures var store := StoreOf(pool);
        forall k :: k in store.utxos ==>
          var u := old(store.utxos)[k];
          store.utxos[k] ==
            if r.Success? && k in outpoints then
              u.(status := Reserved(freshId, rfq, quote, expiresAt), updatedAt := now)
            else u
    {
      ghost var e := Quote(pool, rfq, quote, outpoints, expiresAt, freshId, now);
      ghost var before := Abstract();
      r := StoreOf(pool).Reserve(rfq, quote, outpoints, expiresAt, freshId, now);
      if r.Success? {
        owners := owners[freshId := Owner(pool, quote, set o | o in outpoints)];
        QuoteKeepsInv(before, e);
      }
    }

    method Forget(quote: string)
      requires Valid()
      modifies this`parked
      ensures Valid() && Abstract() == Next(old(Abstract()), Drop(quote))
    {
      ParkKeepsInv(Abstract(), Drop(quote));
      parked := parked - {quote};
    }

    method GiveUp(pool: Pool, id: string, now: nat)
      requires Valid()
      modifies rgb, btc
      ensures Valid() && Abstract() == Managed(old(Abstract()), pool, Release(id), now)
      ensures var other := OtherPool(pool); StoreOf(other).utxos == old(StoreOf(other).utxos)
      ensures var store := StoreOf(pool); store.utxos.Keys == old(store.utxos).Keys
      ensures var store := StoreOf(pool);
        forall k :: k in store.utxos ==>
          var u := old(store.utxos)[k];
          store.utxos[k] ==
            if u.status.Reserved? && u.status.reservation == id then u.(status := Available, updatedAt := now) else u
    {
      MoveKeepsInv(Abstract(), pool, Release(id), now);
      var _ := StoreOf(pool).MarkBroadcastFailed(id, now);
    }

    /** A settlement that can no longer be signed gives its reservation back. */
    method Abandon(quote: string, now: nat)
      requires Valid() && quote in parked
      modifies rgb, btc, this`parked
      ensures Valid()
      ensures Abstract() == Abandoned(old(Abstract()), quote, now)
      ensures parked == old(parked) - {quote}
      ensures var other := OtherPool(old(parked)[quote].pool); StoreOf(other).utxos == old(StoreOf(other).utxos)
      ensures var store := StoreOf(old(parked)[quote].pool); store.utxos.Keys == old(store.utxos).Keys
      ensures var store := StoreOf(old(parked)[quote].pool);
        forall k :: k in store.utxos ==>
          var u := old(store.utxos)[k];
          store.utxos[k] ==
            if u.status.Reserved? && u.status.reservation == old(parked)[quote].reservation then
              u.(status := Available, updatedAt := now)
            else u
    {
      GiveUp(parked[quote].pool, parked[quote].reservation, now);
      Forget(quote);
    }

    /** Broadcast and mark. The mark after the broadcast never fails. */
    method Publish(quote: string, txid: string, now: nat)
      requires Valid() && Signable(Abstract(), quote)
      modifies rgb, btc, this`swaps
      ensures Valid() && Abstract() == Next(old(Abstract()), Sign(quote, txid, now))
      ensures var other := OtherPool(parked[quote].pool); StoreOf(other).utxos == old(StoreOf(other).utxos)
      ensures var store := StoreOf(parked[quote].pool); store.utxos.Keys == old(store.utxos).Keys
      ensures var store := StoreOf(parked[quote].pool);
        forall k :: k in store.utxos ==>
          var u := old(store.utxos)[k];
          store.utxos[k] ==
            if u.status.Reserved? && u.status.reservation == parked[quote].reservation then
              u.(status := PendingBitcoinConfirm(u.status.reservation, txid), updatedAt := now)
            else u
    {
      var entry := parked[quote];
      var store := StoreOf(entry.pool);
      EventKeepsInv(Abstract(), Sign(quote, txid, now));
      LiveEntry(Abstract(), quote, entry);
      ghost var k :| k in entry.built.value;
      assert k in store.utxos && ReservedBy(store.utxos[k], entry.reservation);
      swaps := swaps + [Swap(entry.pool, entry.reservation, quote, txid, entry.built.value)];
      var marked := store.MarkPendingBitcoinConfirm(entry.reservation, txid, now);
      assert marked.Success?;
    }

    /** Broadcast, mark, forget. */
    method Settle(quote: string, txid: string, now: nat)
      requires Valid() && Signable(Abstract(), quote)
      modifies rgb, btc, this`parked, this`swaps
      ensures Valid()
      ensures Abstract() == Next(Next(old(Abstract()), Sign(quote, txid, now)), Drop(quote))
      ensures parked == old(parked) - {quote}
      ensures var other := OtherPool(old(parked)[quote].pool); StoreOf(other).utxos == old(StoreOf(other).utxos)
      ensures var store := StoreOf(old(parked)[quote].pool); store.utxos.Keys == old(store.utxos).Keys
      ensures var store := StoreOf(old(parked)[quote].pool);
        forall k :: k in store.utxos ==>
          var u := old(store.utxos)[k];
          store.utxos[k] ==
            if u.status.Reserved? && u.status.reservation == old(parked)[quote].reservation then
              u.(status := PendingBitcoinConfirm(u.status.reservation, txid), updatedAt := now)
            else u
    {
      Publish(quote, txid, now);
      Forget(quote);
    }

    /** `/sign`, with nothing in between its sections. Whether the signed transaction is the settlement's own,
        finalises and is broadcast comes from outside. */
    method SubmitSignedPsbt(quote: string, accepted: bool, txid: string, now: nat) returns (r: Result<string, SignError>)
      requires Valid()
      modifies rgb, btc, this`parked, this`swaps
      ensures Valid()
      ensures var aged := ExpiredAt(old(Abstract()), now);
        match r
        case Success(id) =>
          id == txid && accepted && Signable(aged, quote) && Abstract() == Next(Next(aged, Sign(quote, txid, now)), Drop(quote))
        case Failure(NoSettlement) => quote !in aged.parked && Abstract() == aged
        case Failure(NotBuilt) => quote in aged.parked && aged.parked[quote].built.None? && Abstract() == aged
        case Failure(Expired) => quote in aged.parked && !Signable(aged, quote) && Abstract() == Next(aged, Drop(quote))
        case Failure(Rejected) => !accepted && Signable(aged, quote) && Abstract() == Abandoned(aged, quote, now)
      ensures r == Failure(NoSettlement) <==> quote !in old(parked)
      ensures r == Failure(NotBuilt) <==> quote in old(parked) && old(parked)[quote].built.None?
      ensures r == Failure(Rejected) ==> !accepted
      ensures r.Success? ==> accepted && r.value == txid
      ensures r.Success? || r == Failure(Rejected) ==> exists k :: (
        var rows := old(StoreOf(parked[quote].pool).utxos);
        k in rows && rows[k].status.Reserved? && rows[k].status.quote == quote && rows[k].status.expiresAt > now)
      ensures r == Failure(Expired) ==> forall k ::
        var rows := old(StoreOf(parked[quote].pool).utxos);
        k in rows && rows[k].status.Reserved? && rows[k].status.quote == quote ==> rows[k].status.expiresAt <= now
      ensures parked == if r.Success? || r.error.Expired? || r.error.Rejected? then old(parked) - {quote} else old(parked)
      ensures rgb.utxos.Keys == old(rgb.utxos).Keys
      ensures forall k :: k in rgb.utxos ==>
        var u := old(rgb.utxos)[k];
        rgb.utxos[k] ==
          if u.status.Reserved? && u.status.expiresAt <= now then
            u.(status := Available, updatedAt := now)
          else if (r.Success? || r.error.Rejected?) && old(parked)[quote].pool.Rgb?
            && u.status.Reserved? && u.status.reservation == old(parked)[quote].reservation then
            u.(status := if r.Success? then PendingBitcoinConfirm(u.status.reservation, txid) else Available, updatedAt := now)
          else u
      ensures btc.utxos.Keys == old(btc.utxos).Keys
      ensures forall k :: k in btc.utxos ==>
        var u := old(btc.utxos)[k];
        btc.utxos[k] ==
          if u.status.Reserved? && u.status.expiresAt <= now then
            u.(status := Available, updatedAt := now)
          else if (r.Success? || r.error.Rejected?) && old(parked)[quote].pool.Btc?
            && u.status.Reserved? && u.status.reservation == old(parked)[quote].reservation then
            u.(status := if r.Success? then PendingBitcoinConfirm(u.status.reservation, txid) else Available, updatedAt := now)
          else u
    {
      if quote in parked {
        LiveAfterExpiry(StoreOf(parked[quote].pool).utxos, quote, now);
      }
      var _ := ExpireBoth(now);
      r := SubmitAged(quote, accepted, txid, now);
    }

    /** The rest of `/sign`, once both pools have aged out. */
    method SubmitAged(quote: string, accepted: bool, txid: string, now: nat) returns (r: Result<string, SignError>)
      requires Valid()
      modifies rgb, btc, this`parked, this`swaps
      ensures Valid()
      ensures match r
        case Success(id) =>
          && id == txid && accepted && Signable(old(Abstract()), quote)
          && Abstract() == Next(Next(old(Abstract()), Sign(quote, txid, now)), Drop(quote))
        case Failure(NoSettlement) => quote !in old(parked) && Abstract() == old(Abstract())
        case Failure(NotBuilt) => quote in old(parked) && old(parked)[quote].built.None? && Abstract() == old(Abstract())
        case Failure(Expired) =>
          quote in old(parked) && !Signable(old(Abstract()), quote) && Abstract() == Next(old(Abstract()), Drop(quote))
        case Failure(Rejected) =>
          !accepted && Signable(old(Abstract()), quote) && Abstract() == Abandoned(old(Abstract()), quote, now)
      ensures r == Failure(NoSettlement) <==> quote !in old(parked)
      ensures r == Failure(NotBuilt) <==> quote in old(parked) && old(parked)[quote].built.None?
      ensures r.Success? || r.error.Rejected? ==> Live(old(StoreOf(parked[quote].pool).utxos), quote)
      ensures r == Failure(Expired) ==> !Live(old(StoreOf(parked[quote].pool).utxos), quote)
      ensures parked == if r.Success? || r.error.Expired? || r.error.Rejected? then old(parked) - {quote} else old(parked)
      ensures r.Failure? && !r.error.Rejected? ==> rgb.utxos == old(rgb.utxos) && btc.utxos == old(btc.utxos)
      ensures rgb.utxos.Keys == old(rgb.utxos).Keys
      ensures forall k :: k in rgb.utxos ==>
        var u := old(rgb.utxos)[k];
        rgb.utxos[k] ==
          if (r.Success? || r.error.Rejected?) && old(parked)[quote].pool.Rgb?
            && u.status.Reserved? && u.status.reservation == old(parked)[quote].reservation then
            u.(status := if r.Success? then PendingBitcoinConfirm(u.status.reservation, txid) else Available, updatedAt := now)
          else u
      ensures btc.utxos.Keys == old(btc.utxos).Keys
      ensures forall k :: k in btc.utxos ==>
        var u := old(btc.utxos)[k];
        btc.utxos[k] ==
          if (r.Success? || r.error.Rejected?) && old(parked)[quote].pool.Btc?
            && u.status.Reserved? && u.status.reservation == old(parked)[quote].reservation then
            u.(status := if r.Success? then PendingBitcoinConfirm(u.status.reservation, txid) else Available, updatedAt := now)
          else u
    {
      if quote !in parked {
        return Failure(NoSettlement);
      }
      if parked[quote].built.None? {
        return Failure(NotBuilt);
      }
      var live := StoreOf(parked[quote].pool).FindReservationForQuote(quote);
      if live.None? {
        Forget(quote);
        return Failure(Expired);
      }
      if !accepted {
        Abandon(quote, now);
        return Failure(Rejected);
      }
      Settle(quote, txid, now);
      r := Success(txid);
    }

    /** The parked quotes without a live reservation. */
    method StaleQuotes() returns (stale: set<string>)
      ensures Stale(Abstract(), stale)
    {
      var entries := parked.Keys;
      stale := {};
      while entries != {}
        invariant entries <= parked.Keys
        invariant forall q :: q in stale <==> q in parked && q !in entries && !Live(StoreOf(parked[q].pool).utxos, q)
        decreases |entries|
      {
        var q :| q in entries;
        entries := entries - {q};
        var live := StoreOf(parked[q].pool).FindReservationForQuote(q);
        if live.None? {
          stale := stale + {q};
        }
      }
    }

    method Prune()
      requires Valid()
      modifies this`parked
      ensures Valid() && Abstract() == Pruned(old(Abstract()))
    {
      var stale := StaleQuotes();
      PrunedKeepsInv(Abstract(), stale);
      parked := parked - stale;
    }

    /** The cleanup: both pools age out, and every settlement without a live reservation is forgotten, no other. */
    method ReleaseExpiredReservations(now: nat) returns (released: nat)
      requires Valid()
      modifies rgb, btc, this`parked
      ensures Valid() && Abstract() == Pruned(ExpiredAt(old(Abstract()), now))
      ensures forall q :: q in parked <==>
        q in old(parked) && exists k ::
          var rows := old(StoreOf(parked[q].pool).utxos);
          k in rows && rows[k].status.Reserved? && rows[k].status.quote == q && rows[k].status.expiresAt > now
      ensures forall q :: q in parked ==> parked[q] == old(parked)[q]
      ensures rgb.utxos.Keys == old(rgb.utxos).Keys
      ensures forall k :: k in rgb.utxos ==>
        var u := old(rgb.utxos)[k];
        rgb.utxos[k] ==
          if u.status.Reserved? && u.status.expiresAt <= now then u.(status := Available, updatedAt := now) else u
      ensures btc.utxos.Keys == old(btc.utxos).Keys
      ensures forall k :: k in btc.utxos ==>
        var u := old(btc.utxos)[k];
        btc.utxos[k] ==
          if u.status.Reserved? && u.status.expiresAt <= now then u.(status := Available, updatedAt := now) else u
    {
      forall q | q in parked {
        LiveAfterExpiry(StoreOf(parked[q].pool).utxos, q, now);
      }
      released := ExpireBoth(now);
      Prune();
    }

    // Accepting a quote and delivering a consignment, section by section.

    method ExpireOne(pool: Pool, now: nat)
      requires Valid()
      modifies rgb, btc
      ensures Valid() && Abstract() == Managed(old(Abstract()), pool, Expire(now), now)
      ensures var other := OtherPool(pool); StoreOf(other).utxos == old(StoreOf(other).utxos)
      ensures var store := StoreOf(pool); store.utxos.Keys == old(store.utxos).Keys
      ensures var store := StoreOf(pool);
        forall k :: k in store.utxos ==>
          var u := old(store.utxos)[k];
          store.utxos[k] ==
            if u.status.Reserved? && u.status.expiresAt <= now then u.(status := Available, updatedAt := now) else u
    {
      MoveKeepsInv(Abstract(), pool, Expire(now), now);
      var _ := StoreOf(pool).ReleaseExpiredReservations(now);
    }

    method Locate(pool: Pool, quote: string) returns (id: Option<string>)
      requires Valid()
      modifies this`drafts
      ensures Valid()
      ensures id.None? ==> !Live(old(Abstract()).stores.Of(pool), quote) && Abstract() == old(Abstract())
      ensures id.Some? ==> Enabled(old(Abstract()), Find(pool, quote, id.value))
      ensures id.Some? ==> Abstract() == Next(old(Abstract()), Find(pool, quote, id.value))
      ensures id.Some? ==> HasReserved(StoreOf(pool).utxos, id.value)
    {
      id := StoreOf(pool).FindReservationForQuote(quote);
      if id.Some? {
        ghost var rows := Abstract().stores.Of(pool);
        assert rows == StoreOf(pool).utxos;
        ghost var k :| k in rows && HeldFor(rows[k], quote) && rows[k].status.reservation == id.value;
        assert ReservedBy(rows[k], id.value);
        FindKeepsInv(Abstract(), pool, quote, id.value);
        drafts := drafts + {Found(pool, quote, id.value)};
      }
    }

    /** The rows reserved under the id: the maker's inputs of the transaction to build. */
    method ListInputs(pool: Pool, quote: string, id: string) returns (inputs: set<Outpoint>)
      requires Valid() && Enabled(Abstract(), List(pool, quote, id))
      modifies this`drafts
      ensures Valid() && Abstract() == Next(old(Abstract()), List(pool, quote, id))
      ensures inputs == ReservedRows(StoreOf(pool).utxos, id)
    {
      assert Abstract().stores.Of(pool) == StoreOf(pool).utxos;
      inputs := RowsReservedBy(StoreOf(pool).utxos, id);
      ListKeepsInv(Abstract(), pool, quote, id);
      drafts := drafts + {Listed(pool, quote, id, inputs)};
    }

    /** Extending never fails while a row is still reserved under the id. */
    method Hold(pool: Pool, quote: string, id: string, built: Option<set<Outpoint>>, until: nat, now: nat)
      requires Valid() && Enabled(Abstract(), Prolong(pool, quote, id, built, until, now))
      modifies rgb, btc, this`drafts
      ensures Valid() && Abstract() == Next(old(Abstract()), Prolong(pool, quote, id, built, until, now))
      ensures var other := OtherPool(pool); StoreOf(other).utxos == old(StoreOf(other).utxos)
      ensures var store := StoreOf(pool); store.utxos.Keys == old(store.utxos).Keys
      ensures var store := StoreOf(pool);
        forall k :: k in store.utxos ==>
          var u := old(store.utxos)[k];
          store.utxos[k] ==
            if u.status.Reserved? && u.status.reservation == id then
              u.(status := u.status.(expiresAt := until), updatedAt := now)
            else u
    {
      ProlongKeepsInv(Abstract(), Prolong(pool, quote, id, built, until, now));
      ExtendRows(pool, id, until, now);
      drafts := drafts + {Prolonged(pool, quote, id, built)};
    }

    method ExtendRows(pool: Pool, id: string, until: nat, now: nat)
      requires rgb != btc && HasReserved(Abstract().stores.Of(pool), id)
      modifies rgb, btc
      ensures Abstract() == Managed(old(Abstract()), pool, Extend(id, until), now)
      ensures var other := OtherPool(pool); StoreOf(other).utxos == old(StoreOf(other).utxos)
      ensures var store := StoreOf(pool); store.utxos.Keys == old(store.utxos).Keys
      ensures var store := StoreOf(pool);
        forall k :: k in store.utxos ==>
          var u := old(store.utxos)[k];
          store.utxos[k] ==
            if u.status.Reserved? && u.status.reservation == id then
              u.(status := u.status.(expiresAt := until), updatedAt := now)
            else u
    {
      assert Abstract().stores.Of(pool) == StoreOf(pool).utxos;
      ghost var k :| k in StoreOf(pool).utxos && ReservedBy(StoreOf(pool).utxos[k], id);
      var extended := StoreOf(pool).ExtendReservation(id, until, now);
      assert extended.Success?;
    }

    method ParkEntry(pool: Pool, quote: string, id: string, built: Option<set<Outpoint>>)
      requires Valid() && Enabled(Abstract(), Park(pool, quote, id, built))
      modifies this`parked
      ensures Valid() && Abstract() == Next(old(Abstract()), Park(pool, quote, id, built))
    {
      ParkKeepsInv(Abstract(), Park(pool, quote, id, built));
      parked := parked[quote := Entry(pool, id, built)];
    }

    /** Accepting a buy: find the reservation, list its rows, build on them, extend, park. Whether the taker's
        funding suffices and the transaction builds comes from outside. */
    method AcceptBuy(quote: string, builds: bool, until: nat, now: nat) returns (r: Result<string, AcceptError>)
      requires Valid()
      modifies rgb, btc, this`parked, this`drafts
      ensures Valid()
      ensures var aged := Managed(old(Abstract()), Rgb, Expire(now), now);
        match r
        case Success(id) =>
          Enabled(aged, Find(Rgb, quote, id)) && Abstract() == AcceptedBuy(aged, quote, id, until, now)
        case Failure(ReservationGone) => !Live(aged.stores.rgb, quote) && Abstract() == aged
        case Failure(BuildFailed) => !builds && parked == old(parked) && !Live(rgb.utxos, quote)
      ensures r.Success? ==> exists k :: (
        && k in old(rgb.utxos) && old(rgb.utxos)[k].status.Reserved? && old(rgb.utxos)[k].status.quote == quote
        && old(rgb.utxos)[k].status.reservation == r.value && old(rgb.utxos)[k].status.expiresAt > now)
      ensures r.Success? ==> builds
      ensures r == Failure(ReservationGone) ==> forall k ::
        k in old(rgb.utxos) && old(rgb.utxos)[k].status.Reserved? && old(rgb.utxos)[k].status.quote == quote ==>
          old(rgb.utxos)[k].status.expiresAt <= now
      ensures r.Failure? ==> parked == old(parked)
      ensures r.Success? ==> parked == old(parked)[quote := Entry(Rgb, r.value, Some(
        set k | k in old(rgb.utxos) && old(rgb.utxos)[k].status.Reserved?
          && old(rgb.utxos)[k].status.reservation == r.value && old(rgb.utxos)[k].status.expiresAt > now))]
      ensures btc.utxos == old(btc.utxos) && rgb.utxos.Keys == old(rgb.utxos).Keys
      ensures forall k :: k in rgb.utxos ==>
        var u := old(rgb.utxos)[k];
        rgb.utxos[k] ==
          if u.status.Reserved? && u.status.expiresAt <= now then
            u.(status := Available, updatedAt := now)
          else if r.Success? && u.status.Reserved? && u.status.reservation == r.value then
            u.(status := u.status.(expiresAt := until), updatedAt := now)
          else if r == Failure(BuildFailed) && u.status.Reserved? && u.status.quote == quote then
            u.(status := Available, updatedAt := now)
          else u
    {
      AfterExpiry(rgb.utxos, quote, now);
      ghost var before := rgb.utxos;
      ExpireOne(Rgb, now);
      r := AcceptBuyAged(quote, builds, until, now);
      if r.Success? {
        ReservedAfterExpiry(before, r.value, now);
      }
    }

    method AcceptBuyAged(quote: string, builds: bool, until: nat, now: nat) returns (r: Result<string, AcceptError>)
      requires Valid()
      modifies rgb, btc, this`parked, this`drafts
      ensures Valid()
      ensures match r
        case Success(id) =>
          && builds && Enabled(old(Abstract()), Find(Rgb, quote, id))
          && Abstract() == AcceptedBuy(old(Abstract()), quote, id, until, now)
        case Failure(ReservationGone) => !Live(old(rgb.utxos), quote) && Abstract() == old(Abstract())
        case Failure(BuildFailed) => !builds && parked == old(parked) && !Live(rgb.utxos, quote)
      ensures r.Success? ==> parked == old(parked)[quote := Entry(Rgb, r.value, Some(ReservedRows(old(rgb.utxos), r.value)))]
      ensures btc.utxos == old(btc.utxos) && rgb.utxos.Keys == old(rgb.utxos).Keys
      ensures forall k :: k in rgb.utxos ==>
        var u := old(rgb.utxos)[k];
        rgb.utxos[k] ==
          if r.Success? && u.status.Reserved? && u.status.reservation == r.value then
            u.(status := u.status.(expiresAt := until), updatedAt := now)
          else if r == Failure(BuildFailed) && u.status.Reserved? && u.status.quote == quote then
            u.(status := Available, updatedAt := now)
          else u
    {
      var id := Locate(Rgb, quote);
      if id.None? {
        return Failure(ReservationGone);
      }
      var inputs := ListInputs(Rgb, quote, id.value);
      if !builds {
        GiveBack(Rgb, quote, id.value, now);
        return Failure(BuildFailed);
      }
      Hold(Rgb, quote, id.value, Some(inputs), until, now);
      ParkEntry(Rgb, quote, id.value, Some(inputs));
      r := Success(id.value);
    }

    /** Accepting a sell: find the reservation, extend it, park the settlement until its consignment comes. */
    method AcceptSell(quote: string, until: nat, now: nat) returns (r: Result<string, AcceptError>)
      requires Valid()
      modifies rgb, btc, this`parked, this`drafts
      ensures Valid()
      ensures var aged := Managed(old(Abstract()), Btc, Expire(now), now);
        match r
        case Success(id) =>
          Enabled(aged, Find(Btc, quote, id)) && Abstract() == AcceptedSell(aged, quote, id, until, now)
        case Failure(e) => e.ReservationGone? && !Live(aged.stores.btc, quote) && Abstract() == aged
      ensures r.Success? ==> exists k :: (
        && k in old(btc.utxos) && old(btc.utxos)[k].status.Reserved? && old(btc.utxos)[k].status.quote == quote
        && old(btc.utxos)[k].status.reservation == r.value && old(btc.utxos)[k].status.expiresAt > now)
      ensures r == Failure(ReservationGone) ==> forall k ::
        k in old(btc.utxos) && old(btc.utxos)[k].status.Reserved? && old(btc.utxos)[k].status.quote == quote ==>
          old(btc.utxos)[k].status.expiresAt <= now
      ensures parked == if r.Success? then old(parked)[quote := Entry(Btc, r.value, None)] else old(parked)
      ensures rgb.utxos == old(rgb.utxos) && btc.utxos.Keys == old(btc.utxos).Keys
      ensures forall k :: k in btc.utxos ==>
        var u := old(btc.utxos)[k];
        btc.utxos[k] ==
          if u.status.Reserved? && u.status.expiresAt <= now then
            u.(status := Available, updatedAt := now)
          else if r.Success? && u.status.Reserved? && u.status.reservation == r.value then
            u.(status := u.status.(expiresAt := until), updatedAt := now)
          else u
    {
      AfterExpiry(btc.utxos, quote, now);
      ExpireOne(Btc, now);
      r := AcceptSellAged(quote, until, now);
    }

    method AcceptSellAged(quote: string, until: nat, now: nat) returns (r: Result<string, AcceptError>)
      requires Valid()
      modifies rgb, btc, this`parked, this`drafts
      ensures Valid()
      ensures match r
        case Success(id) =>
          && Enabled(old(Abstract()), Find(Btc, quote, id))
          && Abstract() == AcceptedSell(old(Abstract()), quote, id, until, now)
        case Failure(e) => e.ReservationGone? && !Live(old(btc.utxos), quote) && Abstract() == old(Abstract())
      ensures parked == if r.Success? then old(parked)[quote := Entry(Btc, r.value, None)] else old(parked)
      ensures rgb.utxos == old(rgb.utxos) && btc.utxos.Keys == old(btc.utxos).Keys
      ensures forall k :: k in btc.utxos ==>
        var u := old(btc.utxos)[k];
        btc.utxos[k] ==
          if r.Success? && u.status.Reserved? && u.status.reservation == r.value then
            u.(status := u.status.(expiresAt := until), updatedAt := now)
          else u
    {
      var id := Locate(Btc, quote);
      if id.None? {
        return Failure(ReservationGone);
      }
      Hold(Btc, quote, id.value, None, until, now);
      ParkEntry(Btc, quote, id.value, None);
      r := Success(id.value);
    }

    /** Releasing a quote's reservation leaves the quote without one: its rows, and no others, become available. */
    method GiveBack(pool: Pool, quote: string, id: string, now: nat)
      requires Valid() && Found(pool, quote, id) in drafts
      modifies rgb, btc
      ensures Valid() && Abstract() == Managed(old(Abstract()), pool, Release(id), now)
      ensures !Live(StoreOf(pool).utxos, quote)
      ensures var other := OtherPool(pool); StoreOf(other).utxos == old(StoreOf(other).utxos)
      ensures var store := StoreOf(pool); store.utxos.Keys == old(store.utxos).Keys
      ensures var store := StoreOf(pool);
        forall k :: k in store.utxos ==>
          var u := old(store.utxos)[k];
          store.utxos[k] ==
            if u.status.Reserved? && u.status.quote == quote then u.(status := Available, updatedAt := now) else u
    {
      assert DraftOk(owners, Abstract().stores, Found(pool, quote, id));
      assert Abstract().stores.Of(pool) == StoreOf(pool).utxos;
      QuoteGroup(Abstract(), pool, quote, id);
      MoveKeepsInv(Abstract(), pool, Release(id), now);
      var _ := StoreOf(pool).ReleaseReservation(id, now);
    }

    /** `/consignment` of a sell: list the reserved rows, build on them, extend, and complete the parked entry.
        Whether the consignment is valid, the fee acceptable and the transaction builds comes from outside. */
    method DeliverConsignment(quote: string, builds: bool, until: nat, now: nat) returns (r: Result<string, SignError>)
      requires Valid()
      modifies rgb, btc, this`parked, this`drafts
      ensures Valid()
      ensures var aged := Managed(old(Abstract()), Btc, Expire(now), now);
        match r
        case Success(id) =>
          Enabled(aged, Find(Btc, quote, id)) && Abstract() == Delivered(aged, quote, id, until, now)
        case Failure(NoSettlement) => !(quote in aged.parked && aged.parked[quote].pool.Btc?) && Abstract() == aged
        case Failure(Expired) => !Live(aged.stores.btc, quote) && Abstract() == Next(aged, Drop(quote))
        case Failure(e) => e.Rejected? && !builds
      ensures r == Failure(NoSettlement) <==> !(quote in old(parked) && old(parked)[quote].pool.Btc?)
      ensures r.Success? ==> exists k :: (
        && k in old(btc.utxos) && old(btc.utxos)[k].status.Reserved? && old(btc.utxos)[k].status.quote == quote
        && old(btc.utxos)[k].status.reservation == r.value && old(btc.utxos)[k].status.expiresAt > now)
      ensures r.Success? ==> builds
      ensures r == Failure(Expired) ==> forall k ::
        k in old(btc.utxos) && old(btc.utxos)[k].status.Reserved? && old(btc.utxos)[k].status.quote == quote ==>
          old(btc.utxos)[k].status.expiresAt <= now
      ensures r == Failure(NoSettlement) ==> parked == old(parked)
      ensures r.Failure? && r != Failure(NoSettlement) ==> parked == old(parked) - {quote}
      ensures r.Success? ==> parked == old(parked)[quote := Entry(Btc, old(parked)[quote].reservation, Some(
        set k | k in old(btc.utxos) && old(btc.utxos)[k].status.Reserved?
          && old(btc.utxos)[k].status.reservation == r.value && old(btc.utxos)[k].status.expiresAt > now))]
      ensures rgb.utxos == old(rgb.utxos) && btc.utxos.Keys == old(btc.utxos).Keys
      ensures forall k :: k in btc.utxos ==>
        var u := old(btc.utxos)[k];
        btc.utxos[k] ==
          if u.status.Reserved? && u.status.expiresAt <= now then
            u.(status := Available, updatedAt := now)
          else if r.Success? && u.status.Reserved? && u.status.reservation == r.value then
            u.(status := u.status.(expiresAt := until), updatedAt := now)
          else if r == Failure(Rejected) && u.status.Reserved? && u.status.quote == quote then
            u.(status := Available, updatedAt := now)
          else u
    {
      AfterExpiry(btc.utxos, quote, now);
      ghost var before := btc.utxos;
      ExpireOne(Btc, now);
      r := DeliverAged(quote, builds, until, now);
      if r.Success? {
        ReservedAfterExpiry(before, r.value, now);
      }
    }

    method DeliverAged(quote: string, builds: bool, until: nat, now: nat) returns (r: Result<string, SignError>)
      requires Valid()
      modifies rgb, btc, this`parked, this`drafts
      ensures Valid()
      ensures match r
        case Success(id) =>
          && builds && quote in old(parked) && old(parked)[quote].pool.Btc? && Enabled(old(Abstract()), Find(Btc, quote, id))
          && Abstract() == Delivered(old(Abstract()), quote, id, until, now)
        case Failure(NoSettlement) =>
          !(quote in old(parked) && old(parked)[quote].pool.Btc?) && Abstract() == old(Abstract())
        case Failure(Expired) =>
          && quote in old(parked) && old(parked)[quote].pool.Btc? && !Live(old(btc.utxos), quote)
          && Abstract() == Next(old(Abstract()), Drop(quote))
        case Failure(e) =>
          && e.Rejected? && !builds && quote in old(parked) && old(parked)[quote].pool.Btc?
          && parked == old(parked) - {quote}
      ensures r.Success? ==> parked == old(parked)[quote :=
        Entry(Btc, old(parked)[quote].reservation, Some(ReservedRows(old(btc.utxos), r.value)))]
      ensures rgb.utxos == old(rgb.utxos) && btc.utxos.Keys == old(btc.utxos).Keys
      ensures forall k :: k in btc.utxos ==>
        var u := old(btc.utxos)[k];
        btc.utxos[k] ==
          if r.Success? && u.status.Reserved? && u.status.reservation == r.value then
            u.(status := u.status.(expiresAt := until), updatedAt := now)
          else if r == Failure(Rejected) && u.status.Reserved? && u.status.quote == quote then
            u.(status := Available, updatedAt := now)
          else u
    {
      if quote !in parked || !parked[quote].pool.Btc? {
        return Failure(NoSettlement);
      }
      var id := Locate(Btc, quote);
      if id.None? {
        Forget(quote);
        return Failure(Expired);
      }
      if !builds {
        RefuseSell(quote, id.value, now);
        return Failure(Rejected);
      }
      BuildSell(quote, id.value, until, now);
      r := Success(id.value);
    }

    method RefuseSell(quote: string, id: string, now: nat)
      requires Valid() && Found(Btc, quote, id) in drafts
      modifies rgb, btc, this`parked
      ensures Valid() && parked == old(parked) - {quote}
      ensures rgb.utxos == old(rgb.utxos) && btc.utxos.Keys == old(btc.utxos).Keys
      ensures forall k :: k in btc.utxos ==>
        var u := old(btc.utxos)[k];
        btc.utxos[k] ==
          if u.status.Reserved? && u.status.quote == quote then u.(status := Available, updatedAt := now) else u
    {
      GiveBack(Btc, quote, id, now);
      Forget(quote);
    }

    method BuildSell(quote: string, id: string, until: nat, now: nat)
      requires Valid() && Found(Btc, quote, id) in drafts && HasReserved(btc.utxos, id)
      requires quote in parked && parked[quote].pool.Btc?
      modifies rgb, btc, this`parked, this`drafts
      ensures Valid() && Abstract() == BuiltSell(old(Abstract()), quote, id, until, now)
      ensures parked == old(parked)[quote := old(parked)[quote].(built := Some(ReservedRows(old(btc.utxos), id)))]
      ensures var other := OtherPool(Btc); StoreOf(other).utxos == old(StoreOf(other).utxos)
      ensures var store := StoreOf(Btc); store.utxos.Keys == old(store.utxos).Keys
      ensures var store := StoreOf(Btc);
        forall k :: k in store.utxos ==>
          var u := old(store.utxos)[k];
          store.utxos[k] ==
            if u.status.Reserved? && u.status.reservation == id then
              u.(status := u.status.(expiresAt := until), updatedAt := now)
            else u
    {
      var inputs := ListInputs(Btc, quote, id);
      Hold(Btc, quote, id, Some(inputs), until, now);
      CompleteEntry(quote, id, inputs);
    }

    method CompleteEntry(quote: string, id: string, inputs: set<Outpoint>)
      requires Valid() && Enabled(Abstract(), Complete(quote, id, inputs))
      modifies this`parked
      ensures Valid() && Abstract() == Next(old(Abstract()), Complete(quote, id, inputs))
    {
      ParkKeepsInv(Abstract(), Complete(quote, id, inputs));
      parked := parked[quote := parked[quote].(built := Some(inputs))];
    }

    // The confirmation sweep.

    /** The reservations with rows pending confirmation, and their transactions. */
    method ListPending(pool: Pool) returns (found: map<string, string>)
      requires Valid()
      modifies this`drafts
      ensures Valid() && drafts >= old(drafts)
      ensures AllListed(StoreOf(pool).utxos, found)
      ensures forall id :: id in found ==> Draft.Pending(pool, id, found[id]) in drafts
    {
      var utxos := StoreOf(pool).utxos;
      assert Abstract().stores.Of(pool) == utxos;
      found := map[];
      var todo := utxos.Keys;
      while todo != {}
        invariant todo <= utxos.Keys && drafts >= old(drafts)
        invariant Valid()
        invariant forall id :: id in found ==> Draft.Pending(pool, id, found[id]) in drafts
        invariant forall k :: k in utxos && k !in todo && utxos[k].status.PendingBitcoinConfirm? ==>
          utxos[k].status.reservation in found
        decreases |todo|
      {
        var k :| k in todo;
        todo := todo - {k};
        var status := utxos[k].status;
        if status.PendingBitcoinConfirm? {
          SweepKeepsInv(Abstract(), pool, status.reservation, status.txid);
          found := found[status.reservation := status.txid];
          drafts := drafts + {Draft.Pending(pool, status.reservation, status.txid)};
        }
      }
      forall id | id in found
        ensures OnlyPending(StoreOf(pool).utxos, id, found[id])
      {
        assert DraftOk(owners, Abstract().stores, Draft.Pending(pool, id, found[id]));
      }
    }

    /** Retires the listed reservations whose transactions are confirmed, one by one. */
    method SweepPool(pool: Pool, mined: set<string>, now: nat)
      requires Valid() && mined <= confirmed
      modifies rgb, btc, this`drafts
      ensures Valid() && StoreOf(OtherPool(pool)).utxos == old(StoreOf(OtherPool(pool)).utxos)
      ensures StoreOf(pool).utxos.Keys == old(StoreOf(pool).utxos).Keys
      ensures forall k :: k in StoreOf(pool).utxos ==>
        StoreOf(pool).utxos[k].status == Swept(old(StoreOf(pool).utxos)[k].status, mined)
    {
      var found := ListPending(pool);
      ghost var before := StoreOf(pool).utxos;
      var todo := found.Keys;
      while todo != {}
        invariant Valid() && mined <= confirmed && todo <= found.Keys
        invariant forall id :: id in found ==> Draft.Pending(pool, id, found[id]) in drafts
        invariant StoreOf(OtherPool(pool)).utxos == old(StoreOf(OtherPool(pool)).utxos)
        invariant SweptUpTo(before, StoreOf(pool).utxos, todo, mined)
        decreases |todo|
      {
        var id :| id in todo;
        SweepReservation(before, pool, found, todo, id, mined, now);
        todo := todo - {id};
      }
    }

    /** Both pools are swept: afterwards no row waits for a confirmed transaction, and nothing else changed. */
    method SweepConfirmations(mined: set<string>, now: nat)
      requires Valid()
      modifies rgb, btc, this`drafts, this`confirmed
      ensures Valid() && confirmed == old(confirmed) + mined
      ensures forall pool: Pool :: StoreOf(pool).utxos.Keys == old(StoreOf(pool).utxos).Keys
      ensures forall pool: Pool, k :: k in StoreOf(pool).utxos ==>
        var s := old(StoreOf(pool).utxos)[k].status;
        StoreOf(pool).utxos[k].status ==
          if s.PendingBitcoinConfirm? && s.txid in mined then Spent(s.txid, "recovered-from-" + s.reservation) else s
    {
      EventKeepsInv(Abstract(), Mine(mined));
      confirmed := confirmed + mined;
      SweepPool(Btc, mined, now);
      SweepPool(Rgb, mined, now);
    }

    method SweepReservation(ghost before: Utxos, pool: Pool, found: map<string, string>, ghost todo: set<string>, id: string,
                            mined: set<string>, now: nat)
      requires Valid() && mined <= confirmed
      requires id in found && id in todo && Draft.Pending(pool, id, found[id]) in drafts
      requires AllListed(before, found) && SweptUpTo(before, StoreOf(pool).utxos, todo, mined)
      modifies rgb, btc
      ensures Valid() && StoreOf(OtherPool(pool)).utxos == old(StoreOf(OtherPool(pool)).utxos)
      ensures SweptUpTo(before, StoreOf(pool).utxos, todo - {id}, mined)
    {
      SweepOne(before, StoreOf(pool).utxos, found, todo, id, mined, now);
      if found[id] in mined {
        RetireKeepsInv(Abstract(), pool, id, found[id], now);
        var _ := StoreOf(pool).MarkSpent(id, found[id], now);
      }
    }

  }

  /** A row's status once the transactions named are confirmed. */
  function Swept(s: Status, confirmed: set<string>): Status {
    if s.PendingBitcoinConfirm? && s.txid in confirmed then Spent(s.txid, "recovered-from-" + s.reservation) else s
  }

  function OtherPool(pool: Pool): Pool {
    match pool case Rgb => Btc case Btc => Rgb
  }

  /** Every listed reservation accounts for its rows. */
  ghost predicate AllListed(rows: Utxos, found: map<string, string>) {
    && (forall id :: id in found ==> OnlyPending(rows, id, found[id]))
    && (forall k :: k in rows && rows[k].status.PendingBitcoinConfirm? ==> rows[k].status.reservation in found)
  }

  function SweptOutside(s: Status, todo: set<string>, confirmed: set<string>): Status {
    if s.PendingBitcoinConfirm? && s.reservation in todo then s else Swept(s, confirmed)
  }

  /** The reservations outside `todo` are swept. */
  ghost predicate SweptUpTo(before: Utxos, rows: Utxos, todo: set<string>, confirmed: set<string>) {
    && rows.Keys == before.Keys
    && forall k :: k in before ==> rows[k].status == SweptOutside(before[k].status, todo, confirmed)
  }

  lemma SweepOne(before: Utxos, rows: Utxos, found: map<string, string>, todo: set<string>, id: string,
                 confirmed: set<string>, now: nat)
    requires AllListed(before, found) && id in todo && id in found
    requires SweptUpTo(before, rows, todo, confirmed)
    ensures found[id] in confirmed ==> SweptUpTo(before, MovedAll(rows, Spend(id, found[id]), now), todo - {id}, confirmed)
    ensures found[id] !in confirmed ==> SweptUpTo(before, rows, todo - {id}, confirmed)
  {
    forall k | k in before
      ensures SweptOutside(before[k].status, todo - {id}, confirmed) ==
        if found[id] in confirmed then MovedAll(rows, Spend(id, found[id]), now)[k].status else rows[k].status
    {
      SweepRow(before[k].status, rows[k].status, id, found[id], todo, confirmed);
      MovedStatus(rows, Spend(id, found[id]), now, k);
    }
  }

  lemma SweepRow(b: Status, r: Status, id: string, txid: string, todo: set<string>, confirmed: set<string>)
    requires Id(b) == Some(id) ==> b == PendingBitcoinConfirm(id, txid)
    requires id in todo && r == SweptOutside(b, todo, confirmed)
    ensures var moved := if Moved(Spend(id, txid), r).Some? then Moved(Spend(id, txid), r).value else r;
      SweptOutside(b, todo - {id}, confirmed) == if txid in confirmed then moved else r
  {
  }

  /** The protocol run an accepted buy is. */
  ghost function AcceptedBuy(s: State, quote: string, id: string, until: nat, now: nat): State {
    var built := Some(ReservedRows(s.stores.rgb, id));
    var listed := Next(Next(s, Find(Rgb, quote, id)), List(Rgb, quote, id));
    Next(Next(listed, Prolong(Rgb, quote, id, built, until, now)), Park(Rgb, quote, id, built))
  }

  /** The protocol run a delivered consignment is. */
  ghost function Delivered(s: State, quote: string, id: string, until: nat, now: nat): State {
    BuiltSell(Next(s, Find(Btc, quote, id)), quote, id, until, now)
  }

  ghost function BuiltSell(s: State, quote: string, id: string, until: nat, now: nat): State {
    var inputs := ReservedRows(s.stores.btc, id);
    Next(Next(Next(s, List(Btc, quote, id)), Prolong(Btc, quote, id, Some(inputs), until, now)), Complete(quote, id, inputs))
  }

  ghost function AcceptedSell(s: State, quote: string, id: string, until: nat, now: nat): State {
    Next(Next(Next(s, Find(Btc, quote, id)), Prolong(Btc, quote, id, None, until, now)), Park(Btc, quote, id, None))
  }

  /** The rows reserved for a quote are the rows reserved under its reservation. */
  lemma QuoteGroup(s: State, pool: Pool, quote: string, id: string)
    requires Inv(s) && Owns(s.owners, pool, quote, id)
    ensures forall k :: k in s.stores.Of(pool) ==>
      (ReservedBy(s.stores.Of(pool)[k], id) <==> HeldFor(s.stores.Of(pool)[k], quote))
  {
    var rows := s.stores.Of(pool);
    assert RowsGrouped(s.owners, pool, rows);
    forall k | k in rows
      ensures ReservedBy(rows[k], id) <==> HeldFor(rows[k], quote)
    {
      assert RowInGroup(s.owners, pool, rows, k);
      if HeldFor(rows[k], quote) {
        LiveGroup(s, pool, quote, k);
      }
    }
  }

  lemma AfterExpiry(rows: Utxos, quote: string, now: nat)
    ensures var aged := MovedAll(rows, Expire(now), now);
      forall k :: k in rows ==>
        && (HeldFor(aged[k], quote) <==> HeldFor(rows[k], quote) && rows[k].status.expiresAt > now)
        && (aged[k].status.Reserved? ==> aged[k] == rows[k])
  {
  }

  lemma ReservedAfterExpiry(rows: Utxos, id: string, now: nat)
    ensures ReservedRows(MovedAll(rows, Expire(now), now), id) == set k | k in rows && rows[k].status.Reserved?
      && rows[k].status.reservation == id && rows[k].status.expiresAt > now
  {
  }

  /** What ages out is not live any more, and nothing else dies of it. */
  lemma LiveAfterExpiry(rows: Utxos, quote: string, now: nat)
    ensures Live(MovedAll(rows, Expire(now), now), quote) <==>
      exists k ::
        k in rows && rows[k].status.Reserved? && rows[k].status.quote == quote && rows[k].status.expiresAt > now
  {
    var aged := MovedAll(rows, Expire(now), now);
    if k :| k in rows && rows[k].status.Reserved? && rows[k].status.quote == quote && rows[k].status.expiresAt > now {
      assert HeldFor(aged[k], quote);
    }
  }

  /** Only the settlements with a live reservation. */
  ghost function Pruned(s: State): State {
    s.(parked := map q | q in s.parked && Live(s.stores.Of(s.parked[q].pool), q) :: s.parked[q])
  }

  ghost predicate Stale(s: State, stale: set<string>) {
    forall q :: q in stale <==> q in s.parked && !Live(s.stores.Of(s.parked[q].pool), q)
  }

  lemma PrunedKeepsInv(s: State, stale: set<string>)
    requires Inv(s) && Stale(s, stale)
    ensures Inv(Pruned(s)) && s.(parked := s.parked - stale) == Pruned(s)
  {
    assert s.parked - stale == Pruned(s).parked;
  }

  /** The state after both pools age out. */
  ghost function ExpiredAt(s: State, now: nat): State {
    Managed(Managed(s, Rgb, Expire(now), now), Btc, Expire(now), now)
  }

  ghost function Abandoned(s: State, quote: string, now: nat): State {
    if quote !in s.parked then s
    else Next(Managed(s, s.parked[quote].pool, Release(s.parked[quote].reservation), now), Drop(quote))
  }
}
