/**
 The settlement protocol of a maker (crates/rfq-maker/src/lib.rs) as a transition system: quoting,
 accepting, consignment delivery, signing, expiry, sweeping and rebalancing race for the rows of two
 stores, and every lock-held operation is one step. `SettlementSafety` proves what every run keeps.
 */
module Settlement {
  import opened Options
  import opened Store
  import opened StoreRuns

  /** The store a swap pays from: the RGB inventory when the taker buys, the BTC inventory when it sells. */
  datatype Pool = Rgb | Btc

  /** A reservation as it was made: its store, its quote, the outpoints claimed. */
  datatype Owner = Owner(pool: Pool, quote: string, inputs: set<Outpoint>)

  /** A parked settlement. A buy is parked with its transaction built; a sell waits for the consignment. */
  datatype Entry = Entry(pool: Pool, reservation: string, built: Option<set<Outpoint>>)

  /** What a request in flight, or the confirmation sweep, has read and may act on at any later time. */
  datatype Draft =
    | Found(pool: Pool, quote: string, reservation: string)
    | Listed(pool: Pool, quote: string, reservation: string, inputs: set<Outpoint>)
    | Prolonged(pool: Pool, quote: string, reservation: string, built: Option<set<Outpoint>>)
    | Checked(quote: string, entry: Entry)
    | Pending(pool: Pool, reservation: string, txid: string)

  /** A swap transaction on the wire, with the maker's inputs recorded when it was built. */
  datatype Swap = Swap(pool: Pool, reservation: string, quote: string, txid: string, inputs: set<Outpoint>)

  datatype Stores = Stores(rgb: Utxos, btc: Utxos) {
    function Of(pool: Pool): Utxos {
      match pool case Rgb => rgb case Btc => btc
    }

    function With(pool: Pool, rows: Utxos): Stores {
      match pool case Rgb => this.(rgb := rows) case Btc => this.(btc := rows)
    }
  }

  /** The stores, the reservations ever made, the parked settlements, what requests in flight have read, the swaps
      on the wire, and the transactions the chain has confirmed. */
  datatype State = State(stores: Stores, owners: map<string, Owner>, parked: map<string, Entry>, drafts: set<Draft>,
                         swaps: seq<Swap>, confirmed: set<string>)

  datatype Event =
    /** Quoting, and claiming a rebalance source: a fresh id for a quote that has none. */
    | Quote(pool: Pool, rfq: string, quote: string, outpoints: seq<Outpoint>, expiresAt: nat, freshId: string, now: nat)
    /** Releasing, extending, expiring or marking broadcast any reservation, at any time. */
    | Manage(pool: Pool, move: Move, now: nat)
    | Discover(pool: Pool, row: Utxo)
    | Find(pool: Pool, quote: string, reservation: string)
    | List(pool: Pool, quote: string, reservation: string)
    | Prolong(pool: Pool, quote: string, reservation: string, built: Option<set<Outpoint>>, until: nat, now: nat)
    | Park(pool: Pool, quote: string, reservation: string, built: Option<set<Outpoint>>)
    | Complete(quote: string, reservation: string, inputs: set<Outpoint>)
    | Drop(quote: string)
    /** Signing: the reservation check, the broadcast and the mark, as one step. */
    | Sign(quote: string, txid: string, now: nat)
    /** The chain confirms transactions. */
    | Mine(txids: set<string>)
    /** The confirmation sweep: list a pending reservation, and retire it once its transaction is confirmed. */
    | Sweep(pool: Pool, reservation: string, txid: string)
    | Retire(pool: Pool, reservation: string, txid: string, now: nat)
    /** A restart of the maker over its durable stores: whatever was in memory only is gone. */
    | Restart
    /** Signing in two steps: the check, and later the broadcast and the mark. */
    | Check(quote: string)
    | Commit(quote: string, entry: Entry, txid: string, now: nat)

  /** The moves the maker makes on any reservation it knows. */
  predicate Manageable(m: Move) {
    m.Release? || m.Extend? || m.Expire? || m.Broadcast?
  }

  /** The quote has a live reservation in the store. */
  ghost predicate Live(rows: Utxos, quote: string) {
    exists k :: k in rows && HeldFor(rows[k], quote)
  }

  ghost predicate HasReserved(rows: Utxos, id: string) {
    exists k :: k in rows && ReservedBy(rows[k], id)
  }

  predicate ReservedBy(u: Utxo, id: string) {
    u.status.Reserved? && u.status.reservation == id
  }

  ghost function ReservedRows(rows: Utxos, id: string): set<Outpoint> {
    set k | k in rows && ReservedBy(rows[k], id)
  }

  ghost predicate Enabled(s: State, e: Event) {
    match e
    case Quote(pool, _, quote, outpoints, _, freshId, _) =>
      && FirstBlocked(s.stores.Of(pool), outpoints).None?
      && freshId !in s.owners
      && forall id :: id in s.owners ==> s.owners[id].quote != quote
    case Manage(_, m, _) => Manageable(m)
    case Discover(pool, row) => row.status.Available? && row.outpoint !in s.stores.Of(pool)
    case Find(pool, quote, id) =>
      exists k :: k in s.stores.Of(pool) && HeldFor(s.stores.Of(pool)[k], quote) && ReservedBy(s.stores.Of(pool)[k], id)
    case List(pool, quote, id) => Found(pool, quote, id) in s.drafts
    case Prolong(pool, quote, id, built, _, _) =>
      && HasReserved(s.stores.Of(pool), id)
      && (match built
          case None => pool.Btc? && Found(pool, quote, id) in s.drafts
          case Some(inputs) => Listed(pool, quote, id, inputs) in s.drafts)
    case Park(pool, quote, id, built) => Prolonged(pool, quote, id, built) in s.drafts && (built.Some? <==> pool.Rgb?)
    case Complete(quote, id, inputs) =>
      Prolonged(Btc, quote, id, Some(inputs)) in s.drafts && quote in s.parked && s.parked[quote].pool.Btc?
    case Drop(_) => true
    case Sign(quote, _, _) => Signable(s, quote)
    case Mine(_) => true
    case Sweep(pool, id, txid) =>
      exists k :: k in s.stores.Of(pool) && s.stores.Of(pool)[k].status == PendingBitcoinConfirm(id, txid)
    case Retire(pool, id, txid, _) => Draft.Pending(pool, id, txid) in s.drafts && txid in s.confirmed
    case Restart => true
    case Check(quote) => Signable(s, quote)
    case Commit(quote, entry, _, _) => Checked(quote, entry) in s.drafts
  }

  /** The check of a signing request: the transaction is built and the quote's reservation is live. */
  ghost predicate Signable(s: State, quote: string) {
    && quote in s.parked
    && s.parked[quote].built.Some?
    && Live(s.stores.Of(s.parked[quote].pool), quote)
  }

  ghost function Next(s: State, e: Event): State {
    match e
    case Quote(pool, rfq, quote, outpoints, expiresAt, freshId, now) =>
      var rows := Restated(s.stores.Of(pool), outpoints, Reserved(freshId, rfq, quote, expiresAt), now);
      s.(stores := s.stores.With(pool, rows),
         owners := s.owners[freshId := Owner(pool, quote, set o | o in outpoints)])
    case Manage(pool, m, now) => Managed(s, pool, m, now)
    case Discover(pool, row) => s.(stores := s.stores.With(pool, s.stores.Of(pool)[row.outpoint := row]))
    case Find(pool, quote, id) => s.(drafts := s.drafts + {Found(pool, quote, id)})
    case List(pool, quote, id) =>
      s.(drafts := s.drafts + {Listed(pool, quote, id, ReservedRows(s.stores.Of(pool), id))})
    case Prolong(pool, quote, id, built, until, now) =>
      Managed(s, pool, Extend(id, until), now).(drafts := s.drafts + {Prolonged(pool, quote, id, built)})
    case Park(pool, quote, id, built) => s.(parked := s.parked[quote := Entry(pool, id, built)])
    case Complete(quote, _, inputs) =>
      if quote in s.parked then s.(parked := s.parked[quote := s.parked[quote].(built := Some(inputs))]) else s
    case Drop(quote) => s.(parked := s.parked - {quote})
    case Sign(quote, txid, now) => if Signable(s, quote) then Committed(s, quote, s.parked[quote], txid, now) else s
    case Mine(txids) => s.(confirmed := s.confirmed + txids)
    case Sweep(pool, id, txid) => s.(drafts := s.drafts + {Draft.Pending(pool, id, txid)})
    case Retire(pool, id, txid, now) => Managed(s, pool, Spend(id, txid), now)
    case Restart => s.(parked := map[], drafts := {})
    case Check(quote) => if Signable(s, quote) then s.(drafts := s.drafts + {Checked(quote, s.parked[quote])}) else s
    case Commit(quote, entry, txid, now) => Committed(s, quote, entry, txid, now)
  }

  ghost function Managed(s: State, pool: Pool, m: Move, now: nat): State {
    s.(stores := s.stores.With(pool, MovedAll(s.stores.Of(pool), m, now)))
  }

  /** Broadcasting an entry's transaction and marking its reservation. */
  ghost function Committed(s: State, quote: string, entry: Entry, txid: string, now: nat): State {
    match entry.built
    case None => s
    case Some(inputs) =>
      Managed(s, entry.pool, Broadcast(entry.reservation, txid), now)
        .(swaps := s.swaps + [Swap(entry.pool, entry.reservation, quote, txid, inputs)])
  }

  /** A maker that has just started: rows available or not its own business, nothing in flight. */
  ghost predicate Initial(s: State) {
    && (forall k :: k in s.stores.rgb ==> Id(s.stores.rgb[k].status).None?)
    && (forall k :: k in s.stores.btc ==> Id(s.stores.btc[k].status).None?)
    && s.owners == map[] && s.parked == map[] && s.drafts == {} && s.swaps == [] && s.confirmed == {}
  }

  ghost function Runs(s: State, run: seq<Event>): State {
    if |run| == 0 then s else Next(Runs(s, run[..|run| - 1]), run[|run| - 1])
  }

  ghost predicate Possible(s: State, run: seq<Event>) {
    |run| != 0 ==> Possible(s, run[..|run| - 1]) && Enabled(Runs(s, run[..|run| - 1]), run[|run| - 1])
  }
}
