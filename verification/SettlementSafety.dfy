/** Safety of the settlement protocol over all runs in which signing is one step. */
module SettlementSafety {
  import opened Options
  import opened Store
  import opened StoreRuns
  import opened Settlement

  /** The row's status is one the reservation's transaction leaves it in for good. */
  predicate Taken(confirmed: set<string>, status: Status, id: string, txid: string) {
    status == PendingBitcoinConfirm(id, txid) || (status.Spent? && status.txid == txid && txid in confirmed)
  }

  /** A row that carries a reservation is one of those the reservation was made on, and all of them are in
      its status. */
  ghost predicate RowInGroup(owners: map<string, Owner>, pool: Pool, rows: Utxos, k: Outpoint)
    requires k in rows
  {
    match Id(rows[k].status)
    case None => true
    case Some(id) =>
      && id in owners && owners[id].pool == pool && k in owners[id].inputs
      && (rows[k].status.Reserved? ==> rows[k].status.quote == owners[id].quote)
      && forall k' :: k' in owners[id].inputs ==> k' in rows && rows[k'].status == rows[k].status
  }

  ghost predicate RowsGrouped(owners: map<string, Owner>, pool: Pool, rows: Utxos) {
    forall k :: k in rows ==> RowInGroup(owners, pool, rows, k)
  }

  /** A quote never has two reservations. */
  ghost predicate QuotesOnce(owners: map<string, Owner>) {
    forall a, b :: a in owners && b in owners && owners[a].quote == owners[b].quote ==> a == b
  }

  ghost predicate Owns(owners: map<string, Owner>, pool: Pool, quote: string, id: string) {
    id in owners && owners[id].pool == pool && owners[id].quote == quote
  }

  ghost predicate OwnsBuilt(owners: map<string, Owner>, id: string, built: Option<set<Outpoint>>)
    requires id in owners
  {
    built.Some? ==> built.value == owners[id].inputs
  }

  ghost predicate DraftOk(owners: map<string, Owner>, stores: Stores, d: Draft) {
    match d
    case Found(pool, quote, id) => Owns(owners, pool, quote, id)
    case Listed(pool, quote, id, inputs) =>
      Owns(owners, pool, quote, id) && (HasReserved(stores.Of(pool), id) ==> inputs == owners[id].inputs)
    case Prolonged(pool, quote, id, built) => Owns(owners, pool, quote, id) && OwnsBuilt(owners, id, built)
    case Checked(quote, entry) => EntryOk(owners, quote, entry)
    case Pending(pool, id, txid) => id in owners && OnlyPending(stores.Of(pool), id, txid)
  }

  ghost predicate OnlyPending(rows: Utxos, id: string, txid: string) {
    forall k :: k in rows && Id(rows[k].status) == Some(id) ==> rows[k].status == PendingBitcoinConfirm(id, txid)
  }

  ghost predicate EntryOk(owners: map<string, Owner>, quote: string, entry: Entry) {
    Owns(owners, entry.pool, quote, entry.reservation) && OwnsBuilt(owners, entry.reservation, entry.built)
  }

  ghost predicate AllTaken(confirmed: set<string>, rows: Utxos, inputs: set<Outpoint>, id: string, txid: string) {
    forall k :: k in inputs ==> k in rows && Taken(confirmed, rows[k].status, id, txid)
  }

  /** The swap spends exactly the rows of its reservation, and they are pending or spent under it. */
  ghost predicate SwapOk(owners: map<string, Owner>, confirmed: set<string>, stores: Stores, w: Swap) {
    && Owns(owners, w.pool, w.quote, w.reservation)
    && w.inputs == owners[w.reservation].inputs && w.inputs != {}
    && AllTaken(confirmed, stores.Of(w.pool), w.inputs, w.reservation, w.txid)
  }

  /** No two swaps on the wire spend a common row of the same store. */
  ghost predicate Disjoint(swaps: seq<Swap>) {
    forall i, j :: 0 <= i < j < |swaps| && swaps[i].pool == swaps[j].pool ==> swaps[i].inputs !! swaps[j].inputs
  }

  ghost predicate Inv(s: State) {
    && QuotesOnce(s.owners)
    && (forall pool :: RowsGrouped(s.owners, pool, s.stores.Of(pool)))
    && (forall d :: d in s.drafts ==> DraftOk(s.owners, s.stores, d))
    && (forall q :: q in s.parked ==> EntryOk(s.owners, q, s.parked[q]))
    && (forall i :: 0 <= i < |s.swaps| ==> SwapOk(s.owners, s.confirmed, s.stores, s.swaps[i]))
    && Disjoint(s.swaps)
  }

  // How the rows of a store may change in one step, as seen from the reservations made so far.

  ghost predicate StatusStep(owners: map<string, Owner>, confirmed: set<string>, before: Status, after: Status) {
    && (Id(after).Some? && Id(after).value in owners ==> Id(after) == Id(before))
    && (after.Reserved? && after.reservation in owners ==> before.Reserved?)
    && (before.PendingBitcoinConfirm? ==> Taken(confirmed, after, before.reservation, before.txid))
    && (before.Spent? ==> after.Spent? && after.txid == before.txid)
  }

  ghost predicate RowsStep(owners: map<string, Owner>, confirmed: set<string>, before: Utxos, after: Utxos) {
    && (forall k :: k in before ==> k in after && StatusStep(owners, confirmed, before[k].status, after[k].status))
    && (forall k :: k in after && k !in before ==> Id(after[k].status).None?)
  }

  ghost predicate StoresStep(owners: map<string, Owner>, confirmed: set<string>, before: Stores, after: Stores) {
    forall pool :: RowsStep(owners, confirmed, before.Of(pool), after.Of(pool))
  }

  predicate Extends(owners: map<string, Owner>, owners': map<string, Owner>) {
    forall id :: id in owners ==> id in owners' && owners'[id] == owners[id]
  }

  lemma DeadStaysDead(owners: map<string, Owner>, confirmed: set<string>, before: Utxos, after: Utxos, id: string)
    requires RowsStep(owners, confirmed, before, after) && id in owners
    ensures HasReserved(after, id) ==> HasReserved(before, id)
  {
    if HasReserved(after, id) {
      var k :| k in after && ReservedBy(after[k], id);
      assert k in before && ReservedBy(before[k], id);
    }
  }

  /** What was read stays usable: a draft keeps its meaning whatever happens to the rows meanwhile. */
  lemma DraftCarried(owners: map<string, Owner>, owners': map<string, Owner>, confirmed: set<string>, before: Stores, after: Stores, d: Draft)
    requires StoresStep(owners, confirmed, before, after) && Extends(owners, owners')
    requires DraftOk(owners, before, d)
    ensures DraftOk(owners', after, d)
  {
    if d.Listed? {
      assert RowsStep(owners, confirmed, before.Of(d.pool), after.Of(d.pool));
      DeadStaysDead(owners, confirmed, before.Of(d.pool), after.Of(d.pool), d.reservation);
    } else if d.Pending? {
      assert RowsStep(owners, confirmed, before.Of(d.pool), after.Of(d.pool));
      OnlyPendingCarried(owners, confirmed, before.Of(d.pool), after.Of(d.pool), d.reservation, d.txid);
    }
  }

  lemma OnlyPendingCarried(owners: map<string, Owner>, confirmed: set<string>, before: Utxos, after: Utxos, id: string, txid: string)
    requires RowsStep(owners, confirmed, before, after) && id in owners && OnlyPending(before, id, txid)
    ensures OnlyPending(after, id, txid)
  {
    forall k | k in after && Id(after[k].status) == Some(id)
      ensures after[k].status == PendingBitcoinConfirm(id, txid)
    {
      assert k in before && StatusStep(owners, confirmed, before[k].status, after[k].status);
    }
  }

  lemma SwapCarried(owners: map<string, Owner>, owners': map<string, Owner>, confirmed: set<string>, before: Stores, after: Stores, w: Swap)
    requires StoresStep(owners, confirmed, before, after) && Extends(owners, owners')
    requires SwapOk(owners, confirmed, before, w)
    ensures SwapOk(owners', confirmed, after, w)
  {
    var b, a := before.Of(w.pool), after.Of(w.pool);
    assert RowsStep(owners, confirmed, b, a);
    forall k | k in w.inputs
      ensures k in a && Taken(confirmed, a[k].status, w.reservation, w.txid)
    {
      assert StatusStep(owners, confirmed, b[k].status, a[k].status);
    }
  }

  /** Everything that is not about the rows' own grouping survives a step of the rows. */
  lemma Carried(s: State, owners': map<string, Owner>, after: Stores)
    requires Inv(s) && StoresStep(s.owners, s.confirmed, s.stores, after) && Extends(s.owners, owners')
    requires QuotesOnce(owners') && forall pool :: RowsGrouped(owners', pool, after.Of(pool))
    ensures Inv(s.(stores := after, owners := owners'))
  {
    forall d | d in s.drafts
      ensures DraftOk(owners', after, d)
    {
      DraftCarried(s.owners, owners', s.confirmed, s.stores, after, d);
    }
    forall i | 0 <= i < |s.swaps|
      ensures SwapOk(owners', s.confirmed, after, s.swaps[i])
    {
      SwapCarried(s.owners, owners', s.confirmed, s.stores, after, s.swaps[i]);
    }
  }

  lemma OneStore(owners: map<string, Owner>, confirmed: set<string>, stores: Stores, pool: Pool, rows: Utxos)
    requires RowsStep(owners, confirmed, stores.Of(pool), rows)
    ensures StoresStep(owners, confirmed, stores, stores.With(pool, rows))
  {
    forall p: Pool
      ensures RowsStep(owners, confirmed, stores.Of(p), stores.With(pool, rows).Of(p))
    {
      if p != pool {
        assert stores.With(pool, rows).Of(p) == stores.Of(p);
      }
    }
  }

  /** A move takes a group of rows along together. */
  lemma MoveKeepsGroups(owners: map<string, Owner>, pool: Pool, rows: Utxos, m: Move, now: nat)
    requires RowsGrouped(owners, pool, rows)
    ensures RowsGrouped(owners, pool, MovedAll(rows, m, now))
  {
    var after := MovedAll(rows, m, now);
    forall k | k in after
      ensures RowInGroup(owners, pool, after, k)
    {
      assert RowInGroup(owners, pool, rows, k);
      MovedStatus(rows, m, now, k);
      if Id(after[k].status).Some? {
        forall k' | k' in owners[Id(after[k].status).value].inputs
          ensures k' in after && after[k'].status == after[k].status
        {
          MovedStatus(rows, m, now, k');
        }
      }
    }
  }

  predicate Steady(confirmed: set<string>, m: Move, s: Status) {
    Manageable(m) || (m.Spend? && m.txid in confirmed && (Id(s) == Some(m.reservation) ==> s == PendingBitcoinConfirm(m.reservation, m.txid)))
  }

  lemma MoveStatusStep(owners: map<string, Owner>, confirmed: set<string>, m: Move, s: Status)
    requires Steady(confirmed, m, s)
    ensures StatusStep(owners, confirmed, s, if Moved(m, s).Some? then Moved(m, s).value else s)
  {
  }

  lemma MoveKeepsInv(s: State, pool: Pool, m: Move, now: nat)
    requires Inv(s) && forall k :: k in s.stores.Of(pool) ==> Steady(s.confirmed, m, s.stores.Of(pool)[k].status)
    ensures Inv(Managed(s, pool, m, now))
    ensures StoresStep(s.owners, s.confirmed, s.stores, Managed(s, pool, m, now).stores)
  {
    var rows := s.stores.Of(pool);
    var after := MovedAll(rows, m, now);
    assert RowsGrouped(s.owners, pool, rows);
    MoveKeepsGroups(s.owners, pool, rows, m, now);
    forall k | k in rows
      ensures StatusStep(s.owners, s.confirmed, rows[k].status, after[k].status)
    {
      MoveStatusStep(s.owners, s.confirmed, m, rows[k].status);
      MovedStatus(rows, m, now, k);
    }
    OneStore(s.owners, s.confirmed, s.stores, pool, after);
    KeepsOtherStore(s.owners, s.stores, pool, after);
    Carried(s, s.owners, s.stores.With(pool, after));
  }

  lemma KeepsOtherStore(owners: map<string, Owner>, stores: Stores, pool: Pool, rows: Utxos)
    requires RowsGrouped(owners, pool, rows)
    requires forall p :: p != pool ==> RowsGrouped(owners, p, stores.Of(p))
    ensures forall p :: RowsGrouped(owners, p, stores.With(pool, rows).Of(p))
  {
    forall p: Pool
      ensures RowsGrouped(owners, p, stores.With(pool, rows).Of(p))
    {
      if p != pool {
        assert stores.With(pool, rows).Of(p) == stores.Of(p);
      }
    }
  }

  // The events, one by one.

  /** A live reservation of a quote is the one the quote was given, and holds all of its rows. */
  lemma LiveGroup(s: State, pool: Pool, quote: string, k: Outpoint)
    requires Inv(s) && k in s.stores.Of(pool) && HeldFor(s.stores.Of(pool)[k], quote)
    ensures var id := s.stores.Of(pool)[k].status.reservation;
      && Owns(s.owners, pool, quote, id) && k in s.owners[id].inputs
      && (forall k' :: k' in s.owners[id].inputs ==> k' in s.stores.Of(pool) && ReservedBy(s.stores.Of(pool)[k'], id))
      && ReservedRows(s.stores.Of(pool), id) == s.owners[id].inputs
  {
    var rows := s.stores.Of(pool);
    assert RowsGrouped(s.owners, pool, rows) && RowInGroup(s.owners, pool, rows, k);
    var id := rows[k].status.reservation;
    forall k' | k' in rows && ReservedBy(rows[k'], id)
      ensures k' in s.owners[id].inputs
    {
      assert RowInGroup(s.owners, pool, rows, k');
    }
  }

  lemma {:induction false} QuoteKeepsGroups(owners: map<string, Owner>, confirmed: set<string>, pool: Pool, rows: Utxos, e: Event)
    requires e.Quote? && RowsGrouped(owners, pool, rows)
    requires FirstBlocked(rows, e.outpoints).None? && e.freshId !in owners
    ensures var owners' := owners[e.freshId := Owner(pool, e.quote, set o | o in e.outpoints)];
      var after := Restated(rows, e.outpoints, Reserved(e.freshId, e.rfq, e.quote, e.expiresAt), e.now);
      RowsGrouped(owners', pool, after) && RowsStep(owners, confirmed, rows, after)
  {
    var owners' := owners[e.freshId := Owner(pool, e.quote, set o | o in e.outpoints)];
    var after := Restated(rows, e.outpoints, Reserved(e.freshId, e.rfq, e.quote, e.expiresAt), e.now);
    FirstBlockedMeaning(rows, e.outpoints);
    assert forall k :: k in e.outpoints ==> Blocked(rows, k).None?;
    forall k | k in after
      ensures RowInGroup(owners', pool, after, k)
    {
      assert RowInGroup(owners, pool, rows, k);
    }
  }

  lemma GroupsExtend(owners: map<string, Owner>, owners': map<string, Owner>, pool: Pool, rows: Utxos)
    requires RowsGrouped(owners, pool, rows) && Extends(owners, owners')
    ensures RowsGrouped(owners', pool, rows)
  {
    forall k | k in rows
      ensures RowInGroup(owners', pool, rows, k)
    {
      assert RowInGroup(owners, pool, rows, k);
    }
  }

  lemma QuoteKeepsInv(s: State, e: Event)
    requires Inv(s) && e.Quote? && Enabled(s, e)
    ensures Inv(Next(s, e))
  {
    var s' := Next(s, e);
    var after := s'.stores.Of(e.pool);
    assert RowsGrouped(s.owners, e.pool, s.stores.Of(e.pool));
    QuoteKeepsGroups(s.owners, s.confirmed, e.pool, s.stores.Of(e.pool), e);
    OneStore(s.owners, s.confirmed, s.stores, e.pool, after);
    forall p: Pool
      ensures p != e.pool ==> RowsGrouped(s'.owners, p, s.stores.Of(p))
    {
      GroupsExtend(s.owners, s'.owners, p, s.stores.Of(p));
    }
    KeepsOtherStore(s'.owners, s.stores, e.pool, after);
    Carried(s, s'.owners, s'.stores);
  }

  lemma DiscoverKeepsInv(s: State, pool: Pool, row: Utxo)
    requires Inv(s) && Enabled(s, Discover(pool, row))
    ensures Inv(Next(s, Discover(pool, row)))
  {
    var rows := s.stores.Of(pool);
    var after := rows[row.outpoint := row];
    assert RowsGrouped(s.owners, pool, rows);
    forall k | k in after
      ensures RowInGroup(s.owners, pool, after, k)
    {
      assert k in rows ==> RowInGroup(s.owners, pool, rows, k);
    }
    OneStore(s.owners, s.confirmed, s.stores, pool, after);
    KeepsOtherStore(s.owners, s.stores, pool, after);
    Carried(s, s.owners, s.stores.With(pool, after));
  }

  lemma DraftAdded(s: State, d: Draft)
    requires Inv(s) && DraftOk(s.owners, s.stores, d)
    ensures Inv(s.(drafts := s.drafts + {d}))
  {
  }

  lemma FindKeepsInv(s: State, pool: Pool, quote: string, id: string)
    requires Inv(s) && Enabled(s, Find(pool, quote, id))
    ensures Inv(Next(s, Find(pool, quote, id)))
  {
    var rows := s.stores.Of(pool);
    var k :| k in rows && HeldFor(rows[k], quote) && ReservedBy(rows[k], id);
    LiveGroup(s, pool, quote, k);
    DraftAdded(s, Found(pool, quote, id));
  }

  lemma ListKeepsInv(s: State, pool: Pool, quote: string, id: string)
    requires Inv(s) && Enabled(s, List(pool, quote, id))
    ensures Inv(Next(s, List(pool, quote, id)))
  {
    var rows := s.stores.Of(pool);
    assert DraftOk(s.owners, s.stores, Found(pool, quote, id));
    if HasReserved(rows, id) {
      var k :| k in rows && ReservedBy(rows[k], id);
      LiveGroup(s, pool, rows[k].status.quote, k);
    }
    DraftAdded(s, Listed(pool, quote, id, ReservedRows(rows, id)));
  }

  lemma ProlongKeepsInv(s: State, e: Event)
    requires Inv(s) && e.Prolong? && Enabled(s, e)
    ensures Inv(Next(s, e))
  {
    var held := Managed(s, e.pool, Extend(e.reservation, e.until), e.now);
    MoveKeepsInv(s, e.pool, Extend(e.reservation, e.until), e.now);
    assert match e.built
      case None => DraftOk(s.owners, s.stores, Found(e.pool, e.quote, e.reservation))
      case Some(inputs) => DraftOk(s.owners, s.stores, Listed(e.pool, e.quote, e.reservation, inputs));
    DraftAdded(held, Prolonged(e.pool, e.quote, e.reservation, e.built));
  }

  lemma ParkKeepsInv(s: State, e: Event)
    requires Inv(s) && (e.Park? || e.Complete? || e.Drop?) && Enabled(s, e)
    ensures Inv(Next(s, e))
  {
    if e.Park? {
      assert DraftOk(s.owners, s.stores, Prolonged(e.pool, e.quote, e.reservation, e.built));
    } else if e.Complete? {
      assert DraftOk(s.owners, s.stores, Prolonged(Btc, e.quote, e.reservation, Some(e.inputs)));
      assert EntryOk(s.owners, e.quote, s.parked[e.quote]);
    }
  }

  /** A live reservation of an entry's quote is the entry's own, and its rows are the recorded inputs. */
  lemma LiveEntry(s: State, quote: string, entry: Entry)
    requires Inv(s) && EntryOk(s.owners, quote, entry) && entry.built.Some?
    requires Live(s.stores.Of(entry.pool), quote)
    ensures entry.built.value != {}
    ensures forall k :: k in entry.built.value ==>
      k in s.stores.Of(entry.pool) && ReservedBy(s.stores.Of(entry.pool)[k], entry.reservation)
  {
    var rows := s.stores.Of(entry.pool);
    var k :| k in rows && HeldFor(rows[k], quote);
    LiveGroup(s, entry.pool, quote, k);
  }

  /** Committing an entry whose reservation is live puts one more swap on the wire, disjoint from all. */
  lemma CommitKeepsInv(s: State, quote: string, entry: Entry, txid: string, now: nat)
    requires Inv(s) && EntryOk(s.owners, quote, entry) && entry.built.Some?
    requires Live(s.stores.Of(entry.pool), quote)
    ensures Inv(Committed(s, quote, entry, txid, now))
  {
    var m, inputs, rows := Broadcast(entry.reservation, txid), entry.built.value, s.stores.Of(entry.pool);
    var marked := Managed(s, entry.pool, m, now);
    var swap := Swap(entry.pool, entry.reservation, quote, txid, inputs);
    LiveEntry(s, quote, entry);
    MoveKeepsInv(s, entry.pool, m, now);
    forall k | k in inputs
      ensures k in marked.stores.Of(entry.pool) && Taken(s.confirmed, marked.stores.Of(entry.pool)[k].status, entry.reservation, txid)
    {
      MovedStatus(rows, m, now, k);
    }
    assert SwapOk(s.owners, s.confirmed, marked.stores, swap);
    NewSwapDisjoint(s, swap);
  }

  lemma NewSwapDisjoint(s: State, swap: Swap)
    requires Inv(s)
    requires forall k :: k in swap.inputs ==> k in s.stores.Of(swap.pool) && ReservedBy(s.stores.Of(swap.pool)[k], swap.reservation)
    ensures Disjoint(s.swaps + [swap])
  {
    forall i | 0 <= i < |s.swaps| && s.swaps[i].pool == swap.pool
      ensures s.swaps[i].inputs !! swap.inputs
    {
      FreshInputs(s, i, swap.inputs, swap.reservation);
    }
  }

  /** Rows still reserved are inputs of no swap on the wire. */
  lemma FreshInputs(s: State, i: nat, inputs: set<Outpoint>, id: string)
    requires Inv(s) && i < |s.swaps|
    requires forall k :: k in inputs ==> k in s.stores.Of(s.swaps[i].pool) && ReservedBy(s.stores.Of(s.swaps[i].pool)[k], id)
    ensures s.swaps[i].inputs !! inputs
  {
    assert SwapOk(s.owners, s.confirmed, s.stores, s.swaps[i]);
  }

  lemma CheckKeepsInv(s: State, quote: string)
    requires Inv(s) && Signable(s, quote)
    ensures Inv(Next(s, Check(quote)))
  {
    assert EntryOk(s.owners, quote, s.parked[quote]);
    DraftAdded(s, Checked(quote, s.parked[quote]));
  }

  lemma SweepKeepsInv(s: State, pool: Pool, id: string, txid: string)
    requires Inv(s) && Enabled(s, Sweep(pool, id, txid))
    ensures Inv(Next(s, Sweep(pool, id, txid)))
  {
    var rows := s.stores.Of(pool);
    var k :| k in rows && rows[k].status == PendingBitcoinConfirm(id, txid);
    assert RowsGrouped(s.owners, pool, rows) && RowInGroup(s.owners, pool, rows, k);
    forall k' | k' in rows && Id(rows[k'].status) == Some(id)
      ensures rows[k'].status == PendingBitcoinConfirm(id, txid)
    {
      assert RowInGroup(s.owners, pool, rows, k');
    }
    DraftAdded(s, Draft.Pending(pool, id, txid));
  }

  lemma RetireKeepsInv(s: State, pool: Pool, id: string, txid: string, now: nat)
    requires Inv(s) && Enabled(s, Retire(pool, id, txid, now))
    ensures Inv(Next(s, Retire(pool, id, txid, now)))
  {
    assert DraftOk(s.owners, s.stores, Draft.Pending(pool, id, txid));
    MoveKeepsInv(s, pool, Spend(id, txid), now);
  }

  lemma EventKeepsInv(s: State, e: Event)
    requires Inv(s) && Enabled(s, e) && !e.Commit?
    ensures Inv(Next(s, e))
  {
    match e
    case Quote(_, _, _, _, _, _, _) => QuoteKeepsInv(s, e);
    case Manage(pool, m, now) => MoveKeepsInv(s, pool, m, now);
    case Discover(pool, row) => DiscoverKeepsInv(s, pool, row);
    case Find(pool, quote, id) => FindKeepsInv(s, pool, quote, id);
    case List(pool, quote, id) => ListKeepsInv(s, pool, quote, id);
    case Prolong(_, _, _, _, _, _) => ProlongKeepsInv(s, e);
    case Park(_, _, _, _) => ParkKeepsInv(s, e);
    case Complete(_, _, _) => ParkKeepsInv(s, e);
    case Drop(_) => ParkKeepsInv(s, e);
    case Sign(quote, txid, now) =>
      assert EntryOk(s.owners, quote, s.parked[quote]);
      CommitKeepsInv(s, quote, s.parked[quote], txid, now);
    case Sweep(pool, id, txid) => SweepKeepsInv(s, pool, id, txid);
    case Retire(pool, id, txid, now) => RetireKeepsInv(s, pool, id, txid, now);
    case Mine(_) =>
    case Restart =>
    case Check(quote) => CheckKeepsInv(s, quote);
  }

  ghost predicate Atomic(run: seq<Event>) {
    forall i :: 0 <= i < |run| ==> !run[i].Commit?
  }

  lemma {:induction false} RunKeepsInv(s: State, run: seq<Event>)
    requires Initial(s) && Possible(s, run) && Atomic(run)
    ensures Inv(Runs(s, run))
  {
    if |run| == 0 {
      InitialInv(s);
    } else {
      assert Atomic(run[..|run| - 1]) && !run[|run| - 1].Commit?;
      RunKeepsInv(s, run[..|run| - 1]);
      EventKeepsInv(Runs(s, run[..|run| - 1]), run[|run| - 1]);
    }
  }

  lemma InitialInv(s: State)
    requires Initial(s)
    ensures Inv(s)
  {
    forall pool: Pool
      ensures RowsGrouped(s.owners, pool, s.stores.Of(pool))
    {
      match pool case Rgb => case Btc =>
    }
  }

  // The main results.

  /** In every run with atomic signing, no row is an input of two swaps on the wire, no quote is swapped
      twice, and each input of a swap is pending under its own transaction until the chain confirms that
      transaction, and only then spent, by it. */
  lemma {:induction false} NoDoubleSpend(s: State, run: seq<Event>)
    requires Initial(s) && Possible(s, run) && Atomic(run)
    ensures var t := Runs(s, run);
      && (forall i, j :: 0 <= i < j < |t.swaps| ==>
            t.swaps[i].quote != t.swaps[j].quote && (t.swaps[i].pool == t.swaps[j].pool ==> t.swaps[i].inputs !! t.swaps[j].inputs))
      && (forall i, k :: 0 <= i < |t.swaps| && k in t.swaps[i].inputs ==>
            var w, rows := t.swaps[i], t.stores.Of(t.swaps[i].pool);
            && k in rows
            && (rows[k].status == PendingBitcoinConfirm(w.reservation, w.txid)
                || (rows[k].status.Spent? && rows[k].status.txid == w.txid))
            && (rows[k].status.Spent? ==> exists e :: 0 <= e < |run| && run[e].Mine? && w.txid in run[e].txids))
  {
    RunKeepsInv(s, run);
    var t := Runs(s, run);
    forall i, j | 0 <= i < j < |t.swaps|
      ensures t.swaps[i].quote != t.swaps[j].quote
    {
      assert SwapOk(t.owners, t.confirmed, t.stores, t.swaps[i]) && SwapOk(t.owners, t.confirmed, t.stores, t.swaps[j]);
    }
    forall i, k | 0 <= i < |t.swaps| && k in t.swaps[i].inputs
      ensures var w, rows := t.swaps[i], t.stores.Of(t.swaps[i].pool);
        && k in rows
        && (rows[k].status == PendingBitcoinConfirm(w.reservation, w.txid)
            || (rows[k].status.Spent? && rows[k].status.txid == w.txid))
        && (rows[k].status.Spent? ==> MinedIn(run, w.txid))
    {
      InputStaysPending(s, run, i, k);
    }
  }

  lemma {:induction false} InputStaysPending(s: State, run: seq<Event>, i: nat, k: Outpoint)
    requires Initial(s) && Possible(s, run) && Atomic(run)
    requires i < |Runs(s, run).swaps| && k in Runs(s, run).swaps[i].inputs
    ensures var w, rows := Runs(s, run).swaps[i], Runs(s, run).stores.Of(Runs(s, run).swaps[i].pool);
      && k in rows
      && (rows[k].status == PendingBitcoinConfirm(w.reservation, w.txid)
          || (rows[k].status.Spent? && rows[k].status.txid == w.txid))
      && (rows[k].status.Spent? ==> MinedIn(run, w.txid))
  {
    RunKeepsInv(s, run);
    var t := Runs(s, run);
    assert SwapOk(t.owners, t.confirmed, t.stores, t.swaps[i]);
    if t.swaps[i].txid in t.confirmed {
      MinedByRun(s, run, t.swaps[i].txid);
    }
  }

  /** The run holds a confirmation of the transaction. */
  ghost predicate MinedIn(run: seq<Event>, txid: string) {
    exists e :: 0 <= e < |run| && run[e].Mine? && txid in run[e].txids
  }

  /** Only the chain confirms transactions. */
  lemma {:induction false} MinedByRun(s: State, run: seq<Event>, txid: string)
    requires txid in Runs(s, run).confirmed && txid !in s.confirmed
    ensures MinedIn(run, txid)
  {
    var front, last := run[..|run| - 1], run[|run| - 1];
    if txid in Runs(s, front).confirmed {
      MinedByRun(s, front, txid);
      var e :| 0 <= e < |front| && front[e].Mine? && txid in front[e].txids;
      assert run[e] == front[e];
    } else {
      assert run[|run| - 1].Mine? && txid in run[|run| - 1].txids;
    }
  }

  /** In every run with atomic signing a quote has at most one live reservation over both stores, and if it
      is parked, that reservation is the one in its entry. */
  lemma {:induction false} OneLiveReservation(s: State, run: seq<Event>, quote: string, p: Pool, a: Outpoint, q: Pool, b: Outpoint)
    requires Initial(s) && Possible(s, run) && Atomic(run)
    requires a in Runs(s, run).stores.Of(p) && HeldFor(Runs(s, run).stores.Of(p)[a], quote)
    requires b in Runs(s, run).stores.Of(q) && HeldFor(Runs(s, run).stores.Of(q)[b], quote)
    ensures p == q && Runs(s, run).stores.Of(p)[a].status == Runs(s, run).stores.Of(q)[b].status
    ensures quote in Runs(s, run).parked ==>
      && Runs(s, run).parked[quote].pool == p
      && Runs(s, run).parked[quote].reservation == Runs(s, run).stores.Of(p)[a].status.reservation
  {
    RunKeepsInv(s, run);
    var t := Runs(s, run);
    LiveGroup(t, p, quote, a);
    LiveGroup(t, q, quote, b);
    assert RowsGrouped(t.owners, p, t.stores.Of(p)) && RowInGroup(t.owners, p, t.stores.Of(p), a);
    assert quote in t.parked ==> EntryOk(t.owners, quote, t.parked[quote]);
  }
}
