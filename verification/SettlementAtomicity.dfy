/**
 Why signing must be one step. In the program the reservation check
 (crates/rfq-maker/src/lib.rs:1403-1408, 1838-1843) and the mark (1463-1470, 1892-1895) are separate lock-held operations,
 with the broadcast between them; here the commit is one step that may come any time after the check.
 */
module SettlementAtomicity {
  import opened Options
  import opened Store
  import opened StoreRuns
  import opened Settlement
  import opened SettlementSafety

  /** No row was ever touched by this transaction. */
  ghost predicate NewTransaction(rows: Utxos, txid: string) {
    forall k :: k in rows ==>
      !(rows[k].status.PendingBitcoinConfirm? && rows[k].status.txid == txid)
      && !(rows[k].status.Spent? && rows[k].status.txid == txid)
  }

  /** Exactly when a commit, however long after its check, is safe: it keeps the invariant if and only if the
      quote's reservation is still live when the transaction goes out. */
  lemma CommitSafeIffLive(s: State, quote: string, entry: Entry, txid: string, now: nat)
    requires Inv(s) && Enabled(s, Commit(quote, entry, txid, now))
    requires entry.built.Some? && NewTransaction(s.stores.Of(entry.pool), txid)
    ensures Inv(Next(s, Commit(quote, entry, txid, now))) <==> Live(s.stores.Of(entry.pool), quote)
  {
    assert DraftOk(s.owners, s.stores, Checked(quote, entry));
    if Live(s.stores.Of(entry.pool), quote) {
      CommitKeepsInv(s, quote, entry, txid, now);
    } else {
      LateCommitBreaks(s, quote, entry, txid, now);
    }
  }

  lemma LateCommitBreaks(s: State, quote: string, entry: Entry, txid: string, now: nat)
    requires Inv(s) && EntryOk(s.owners, quote, entry)
    requires entry.built.Some? && NewTransaction(s.stores.Of(entry.pool), txid)
    requires !Live(s.stores.Of(entry.pool), quote)
    ensures !Inv(Committed(s, quote, entry, txid, now))
  {
    var rows, m := s.stores.Of(entry.pool), Broadcast(entry.reservation, txid);
    ReservedMeansLive(s, quote, entry);
    forall k | k in rows
      ensures Moved(m, rows[k].status).None?
    {
      assert !ReservedBy(rows[k], entry.reservation);
    }
    assert MovedAll(rows, m, now) == rows;
    var s' := Committed(s, quote, entry, txid, now);
    SwapTouches(s'.owners, s'.confirmed, s'.stores, s'.swaps[|s.swaps|]);
  }

  lemma ReservedMeansLive(s: State, quote: string, entry: Entry)
    requires Inv(s) && EntryOk(s.owners, quote, entry)
    ensures HasReserved(s.stores.Of(entry.pool), entry.reservation) ==> Live(s.stores.Of(entry.pool), quote)
  {
    var rows := s.stores.Of(entry.pool);
    if HasReserved(rows, entry.reservation) {
      var k :| k in rows && ReservedBy(rows[k], entry.reservation);
      LiveGroup(s, entry.pool, rows[k].status.quote, k);
    }
  }

  lemma SwapTouches(owners: map<string, Owner>, confirmed: set<string>, stores: Stores, w: Swap)
    ensures SwapOk(owners, confirmed, stores, w) ==> !NewTransaction(stores.Of(w.pool), w.txid)
  {
    if SwapOk(owners, confirmed, stores, w) {
      var k :| k in w.inputs;
      assert Taken(confirmed, stores.Of(w.pool)[k].status, w.reservation, w.txid);
    }
  }

  // A run that shows it: the row of an expired reservation is quoted again between check and commit.

  ghost predicate Reaches(s: State, t: State) {
    exists run :: Possible(s, run) && Runs(s, run) == t
  }

  lemma OneMore(s: State, t: State, e: Event)
    requires Reaches(s, t) && Enabled(t, e)
    ensures Reaches(s, Next(t, e))
  {
    var run :| Possible(s, run) && Runs(s, run) == t;
    assert (run + [e])[..|run|] == run;
    assert Possible(s, run + [e]) && Runs(s, run + [e]) == Next(t, e);
  }

  /** The RGB store holds one row, in this status. */
  ghost predicate Only(t: State, o: Outpoint, status: Status) {
    t.stores.rgb.Keys == {o} && t.stores.rgb[o].status == status
  }

  ghost predicate Unused(t: State, quote: string, id: string) {
    id !in t.owners && forall i :: i in t.owners ==> t.owners[i].quote != quote
  }

  lemma Quoting(s: State, t: State, o: Outpoint, quote: string, id: string) returns (t': State)
    requires Reaches(s, t) && Only(t, o, Available) && Unused(t, quote, id)
    ensures Reaches(s, t') && Only(t', o, Reserved(id, "rfq", quote, 10))
    ensures t' == t.(stores := t'.stores, owners := t.owners[id := Owner(Rgb, quote, {o})])
  {
    var e := Quote(Rgb, "rfq", quote, [o], 10, id, 0);
    assert (set x | x in [o]) == {o};
    OneMore(s, t, e);
    t' := Next(t, e);
  }

  lemma Reading(s: State, t: State, o: Outpoint, quote: string, id: string) returns (t': State)
    requires Reaches(s, t) && Only(t, o, Reserved(id, "rfq", quote, 10))
    ensures Reaches(s, t') && Listed(Rgb, quote, id, {o}) in t'.drafts
    ensures t' == t.(drafts := t'.drafts) && t.drafts <= t'.drafts
  {
    assert HeldFor(t.stores.Of(Rgb)[o], quote) && ReservedBy(t.stores.Of(Rgb)[o], id);
    OneMore(s, t, Find(Rgb, quote, id));
    var found := Next(t, Find(Rgb, quote, id));
    OneMore(s, found, List(Rgb, quote, id));
    assert ReservedRows(found.stores.Of(Rgb), id) == {o};
    t' := Next(found, List(Rgb, quote, id));
  }

  lemma Parking(s: State, t: State, o: Outpoint, quote: string, id: string) returns (t': State)
    requires Reaches(s, t) && Only(t, o, Reserved(id, "rfq", quote, 10))
    requires Listed(Rgb, quote, id, {o}) in t.drafts
    ensures Reaches(s, t') && Only(t', o, Reserved(id, "rfq", quote, 20))
    ensures t' == t.(stores := t'.stores, drafts := t'.drafts, parked := t.parked[quote := Entry(Rgb, id, Some({o}))])
    ensures t.drafts <= t'.drafts
  {
    var hold, park := Prolong(Rgb, quote, id, Some({o}), 20, 0), Park(Rgb, quote, id, Some({o}));
    assert ReservedBy(t.stores.Of(Rgb)[o], id);
    OneMore(s, t, hold);
    var held := Next(t, hold);
    OneMore(s, held, park);
    t' := Next(held, park);
  }

  /** Quoting an available RGB row for a buy and accepting the quote. */
  lemma QuoteAndAccept(s: State, t: State, o: Outpoint, quote: string, id: string) returns (t': State)
    requires Reaches(s, t) && Only(t, o, Available) && Unused(t, quote, id)
    ensures Reaches(s, t') && Only(t', o, Reserved(id, "rfq", quote, 20))
    ensures t'.owners == t.owners[id := Owner(Rgb, quote, {o})]
    ensures t'.parked == t.parked[quote := Entry(Rgb, id, Some({o}))]
    ensures t.drafts <= t'.drafts && t'.swaps == t.swaps
  {
    var quoted := Quoting(s, t, o, quote, id);
    var read := Reading(s, quoted, o, quote, id);
    t' := Parking(s, read, o, quote, id);
  }

  /** Checked, then overtaken by the deadline. */
  lemma CheckAndExpire(s: State, t: State, o: Outpoint, quote: string, id: string) returns (t': State)
    requires Reaches(s, t) && Only(t, o, Reserved(id, "rfq", quote, 20))
    requires quote in t.parked && t.parked[quote] == Entry(Rgb, id, Some({o}))
    ensures Reaches(s, t') && Only(t', o, Available)
    ensures t' == t.(stores := t'.stores, drafts := t.drafts + {Checked(quote, t.parked[quote])})
  {
    assert HeldFor(t.stores.Of(Rgb)[o], quote);
    OneMore(s, t, Check(quote));
    var checked := Next(t, Check(quote));
    OneMore(s, checked, Manage(Rgb, Expire(20), 20));
    t' := Next(checked, Manage(Rgb, Expire(20), 20));
  }

  lemma SignAndCommit(s: State, t: State, o: Outpoint, quote: string, id: string, late: string, entry: Entry)
      returns (t': State)
    requires Reaches(s, t) && Only(t, o, Reserved(id, "rfq", quote, 20))
    requires quote in t.parked && t.parked[quote] == Entry(Rgb, id, Some({o}))
    requires Checked(late, entry) in t.drafts && entry.built == Some({o}) && entry.pool == Rgb
    ensures Reaches(s, t') && !Disjoint(t'.swaps)
  {
    assert HeldFor(t.stores.Of(Rgb)[o], quote);
    OneMore(s, t, Sign(quote, "t2", 20));
    var signed := Next(t, Sign(quote, "t2", 20));
    OneMore(s, signed, Commit(late, entry, "t1", 20));
    t' := Next(signed, Commit(late, entry, "t1", 20));
    assert o in t'.swaps[|t.swaps|].inputs && o in t'.swaps[|t.swaps| + 1].inputs;
  }

  /** From any start with one available RGB row a state is reached, by a run possible but for atomic signing,
      in which two swaps on the wire spend that row. */
  lemma AtomicityNeeded(s: State, o: Outpoint) returns (t: State)
    requires Initial(s) && Only(s, o, Available)
    ensures Reaches(s, t) && !Disjoint(t.swaps)
  {
    assert Possible(s, []) && Runs(s, []) == s;
    var accepted := QuoteAndAccept(s, s, o, "first", "1");
    var expired := CheckAndExpire(s, accepted, o, "first", "1");
    var again := QuoteAndAccept(s, expired, o, "second", "2");
    t := SignAndCommit(s, again, o, "second", "2", "first", Entry(Rgb, "1", Some({o})));
  }
}
