/** What every run of store operations keeps. */
module StoreRuns {
  import opened Options
  import opened Store

  /** The operations of a store, as `InventoryStore` carries them out. */
  datatype Op =
    | Lifecycle(move: Move)
    | Reserve(rfq: string, quote: string, outpoints: seq<Outpoint>, expiresAt: nat, freshId: string)
    | Ingest(row: Utxo)
    | Invalidate(outpoint: Outpoint, reason: string)
    | Replace(asset: string, rows: seq<Utxo>)

  ghost function Applied(utxos: Utxos, op: Op, now: nat): Utxos {
    match op
    case Lifecycle(m) => MovedAll(utxos, m, now)
    case Reserve(rfq, quote, outpoints, expiresAt, freshId) =>
      if FirstBlocked(utxos, outpoints).Some? then utxos
      else Restated(utxos, outpoints, Reserved(freshId, rfq, quote, expiresAt), now)
    case Ingest(row) => if row.outpoint in utxos then utxos else utxos[row.outpoint := row]
    case Invalidate(o, reason) => Restated(utxos, [o], Invalid(reason), now)
    case Replace(asset, rows) => Inserted(OtherAssets(utxos, asset), rows)
  }

  /** The reservation a row belongs to. */
  function Id(s: Status): Option<string> {
    match s
    case Reserved(id, _, _, _) => Some(id)
    case PendingBitcoinConfirm(id, _) => Some(id)
    case PendingRgbAcceptance(id, _) => Some(id)
    case _ => None
  }

  /** Rows of one reservation share one status: the stage, and in it the quote, the deadline, the transaction. */
  ghost predicate Coherent(utxos: Utxos) {
    forall a, b :: a in utxos && b in utxos && Id(utxos[a].status).Some? && Id(utxos[a].status) == Id(utxos[b].status) ==>
      utxos[a].status == utxos[b].status
  }

  /** A reservation gets an id no row carries, and rows come in available. */
  ghost predicate Admissible(utxos: Utxos, op: Op) {
    && (op.Reserve? ==> forall k :: k in utxos ==> Id(utxos[k].status) != Some(op.freshId))
    && (op.Ingest? ==> op.row.status.Available?)
    && (op.Replace? ==> forall i :: 0 <= i < |op.rows| ==> op.rows[i].status.Available?)
  }

  /** A move never gives a row a reservation it did not have. */
  lemma MoveKeepsIds(m: Move, s: Status)
    requires Moved(m, s).Some? && Id(Moved(m, s).value).Some?
    ensures Id(Moved(m, s).value) == Id(s)
  {
  }

  lemma {:induction false} InsertedAvailable(utxos: Utxos, rows: seq<Utxo>)
    requires forall i :: 0 <= i < |rows| ==> rows[i].status.Available?
    ensures forall k :: k in Inserted(utxos, rows) ==>
      Inserted(utxos, rows)[k].status.Available? || (k in utxos && Inserted(utxos, rows)[k] == utxos[k])
  {
    if |rows| > 0 {
      InsertedAvailable(utxos, rows[..|rows| - 1]);
    }
  }

  lemma CoherentStep(utxos: Utxos, op: Op, now: nat)
    requires Coherent(utxos) && Admissible(utxos, op)
    ensures Coherent(Applied(utxos, op, now))
  {
    match op
    case Lifecycle(m) => CoherentMove(utxos, m, now);
    case Reserve(_, _, outpoints, _, _) => FirstBlockedMeaning(utxos, outpoints);
    case Ingest(_) =>
    case Invalidate(_, _) =>
    case Replace(asset, rows) => InsertedAvailable(OtherAssets(utxos, asset), rows);
  }

  lemma CoherentMove(utxos: Utxos, m: Move, now: nat)
    requires Coherent(utxos)
    ensures Coherent(MovedAll(utxos, m, now))
  {
    var after := MovedAll(utxos, m, now);
    forall a, b | a in after && b in after && Id(after[a].status).Some? && Id(after[a].status) == Id(after[b].status)
      ensures after[a].status == after[b].status
    {
      MovedStatus(utxos, m, now, a);
      MovedStatus(utxos, m, now, b);
    }
  }

  /** After a move a row that carries a reservation carried it before. */
  lemma MovedStatus(utxos: Utxos, m: Move, now: nat, k: Outpoint)
    requires k in utxos
    ensures var after := MovedAll(utxos, m, now)[k].status;
      && after == (if Moved(m, utxos[k].status).Some? then Moved(m, utxos[k].status).value else utxos[k].status)
      && (Id(after).Some? ==> Id(after) == Id(utxos[k].status))
  {
    if Moved(m, utxos[k].status).Some? && Id(Moved(m, utxos[k].status).value).Some? {
      MoveKeepsIds(m, utxos[k].status);
    }
  }

  // Runs.

  datatype Step = Step(op: Op, now: nat)

  ghost function After(utxos: Utxos, run: seq<Step>): Utxos {
    if |run| == 0 then utxos
    else
      var last := run[|run| - 1];
      Applied(After(utxos, run[..|run| - 1]), last.op, last.now)
  }

  ghost predicate AdmissibleRun(utxos: Utxos, run: seq<Step>) {
    |run| != 0 ==>
      && AdmissibleRun(utxos, run[..|run| - 1])
      && Admissible(After(utxos, run[..|run| - 1]), run[|run| - 1].op)
  }

  /** In every run, at every time, rows of one reservation share one status. */
  lemma {:induction false} CoherentRun(utxos: Utxos, run: seq<Step>)
    requires Coherent(utxos) && AdmissibleRun(utxos, run)
    ensures Coherent(After(utxos, run))
  {
    if |run| > 0 {
      CoherentRun(utxos, run[..|run| - 1]);
      CoherentStep(After(utxos, run[..|run| - 1]), run[|run| - 1].op, run[|run| - 1].now);
    }
  }

  /** The rows of a reservation. */
  ghost function Holders(utxos: Utxos, id: string): set<Outpoint> {
    set k | k in utxos && Id(utxos[k].status) == Some(id)
  }

  /** The operations that act on whole reservations and leave the rows in place. */
  predicate Grouped(op: Op) {
    op.Lifecycle? || op.Reserve?
  }

  /** A step moves the whole of a reservation or nothing of it. */
  lemma WholeGroupStep(utxos: Utxos, op: Op, now: nat, id: string)
    requires Coherent(utxos) && Admissible(utxos, op) && Grouped(op)
    requires op.Reserve? ==> op.freshId != id
    ensures Holders(Applied(utxos, op, now), id) == Holders(utxos, id) || Holders(Applied(utxos, op, now), id) == {}
    ensures forall a, b :: a in Holders(utxos, id) && b in Holders(utxos, id) ==>
      Applied(utxos, op, now)[a].status == Applied(utxos, op, now)[b].status
  {
    if op.Reserve? {
      FirstBlockedMeaning(utxos, op.outpoints);
      assert forall k :: k in op.outpoints && FirstBlocked(utxos, op.outpoints).None? ==> Blocked(utxos, k).None?;
      assert Holders(Applied(utxos, op, now), id) == Holders(utxos, id);
    } else {
      WholeGroupMove(utxos, op.move, now, id);
    }
  }

  lemma WholeGroupMove(utxos: Utxos, m: Move, now: nat, id: string)
    requires Coherent(utxos)
    ensures var after := MovedAll(utxos, m, now);
      && (Holders(after, id) == Holders(utxos, id) || Holders(after, id) == {})
      && forall a, b :: a in Holders(utxos, id) && b in Holders(utxos, id) ==> after[a].status == after[b].status
  {
    forall k | k in utxos
      ensures MovedAll(utxos, m, now)[k].status ==
        if Moved(m, utxos[k].status).Some? then Moved(m, utxos[k].status).value else utxos[k].status
      ensures Id(MovedAll(utxos, m, now)[k].status) == Some(id) ==> Id(utxos[k].status) == Some(id)
    {
      MovedStatus(utxos, m, now, k);
    }
  }

  /** Over a whole run: what was one reservation's rows is either still exactly those rows, all in one
      status, or the reservation is gone for good. Its id is never given out again. */
  lemma {:induction false} WholeGroupRun(utxos: Utxos, run: seq<Step>, id: string)
    requires Coherent(utxos) && AdmissibleRun(utxos, run)
    requires forall i :: 0 <= i < |run| ==> Grouped(run[i].op) && (run[i].op.Reserve? ==> run[i].op.freshId != id)
    ensures Holders(After(utxos, run), id) == Holders(utxos, id) || Holders(After(utxos, run), id) == {}
  {
    if |run| > 0 {
      var front, last := run[..|run| - 1], run[|run| - 1];
      assert run[|run| - 1] == last && Grouped(last.op);
      WholeGroupRun(utxos, front, id);
      CoherentRun(utxos, front);
      WholeGroupStep(After(utxos, front), last.op, last.now, id);
    }
  }

  /** What a row holds, apart from where it is in its lifecycle. */
  ghost function Holdings(utxos: Utxos): map<Outpoint, (string, nat, nat)> {
    map k | k in utxos :: (utxos[k].asset, utxos[k].amount, utxos[k].sats)
  }

  /** Over a run without change outputs or replacements no outpoint comes, goes or changes its amounts. */
  lemma {:induction false} HoldingsConserved(utxos: Utxos, run: seq<Step>)
    requires forall i :: 0 <= i < |run| ==> Grouped(run[i].op) || run[i].op.Invalidate?
    ensures Holdings(After(utxos, run)) == Holdings(utxos)
  {
    if |run| > 0 {
      HoldingsConserved(utxos, run[..|run| - 1]);
      HoldingsStep(After(utxos, run[..|run| - 1]), run[|run| - 1].op, run[|run| - 1].now);
    }
  }

  lemma HoldingsStep(utxos: Utxos, op: Op, now: nat)
    requires Grouped(op) || op.Invalidate?
    ensures Holdings(Applied(utxos, op, now)) == Holdings(utxos)
  {
    if op.Lifecycle? {
      forall k | k in utxos
        ensures Holdings(Applied(utxos, op, now))[k] == Holdings(utxos)[k]
      {
        assert MovedAll(utxos, op.move, now)[k] == MovedRow(op.move, utxos[k], now);
      }
    }
  }

  /** Releasing a reservation just made gives every row its status back. */
  lemma {:induction false} ReleaseUndoesReserve(utxos: Utxos, op: Op, now: nat, later: nat)
    requires op.Reserve? && Admissible(utxos, op) && FirstBlocked(utxos, op.outpoints).None?
    ensures var held := Applied(utxos, op, now);
      && Affected(held, Release(op.freshId)) == set o | o in op.outpoints
      && var back := MovedAll(held, Release(op.freshId), later);
         back.Keys == utxos.Keys && forall k :: k in utxos ==> back[k] == utxos[k].(updatedAt := back[k].updatedAt)
  {
    FirstBlockedMeaning(utxos, op.outpoints);
    var held := Applied(utxos, op, now);
    assert forall o :: o in op.outpoints ==> Blocked(utxos, o).None?;
    forall k | k in utxos
      ensures Moved(Release(op.freshId), held[k].status).Some? <==> k in op.outpoints
    {
      assert Id(utxos[k].status) != Some(op.freshId);
    }
  }

  /** Every lifecycle operation is idempotent: done again, it leaves every status as it was. */
  lemma MoveIdempotent(utxos: Utxos, m: Move, now: nat, later: nat)
    ensures var once := MovedAll(utxos, m, now);
      forall k :: k in utxos ==> MovedAll(once, m, later)[k].status == once[k].status
  {
    var once := MovedAll(utxos, m, now);
    forall k | k in utxos
      ensures MovedAll(once, m, later)[k].status == once[k].status
    {
      MovedStatus(utxos, m, now, k);
      MovedStatus(once, m, later, k);
      SettlesAtOnce(m, utxos[k].status);
    }
  }

  lemma SettlesAtOnce(m: Move, s: Status)
    ensures Moved(m, s).Some? ==> Moved(m, Moved(m, s).value).None? || Moved(m, Moved(m, s).value) == Moved(m, s)
  {
  }

  /** After expiry the reserved rows are exactly those whose deadline is still to come, untouched. */
  lemma NothingDueLeft(utxos: Utxos, now: nat)
    ensures var after := MovedAll(utxos, Expire(now), now);
      && (forall k :: k in utxos && utxos[k].status.Reserved? && utxos[k].status.expiresAt > now ==> after[k] == utxos[k])
      && (forall k :: k in after && after[k].status.Reserved? ==> after[k].status.expiresAt > now && after[k] == utxos[k])
      && (forall k :: k in after && after[k].status.Available? <==>
            k in utxos && (utxos[k].status.Available? || (utxos[k].status.Reserved? && utxos[k].status.expiresAt <= now)))
  {
    forall k | k in utxos
      ensures MovedAll(utxos, Expire(now), now)[k] == MovedRow(Expire(now), utxos[k], now)
    {
    }
  }

  /** Marking spent twice is marking spent once: the second call finds no row of the reservation and, the
      first having found one, a row already spent by that transaction. */
  lemma SpendTwice(utxos: Utxos, id: string, txid: string, now: nat, later: nat)
    ensures var once := MovedAll(utxos, Spend(id, txid), now);
      && Affected(once, Spend(id, txid)) == {}
      && MovedAll(once, Spend(id, txid), later) == once
      && (Affected(utxos, Spend(id, txid)) != {} ==> exists k :: k in once && SpentBy(once[k], txid))
  {
    var once := MovedAll(utxos, Spend(id, txid), now);
    forall k | k in utxos
      ensures Moved(Spend(id, txid), once[k].status).None?
      ensures Moved(Spend(id, txid), utxos[k].status).Some? ==> SpentBy(once[k], txid)
    {
      assert once[k] == MovedRow(Spend(id, txid), utxos[k], now);
    }
    if Affected(utxos, Spend(id, txid)) != {} {
      var k :| k in Affected(utxos, Spend(id, txid));
      assert k in once && SpentBy(once[k], txid);
    }
  }
}
