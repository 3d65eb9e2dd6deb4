/**
 The durable inventory store (crates/rfq-store/src/sqlite.rs:78-322): an in-memory working copy written
 through to a database after every mutation. Serialisation of a row is taken to be faithful, and the database
 to commit a transaction whole or not at all; whether it commits comes from outside.
 */
module SqliteStore {
  import opened Options
  import opened Store
  import opened StoreRuns

  datatype DurableError = Refused(error: StoreError) | Backend

  class SqliteInventoryStore {
    const mem: InventoryStore
    /** The rows of the table, as last committed. */
    var disk: Utxos

    /** Opening loads every persisted row into a fresh working copy. */
    constructor Open(table: Utxos)
      requires WellKeyed(table)
      ensures fresh(mem) && mem.utxos == table && disk == table
    {
      disk := table;
      mem := new InventoryStore();
      new;
      var todo := table.Keys;
      while todo != {}
        invariant todo <= table.Keys && disk == table && fresh(mem)
        invariant mem.utxos == map k | k in table && k !in todo :: table[k]
        decreases |todo|
      {
        var k :| k in todo;
        todo := todo - {k};
        var row := table[k];
        mem.utxos := mem.utxos[row.outpoint := row];
      }
      assert (map k | k in table && k !in todo :: table[k]) == table;
    }

    /** Replaces the table by the working copy, row by row in one transaction. */
    method Persist(commits: bool) returns (ok: bool)
      modifies this`disk
      ensures ok == commits && disk == if commits then mem.utxos else old(disk)
    {
      var transaction: Utxos := map[];
      var todo := mem.utxos.Keys;
      while todo != {}
        invariant todo <= mem.utxos.Keys
        invariant transaction == map k | k in mem.utxos && k !in todo :: mem.utxos[k]
        decreases |todo|
      {
        var k :| k in todo;
        todo := todo - {k};
        transaction := transaction[k := mem.utxos[k]];
      }
      assert transaction == mem.utxos;
      if commits {
        disk := transaction;
      }
      ok := commits;
    }

    /** Working copy and table. */
    ghost function Both(): Durable
      reads this, mem
    {
      Durable(mem.utxos, disk)
    }

    /** Releasing, extending, and the marks of the settlement but spending. */
    method MoveReservation(m: Move, now: nat, commits: bool) returns (r: Result<nat, DurableError>)
      requires m.Release? || m.Extend? || m.Broadcast? || m.Confirm? || m.RejectAcceptance?
      modifies this`disk, mem
      ensures Both() == Written(old(Both()), Write(Step(Lifecycle(m), now), r.Success?))
      ensures r.Success? <==> commits && Affected(old(mem.utxos), m) != {}
      ensures r.Success? ==> r.value == |Affected(old(mem.utxos), m)|
      ensures disk == if r.Success? then mem.utxos else old(disk)
      ensures r == Failure(Backend) <==> !commits && Affected(old(mem.utxos), m) != {}
    {
      var inner := mem.ApplyTo(m, m.reservation, now);
      if inner.Failure? {
        return Failure(Refused(inner.error));
      }
      var ok := Persist(commits);
      r := if ok then Success(inner.value) else Failure(Backend);
    }

    method MarkSpent(reservation: string, txid: string, now: nat, commits: bool) returns (r: Result<nat, DurableError>)
      modifies this`disk, mem
      ensures Both() == Written(old(Both()), Write(Step(Lifecycle(Spend(reservation, txid)), now), r.Success?))
      ensures disk == if r.Success? then mem.utxos else old(disk)
      ensures r.Success? ==> commits
      ensures r == Failure(Backend) ==> !commits
      ensures r.Failure? && r.error.Refused? <==> forall k :: k in old(mem.utxos) ==>
        var status := old(mem.utxos)[k].status;
        && !((status.Reserved? || status.PendingBitcoinConfirm? || status.PendingRgbAcceptance?)
             && status.reservation == reservation)
        && !(status.Spent? && status.txid == txid)
    {
      var inner := mem.MarkSpent(reservation, txid, now);
      if inner.Failure? {
        return Failure(Refused(inner.error));
      }
      var ok := Persist(commits);
      r := if ok then Success(inner.value) else Failure(Backend);
    }

    /** Expiry writes through only if it released something, and swallows a failed write. */
    method ReleaseExpiredReservations(now: nat, commits: bool) returns (released: nat)
      modifies this`disk, mem
      ensures released == |Affected(old(mem.utxos), Expire(now))|
      ensures Both() == Written(old(Both()), Write(Step(Lifecycle(Expire(now)), now), released > 0 && commits))
      ensures disk == if released > 0 && commits then mem.utxos else old(disk)
    {
      released := mem.ReleaseExpiredReservations(now);
      if released > 0 {
        var _ := Persist(commits);
      }
    }

    /** An error from the database leaves the rows reserved in memory all the same. */
    method Reserve(rfq: string, quote: string, outpoints: seq<Outpoint>, expiresAt: nat, freshId: string, now: nat, commits: bool)
        returns (r: Result<string, DurableError>)
      modifies this`disk, mem
      ensures Both() == Written(old(Both()), Write(Step(Op.Reserve(rfq, quote, outpoints, expiresAt, freshId), now), r.Success?))
      ensures r.Success? <==> commits && FirstBlocked(old(mem.utxos), outpoints).None?
      ensures r.Success? ==> r.value == freshId
      ensures disk == if r.Success? then mem.utxos else old(disk)
    {
      var inner := mem.Reserve(rfq, quote, outpoints, expiresAt, freshId, now);
      if inner.Failure? {
        return Failure(Refused(inner.error));
      }
      var ok := Persist(commits);
      r := if ok then Success(inner.value) else Failure(Backend);
    }

    method IngestChangeUtxo(row: Utxo, now: nat, commits: bool) returns (r: Result<(), DurableError>)
      modifies this`disk, mem
      ensures Both() == Written(old(Both()), Write(Step(Ingest(row), now), r.Success?))
      ensures r.Success? <==> commits && row.outpoint !in old(mem.utxos)
      ensures disk == if r.Success? then mem.utxos else old(disk)
    {
      var inner := mem.IngestChangeUtxo(row);
      if inner.Failure? {
        return Failure(Refused(inner.error));
      }
      var ok := Persist(commits);
      r := if ok then Success(()) else Failure(Backend);
    }

    method MarkInvalid(o: Outpoint, reason: string, now: nat, commits: bool) returns (r: Result<(), DurableError>)
      modifies this`disk, mem
      ensures Both() == Written(old(Both()), Write(Step(Invalidate(o, reason), now), r.Success?))
      ensures r.Success? <==> commits && o in old(mem.utxos)
      ensures o in old(mem.utxos) ==>
        mem.utxos == old(mem.utxos)[o := old(mem.utxos)[o].(status := Invalid(reason), updatedAt := now)]
      ensures disk == if r.Success? then mem.utxos else old(disk)
    {
      var inner := mem.MarkInvalid(o, reason, now);
      if inner.Failure? {
        return Failure(Refused(inner.error));
      }
      var ok := Persist(commits);
      r := if ok then Success(()) else Failure(Backend);
    }
  }

  // Any run of mutations, each with its commit outcome.

  datatype Write = Write(step: Step, commits: bool)

  datatype Durable = Durable(mem: Utxos, disk: Utxos)

  /** One mutation: the working copy always moves; the table follows if the mutation was accepted, wrote
      through and committed. */
  ghost function Written(d: Durable, w: Write): Durable {
    var mem := Applied(d.mem, w.step.op, w.step.now);
    Durable(mem, if w.commits then mem else d.disk)
  }

  ghost function WrittenAll(d: Durable, run: seq<Write>): Durable {
    if |run| == 0 then d else Written(WrittenAll(d, run[..|run| - 1]), run[|run| - 1])
  }

  /** The mutations up to the last one that committed. */
  function Committed(run: seq<Write>): (r: seq<Write>)
    ensures r <= run && (|r| > 0 ==> r[|r| - 1].commits)
    ensures forall i :: |r| <= i < |run| ==> !run[i].commits
  {
    if |run| == 0 then [] else if run[|run| - 1].commits then run else Committed(run[..|run| - 1])
  }

  /** Whenever a mutation commits, the table is the working copy, whatever failed before. Whatever commits and
      whatever fails, opening the store after a crash gives the working copy exactly as
      it was after the last mutation that committed, including earlier ones whose own commit had failed. */
  lemma {:induction false} RecoversLastCommit(start: Utxos, run: seq<Write>)
    ensures WrittenAll(Durable(start, start), run).disk == WrittenAll(Durable(start, start), Committed(run)).mem
    ensures |run| > 0 && run[|run| - 1].commits ==>
      WrittenAll(Durable(start, start), run).disk == WrittenAll(Durable(start, start), run).mem
  {
    if |run| > 0 && !run[|run| - 1].commits {
      RecoversLastCommit(start, run[..|run| - 1]);
    }
  }
}
