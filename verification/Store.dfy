/**
 The inventory stores of a maker (crates/rfq-store/src/lib.rs, crates/rfq-store/src/btc.rs). The RGB and
 the BTC store keep the same rows up to field names and differ only in that the BTC store has no
 acceptance stage, so one class models both. `StoreRuns` proves what every run of its operations keeps.
 */
module Store {
  import opened Bytes
  import opened Options

  datatype Outpoint = Outpoint(txid: string, vout: u32)

  datatype Status =
    | Available
    | Reserved(reservation: string, rfq: string, quote: string, expiresAt: nat)
    | PendingBitcoinConfirm(reservation: string, txid: string)
    | PendingRgbAcceptance(reservation: string, txid: string)
    | Spent(txid: string, quote: string)
    | Invalid(reason: string)

  /** A row of a store; the fields no operation touches are left out. */
  datatype Utxo = Utxo(outpoint: Outpoint, asset: string, amount: nat, sats: nat, status: Status, updatedAt: nat)

  type Utxos = map<Outpoint, Utxo>

  /** Every row is kept at its own outpoint. */
  ghost predicate WellKeyed(utxos: Utxos) {
    forall k :: k in utxos ==> utxos[k].outpoint == k
  }

  datatype StoreError =
    | UtxoNotFound(outpoint: Outpoint)
    | UtxoNotAvailable(outpoint: Outpoint, status: Status)
    | ReservationNotFound(reservation: string)

  /** The status changes a store makes to every row they apply to, under one lock. */
  datatype Move =
    | Release(reservation: string)
    | Expire(now: nat)
    | Extend(reservation: string, until: nat)
    | Broadcast(reservation: string, txid: string)
    | Confirm(reservation: string)
    | Spend(reservation: string, txid: string)
    | RejectAcceptance(reservation: string, reason: string)
    | Reorg(txid: string)

  /** The status a row is moved to, if the move applies to it. */
  function Moved(m: Move, s: Status): Option<Status> {
    match m
    case Release(id) => if s.Reserved? && s.reservation == id then Some(Available) else None
    case Expire(now) => if s.Reserved? && s.expiresAt <= now then Some(Available) else None
    case Extend(id, until) => if s.Reserved? && s.reservation == id then Some(s.(expiresAt := until)) else None
    case Broadcast(id, txid) =>
      if s.Reserved? && s.reservation == id then Some(PendingBitcoinConfirm(id, txid)) else None
    case Confirm(id) =>
      if s.PendingBitcoinConfirm? && s.reservation == id then Some(PendingRgbAcceptance(id, s.txid)) else None
    case Spend(id, txid) =>
      if s.Reserved? && s.reservation == id then Some(Spent(txid, s.quote))
      else if (s.PendingBitcoinConfirm? || s.PendingRgbAcceptance?) && s.reservation == id then
        Some(Spent(txid, "recovered-from-" + id))
      else None
    case RejectAcceptance(id, reason) =>
      if s.PendingRgbAcceptance? && s.reservation == id then Some(Invalid(reason)) else None
    case Reorg(txid) =>
      if s.Spent? && s.txid == txid then Some(Available)
      else if (s.PendingBitcoinConfirm? || s.PendingRgbAcceptance?) && s.txid == txid then
        Some(Invalid("reorged: witness tx " + txid + " orphaned"))
      else None
  }

  function MovedRow(m: Move, u: Utxo, now: nat): Utxo {
    match Moved(m, u.status)
    case None => u
    case Some(s) => u.(status := s, updatedAt := now)
  }

  /** The rows after a move: each is changed on its own, none comes or goes. */
  ghost function MovedAll(utxos: Utxos, m: Move, now: nat): Utxos {
    map k | k in utxos :: MovedRow(m, utxos[k], now)
  }

  function Stepped(step: Status -> Option<Status>, u: Utxo, now: nat): Utxo {
    match step(u.status)
    case None => u
    case Some(s) => u.(status := s, updatedAt := now)
  }

  ghost function Hits(utxos: Utxos, step: Status -> Option<Status>): set<Outpoint> {
    set k | k in utxos && step(utxos[k].status).Some?
  }

  /** The outpoints of the rows a move applies to. */
  ghost function Affected(utxos: Utxos, m: Move): set<Outpoint> {
    set k | k in utxos && Moved(m, utxos[k].status).Some?
  }

  /** The answer of a move that names a reservation: how many rows it changed, or that there were none. */
  ghost function Outcome(utxos: Utxos, m: Move, reservation: string): Result<nat, StoreError> {
    if Affected(utxos, m) == {} then Failure(ReservationNotFound(reservation)) else Success(|Affected(utxos, m)|)
  }

  /** Why an outpoint cannot be reserved. */
  function Blocked(utxos: Utxos, o: Outpoint): Option<StoreError> {
    if o !in utxos then Some(UtxoNotFound(o))
    else if !utxos[o].status.Available? then Some(UtxoNotAvailable(o, utxos[o].status))
    else None
  }

  /** The error of the first outpoint, in order, that cannot be reserved. */
  function FirstBlocked(utxos: Utxos, outpoints: seq<Outpoint>): Option<StoreError> {
    if |outpoints| == 0 then None
    else if Blocked(utxos, outpoints[0]).Some? then Blocked(utxos, outpoints[0])
    else FirstBlocked(utxos, outpoints[1..])
  }

  lemma {:induction false} FirstBlockedMeaning(utxos: Utxos, outpoints: seq<Outpoint>)
    ensures FirstBlocked(utxos, outpoints).None? <==> forall o :: o in outpoints ==> Blocked(utxos, o).None?
    ensures FirstBlocked(utxos, outpoints).Some? ==>
      exists o :: o in outpoints && Blocked(utxos, o) == FirstBlocked(utxos, outpoints)
  {
    if |outpoints| > 0 {
      FirstBlockedMeaning(utxos, outpoints[1..]);
      assert forall o :: o in outpoints <==> o == outpoints[0] || o in outpoints[1..];
    }
  }

  /** The rows after every outpoint named is given one status. */
  ghost function Restated(utxos: Utxos, outpoints: seq<Outpoint>, status: Status, now: nat): Utxos {
    map k | k in utxos :: if k in outpoints then utxos[k].(status := status, updatedAt := now) else utxos[k]
  }

  ghost function OtherAssets(utxos: Utxos, asset: string): Utxos {
    map k | k in utxos && utxos[k].asset != asset :: utxos[k]
  }

  /** Rows inserted in order, a later one replacing an earlier one at the same outpoint. */
  function Inserted(utxos: Utxos, rows: seq<Utxo>): Utxos {
    if |rows| == 0 then utxos
    else
      var last := rows[|rows| - 1];
      Inserted(utxos, rows[..|rows| - 1])[last.outpoint := last]
  }

  /** Each inserted outpoint holds its last row, and every other outpoint what it held. */
  lemma {:induction false} InsertedMeaning(utxos: Utxos, rows: seq<Utxo>)
    ensures forall k :: (forall j :: 0 <= j < |rows| ==> rows[j].outpoint != k) ==>
      (k in Inserted(utxos, rows) <==> k in utxos) && (k in utxos ==> Inserted(utxos, rows)[k] == utxos[k])
    ensures forall i :: 0 <= i < |rows| && (forall j :: i < j < |rows| ==> rows[j].outpoint != rows[i].outpoint) ==>
      rows[i].outpoint in Inserted(utxos, rows) && Inserted(utxos, rows)[rows[i].outpoint] == rows[i]
  {
    var after := Inserted(utxos, rows);
    assert rows[..|rows|] == rows;
    forall k | forall j :: 0 <= j < |rows| ==> rows[j].outpoint != k
      ensures (k in after <==> k in utxos) && (k in utxos ==> after[k] == utxos[k])
    {
      InsertedElsewhere(utxos, rows, |rows|, k);
    }
    forall i | 0 <= i < |rows| && forall j :: i < j < |rows| ==> rows[j].outpoint != rows[i].outpoint
      ensures rows[i].outpoint in after && after[rows[i].outpoint] == rows[i]
    {
      InsertedLast(utxos, rows, |rows|, i);
    }
  }

  lemma {:induction false} InsertedElsewhere(utxos: Utxos, rows: seq<Utxo>, n: nat, k: Outpoint)
    requires n <= |rows| && forall j :: 0 <= j < n ==> rows[j].outpoint != k
    ensures k in Inserted(utxos, rows[..n]) <==> k in utxos
    ensures k in utxos ==> Inserted(utxos, rows[..n])[k] == utxos[k]
  {
    if n > 0 {
      InsertedElsewhere(utxos, rows, n - 1, k);
      assert rows[..n][..n - 1] == rows[..n - 1];
    }
  }

  lemma {:induction false} InsertedLast(utxos: Utxos, rows: seq<Utxo>, n: nat, i: nat)
    requires i < n <= |rows| && forall j :: i < j < n ==> rows[j].outpoint != rows[i].outpoint
    ensures rows[i].outpoint in Inserted(utxos, rows[..n]) && Inserted(utxos, rows[..n])[rows[i].outpoint] == rows[i]
  {
    assert rows[..n][..n - 1] == rows[..n - 1];
    if i < n - 1 {
      InsertedLast(utxos, rows, n - 1, i);
    }
  }

  /** The loop every move shares: visit each row once, change it if the move applies, and count. */
  method ForEachRow(utxos: Utxos, step: Status -> Option<Status>, now: nat) returns (rows: Utxos, count: nat)
    ensures rows == map k | k in utxos :: Stepped(step, utxos[k], now)
    ensures count == |Hits(utxos, step)|
  {
    rows, count := utxos, 0;
    var todo := utxos.Keys;
    ghost var done: set<Outpoint> := {};
    while todo != {}
      invariant todo <= rows.Keys == utxos.Keys
      invariant forall k :: k in utxos ==> rows[k] == if k in todo then utxos[k] else Stepped(step, utxos[k], now)
      invariant forall k :: k in done <==> k in utxos && k !in todo && step(utxos[k].status).Some?
      invariant count == |done|
      decreases |todo|
    {
      var k :| k in todo;
      todo := todo - {k};
      var next := step(rows[k].status);
      if next.Some? {
        rows := rows[k := rows[k].(status := next.value, updatedAt := now)];
        count := count + 1;
        done := done + {k};
      }
    }
    assert done == Hits(utxos, step);
  }

  class InventoryStore {
    var utxos: Utxos

    constructor ()
      ensures utxos == map[]
    {
      utxos := map[];
    }

    method Apply(m: Move, now: nat) returns (count: nat)
      modifies this
      ensures utxos == MovedAll(old(utxos), m, now)
      ensures count == |Affected(old(utxos), m)|
    {
      var step := (s: Status) => Moved(m, s);
      assert Hits(utxos, step) == Affected(utxos, m);
      utxos, count := ForEachRow(utxos, step, now);
    }

    /** As `Apply`, refusing a reservation that has no row the move applies to. */
    method ApplyTo(m: Move, reservation: string, now: nat) returns (r: Result<nat, StoreError>)
      modifies this
      ensures utxos == MovedAll(old(utxos), m, now)
      ensures r == Outcome(old(utxos), m, reservation)
      ensures r.Failure? <==> forall k :: k in old(utxos) ==> Moved(m, old(utxos)[k].status).None?
    {
      assert forall k :: k in utxos && Moved(m, utxos[k].status).Some? ==> k in Affected(utxos, m);
      var count := Apply(m, now);
      if count == 0 {
        return Failure(ReservationNotFound(reservation));
      }
      r := Success(count);
    }

    method ReleaseReservation(reservation: string, now: nat) returns (r: Result<nat, StoreError>)
      modifies this
      ensures utxos == MovedAll(old(utxos), Release(reservation), now)
      ensures r == Outcome(old(utxos), Release(reservation), reservation)
      ensures utxos.Keys == old(utxos).Keys
      ensures forall k :: k in utxos ==>
        var u := old(utxos)[k];
        utxos[k] ==
          if u.status.Reserved? && u.status.reservation == reservation then
            u.(status := Available, updatedAt := now)
          else u
      ensures r.Success? ==>
        r.value == |set k | k in old(utxos) &&
          (var u := old(utxos)[k]; u.status.Reserved? && u.status.reservation == reservation)|
      ensures r.Failure? <==> forall k :: k in old(utxos) ==>
        var u := old(utxos)[k]; !(u.status.Reserved? && u.status.reservation == reservation)
      ensures r.Failure? ==> r.error == ReservationNotFound(reservation)
    {
      assert Affected(utxos, Release(reservation)) ==
        set k | k in utxos && (var u := utxos[k]; u.status.Reserved? && u.status.reservation == reservation);
      r := ApplyTo(Release(reservation), reservation, now);
    }

    /** A failed broadcast gives the reservation back. */
    method MarkBroadcastFailed(reservation: string, now: nat) returns (r: Result<nat, StoreError>)
      modifies this
      ensures utxos == MovedAll(old(utxos), Release(reservation), now)
      ensures r == Outcome(old(utxos), Release(reservation), reservation)
      ensures utxos.Keys == old(utxos).Keys
      ensures forall k :: k in utxos ==>
        var u := old(utxos)[k];
        utxos[k] ==
          if u.status.Reserved? && u.status.reservation == reservation then
            u.(status := Available, updatedAt := now)
          else u
      ensures r.Success? ==>
        r.value == |set k | k in old(utxos) &&
          (var u := old(utxos)[k]; u.status.Reserved? && u.status.reservation == reservation)|
      ensures r.Failure? <==> forall k :: k in old(utxos) ==>
        var u := old(utxos)[k]; !(u.status.Reserved? && u.status.reservation == reservation)
      ensures r.Failure? ==> r.error == ReservationNotFound(reservation)
    {
      r := ReleaseReservation(reservation, now);
    }

    method ReleaseExpiredReservations(now: nat) returns (released: nat)
      modifies this
      ensures utxos == MovedAll(old(utxos), Expire(now), now)
      ensures released == |Affected(old(utxos), Expire(now))|
      ensures utxos.Keys == old(utxos).Keys
      ensures forall k :: k in utxos ==>
        var u := old(utxos)[k];
        utxos[k] ==
          if u.status.Reserved? && u.status.expiresAt <= now then
            u.(status := Available, updatedAt := now)
          else u
      ensures released == |set k | k in old(utxos) &&
        (var u := old(utxos)[k]; u.status.Reserved? && u.status.expiresAt <= now)|
    {
      assert Affected(utxos, Expire(now)) ==
        set k | k in utxos && (var u := utxos[k]; u.status.Reserved? && u.status.expiresAt <= now);
      released := Apply(Expire(now), now);
    }

    method ExtendReservation(reservation: string, until: nat, now: nat) returns (r: Result<nat, StoreError>)
      modifies this
      ensures utxos == MovedAll(old(utxos), Extend(reservation, until), now)
      ensures r == Outcome(old(utxos), Extend(reservation, until), reservation)
      ensures utxos.Keys == old(utxos).Keys
      ensures forall k :: k in utxos ==>
        var u := old(utxos)[k];
        utxos[k] ==
          if u.status.Reserved? && u.status.reservation == reservation then
            u.(status := Reserved(reservation, u.status.rfq, u.status.quote, until), updatedAt := now)
          else u
      ensures r.Success? ==>
        r.value == |set k | k in old(utxos) &&
          (var u := old(utxos)[k]; u.status.Reserved? && u.status.reservation == reservation)|
      ensures r.Failure? <==> forall k :: k in old(utxos) ==>
        var u := old(utxos)[k]; !(u.status.Reserved? && u.status.reservation == reservation)
      ensures r.Failure? ==> r.error == ReservationNotFound(reservation)
    {
      assert Affected(utxos, Extend(reservation, until)) ==
        set k | k in utxos && (var u := utxos[k]; u.status.Reserved? && u.status.reservation == reservation);
      r := ApplyTo(Extend(reservation, until), reservation, now);
    }

    method MarkPendingBitcoinConfirm(reservation: string, txid: string, now: nat) returns (r: Result<nat, StoreError>)
      modifies this
      ensures utxos == MovedAll(old(utxos), Broadcast(reservation, txid), now)
      ensures r == Outcome(old(utxos), Broadcast(reservation, txid), reservation)
      ensures utxos.Keys == old(utxos).Keys
      ensures forall k :: k in utxos ==>
        var u := old(utxos)[k];
        utxos[k] ==
          if u.status.Reserved? && u.status.reservation == reservation then
            u.(status := PendingBitcoinConfirm(reservation, txid), updatedAt := now)
          else u
      ensures r.Success? ==>
        r.value == |set k | k in old(utxos) &&
          (var u := old(utxos)[k]; u.status.Reserved? && u.status.reservation == reservation)|
      ensures r.Failure? <==> forall k :: k in old(utxos) ==>
        var u := old(utxos)[k]; !(u.status.Reserved? && u.status.reservation == reservation)
      ensures r.Failure? ==> r.error == ReservationNotFound(reservation)
    {
      assert Affected(utxos, Broadcast(reservation, txid)) ==
        set k | k in utxos && (var u := utxos[k]; u.status.Reserved? && u.status.reservation == reservation);
      r := ApplyTo(Broadcast(reservation, txid), reservation, now);
    }

    method MarkPendingRgbAcceptance(reservation: string, now: nat) returns (r: Result<nat, StoreError>)
      modifies this
      ensures utxos == MovedAll(old(utxos), Confirm(reservation), now)
      ensures r == Outcome(old(utxos), Confirm(reservation), reservation)
      ensures utxos.Keys == old(utxos).Keys
      ensures forall k :: k in utxos ==>
        var u := old(utxos)[k];
        utxos[k] ==
          if u.status.PendingBitcoinConfirm? && u.status.reservation == reservation then
            u.(status := PendingRgbAcceptance(reservation, u.status.txid), updatedAt := now)
          else u
      ensures r.Success? ==>
        r.value == |set k | k in old(utxos) &&
          (var u := old(utxos)[k]; u.status.PendingBitcoinConfirm? && u.status.reservation == reservation)|
      ensures r.Failure? <==> forall k :: k in old(utxos) ==>
        var u := old(utxos)[k]; !(u.status.PendingBitcoinConfirm? && u.status.reservation == reservation)
      ensures r.Failure? ==> r.error == ReservationNotFound(reservation)
    {
      assert Affected(utxos, Confirm(reservation)) ==
        set k | k in utxos && (var u := utxos[k]; u.status.PendingBitcoinConfirm? && u.status.reservation == reservation);
      r := ApplyTo(Confirm(reservation), reservation, now);
    }

    method MarkRgbAcceptanceFailed(reservation: string, reason: string, now: nat) returns (r: Result<nat, StoreError>)
      modifies this
      ensures utxos == MovedAll(old(utxos), RejectAcceptance(reservation, reason), now)
      ensures r == Outcome(old(utxos), RejectAcceptance(reservation, reason), reservation)
      ensures utxos.Keys == old(utxos).Keys
      ensures forall k :: k in utxos ==>
        var u := old(utxos)[k];
        utxos[k] ==
          if u.status.PendingRgbAcceptance? && u.status.reservation == reservation then
            u.(status := Invalid(reason), updatedAt := now)
          else u
      ensures r.Success? ==>
        r.value == |set k | k in old(utxos) &&
          (var u := old(utxos)[k]; u.status.PendingRgbAcceptance? && u.status.reservation == reservation)|
      ensures r.Failure? <==> forall k :: k in old(utxos) ==>
        var u := old(utxos)[k]; !(u.status.PendingRgbAcceptance? && u.status.reservation == reservation)
      ensures r.Failure? ==> r.error == ReservationNotFound(reservation)
    {
      assert Affected(utxos, RejectAcceptance(reservation, reason)) ==
        set k | k in utxos && (var u := utxos[k]; u.status.PendingRgbAcceptance? && u.status.reservation == reservation);
      r := ApplyTo(RejectAcceptance(reservation, reason), reservation, now);
    }

    method MarkReorged(txid: string, now: nat) returns (updated: nat)
      modifies this
      ensures utxos == MovedAll(old(utxos), Reorg(txid), now)
      ensures updated == |Affected(old(utxos), Reorg(txid))|
      ensures utxos.Keys == old(utxos).Keys
      ensures forall k :: k in utxos ==>
        var u := old(utxos)[k];
        utxos[k] ==
          if u.status.Spent? && u.status.txid == txid then u.(status := Available, updatedAt := now)
          else if (u.status.PendingBitcoinConfirm? || u.status.PendingRgbAcceptance?) && u.status.txid == txid then
            u.(status := Invalid("reorged: witness tx " + txid + " orphaned"), updatedAt := now)
          else u
      ensures updated == |set k | k in old(utxos) && (var u := old(utxos)[k];
        (u.status.Spent? || u.status.PendingBitcoinConfirm? || u.status.PendingRgbAcceptance?) && u.status.txid == txid)|
    {
      assert Affected(utxos, Reorg(txid)) == set k | k in utxos && (var u := utxos[k];
        (u.status.Spent? || u.status.PendingBitcoinConfirm? || u.status.PendingRgbAcceptance?) && u.status.txid == txid);
      updated := Apply(Reorg(txid), now);
    }

    /** A repeated call finds its rows already spent by the same transaction, and succeeds. */
    method MarkSpent(reservation: string, txid: string, now: nat) returns (r: Result<nat, StoreError>)
      modifies this
      ensures utxos == MovedAll(old(utxos), Spend(reservation, txid), now)
      ensures r.Failure? <==>
        && Affected(old(utxos), Spend(reservation, txid)) == {}
        && !exists k :: k in old(utxos) && SpentBy(old(utxos)[k], txid)
      ensures r == if r.Failure? then Failure(ReservationNotFound(reservation))
                   else Success(|Affected(old(utxos), Spend(reservation, txid))|)
      ensures utxos.Keys == old(utxos).Keys
      ensures forall k :: k in utxos ==>
        var u := old(utxos)[k];
        utxos[k] ==
          if u.status.Reserved? && u.status.reservation == reservation then
            u.(status := Spent(txid, u.status.quote), updatedAt := now)
          else if (u.status.PendingBitcoinConfirm? || u.status.PendingRgbAcceptance?) && u.status.reservation == reservation
          then u.(status := Spent(txid, "recovered-from-" + reservation), updatedAt := now)
          else u
      ensures r.Failure? <==> forall k :: k in old(utxos) ==> var u := old(utxos)[k];
        && !((u.status.Reserved? || u.status.PendingBitcoinConfirm? || u.status.PendingRgbAcceptance?)
             && u.status.reservation == reservation)
        && !(u.status.Spent? && u.status.txid == txid)
      ensures r.Success? ==> r.value == |set k | k in old(utxos) && (var u := old(utxos)[k];
        (u.status.Reserved? || u.status.PendingBitcoinConfirm? || u.status.PendingRgbAcceptance?)
        && u.status.reservation == reservation)|
    {
      ghost var m := Spend(reservation, txid);
      assert forall k :: k in utxos && Moved(m, utxos[k].status).Some? ==> k in Affected(utxos, m);
      var alreadySpent := exists k :: k in utxos && SpentBy(utxos[k], txid);
      assert (set k | k in utxos && (var u := utxos[k];
        (u.status.Reserved? || u.status.PendingBitcoinConfirm? || u.status.PendingRgbAcceptance?)
        && u.status.reservation == reservation)) == Affected(utxos, m);
      var updated := Apply(Spend(reservation, txid), now);
      if updated == 0 && !alreadySpent {
        return Failure(ReservationNotFound(reservation));
      }
      r := Success(updated);
    }

    /** Reserves every outpoint or none: the first pass only checks, and only if every outpoint is available
        does the second one write. The fresh id comes from outside. */
    method Reserve(rfq: string, quote: string, outpoints: seq<Outpoint>, expiresAt: nat, freshId: string, now: nat)
        returns (r: Result<string, StoreError>)
      modifies this
      ensures r == match FirstBlocked(old(utxos), outpoints) case Some(e) => Failure(e) case None => Success(freshId)
      ensures r.Failure? ==> utxos == old(utxos)
      ensures r.Success? ==> utxos == Restated(old(utxos), outpoints, Reserved(freshId, rfq, quote, expiresAt), now)
      ensures r.Success? <==> forall o :: o in outpoints ==> o in old(utxos) && old(utxos)[o].status.Available?
      ensures r.Success? ==> r.value == freshId && utxos.Keys == old(utxos).Keys
      ensures r.Success? ==> forall k :: k in utxos ==>
        var u := old(utxos)[k];
        utxos[k] ==
          if k in outpoints then u.(status := Reserved(freshId, rfq, quote, expiresAt), updatedAt := now) else u
      ensures r.Failure? ==> exists i :: (
        && 0 <= i < |outpoints|
        && (forall j :: 0 <= j < i ==> outpoints[j] in old(utxos) && old(utxos)[outpoints[j]].status.Available?)
        && !(outpoints[i] in old(utxos) && old(utxos)[outpoints[i]].status.Available?)
        && r == Failure(
          if outpoints[i] !in old(utxos) then UtxoNotFound(outpoints[i])
          else UtxoNotAvailable(outpoints[i], old(utxos)[outpoints[i]].status)))
    {
      assert outpoints[0..] == outpoints;
      for i := 0 to |outpoints|
        invariant FirstBlocked(utxos, outpoints) == FirstBlocked(utxos, outpoints[i..])
        invariant forall j :: 0 <= j < i ==> outpoints[j] in utxos && utxos[outpoints[j]].status.Available?
        invariant utxos == old(utxos)
      {
        assert outpoints[i..][1..] == outpoints[i + 1..];
        if outpoints[i] !in utxos {
          return Failure(UtxoNotFound(outpoints[i]));
        }
        if !utxos[outpoints[i]].status.Available? {
          return Failure(UtxoNotAvailable(outpoints[i], utxos[outpoints[i]].status));
        }
      }
      FirstBlockedMeaning(utxos, outpoints);
      for i := 0 to |outpoints|
        invariant utxos == Restated(old(utxos), outpoints[..i], Reserved(freshId, rfq, quote, expiresAt), now)
      {
        assert outpoints[i] in outpoints && Blocked(old(utxos), outpoints[i]).None?;
        var utxo := utxos[outpoints[i]];
        utxos := utxos[outpoints[i] := utxo.(status := Reserved(freshId, rfq, quote, expiresAt), updatedAt := now)];
        assert outpoints[..i + 1] == outpoints[..i] + [outpoints[i]];
      }
      assert outpoints[..|outpoints|] == outpoints;
      r := Success(freshId);
    }

    /** Some live reservation of the quote; the rows are visited in no particular order. */
    method FindReservationForQuote(quote: string) returns (r: Option<string>)
      ensures r.None? <==> forall k :: k in utxos ==> !HeldFor(utxos[k], quote)
      ensures r.Some? ==> exists k :: k in utxos && HeldFor(utxos[k], quote) && utxos[k].status.reservation == r.value
      ensures r.None? <==> forall k :: k in utxos ==> !(utxos[k].status.Reserved? && utxos[k].status.quote == quote)
      ensures r.Some? ==> exists k :: (
        && k in utxos && utxos[k].status.Reserved?
        && utxos[k].status.quote == quote && utxos[k].status.reservation == r.value)
    {
      var todo := utxos.Keys;
      while todo != {}
        invariant forall k :: k in utxos && k !in todo ==> !HeldFor(utxos[k], quote)
        invariant todo <= utxos.Keys
        decreases |todo|
      {
        var k :| k in todo;
        todo := todo - {k};
        if HeldFor(utxos[k], quote) {
          return Some(utxos[k].status.reservation);
        }
      }
      r := None;
    }

    /** A row of a change output; an outpoint already known is refused whatever its status. */
    method IngestChangeUtxo(u: Utxo) returns (r: Result<(), StoreError>)
      modifies this
      ensures u.outpoint in old(utxos) ==>
        utxos == old(utxos) && r == Failure(UtxoNotAvailable(u.outpoint, old(utxos)[u.outpoint].status))
      ensures u.outpoint !in old(utxos) ==> r.Success? && utxos == old(utxos)[u.outpoint := u]
    {
      if u.outpoint in utxos {
        return Failure(UtxoNotAvailable(u.outpoint, utxos[u.outpoint].status));
      }
      utxos := utxos[u.outpoint := u];
      r := Success(());
    }

    method MarkInvalid(o: Outpoint, reason: string, now: nat) returns (r: Result<(), StoreError>)
      modifies this
      ensures o !in old(utxos) ==> utxos == old(utxos) && r == Failure(UtxoNotFound(o))
      ensures o in old(utxos) ==> r.Success? && utxos == Restated(old(utxos), [o], Invalid(reason), now)
      ensures o in old(utxos) ==>
        utxos == old(utxos)[o := old(utxos)[o].(status := Invalid(reason), updatedAt := now)]
    {
      if o !in utxos {
        return Failure(UtxoNotFound(o));
      }
      utxos := utxos[o := utxos[o].(status := Invalid(reason), updatedAt := now)];
      r := Success(());
    }

    method ReplaceForAsset(asset: string, rows: seq<Utxo>)
      modifies this
      ensures utxos == Inserted(OtherAssets(old(utxos), asset), rows)
      ensures forall i :: 0 <= i < |rows| && (forall j :: i < j < |rows| ==> rows[j].outpoint != rows[i].outpoint) ==>
        rows[i].outpoint in utxos && utxos[rows[i].outpoint] == rows[i]
      ensures forall k :: (forall j :: 0 <= j < |rows| ==> rows[j].outpoint != k) ==>
        (k in utxos <==> k in old(utxos) && old(utxos)[k].asset != asset) && (k in utxos ==> utxos[k] == old(utxos)[k])
    {
      utxos := map k | k in utxos && utxos[k].asset != asset :: utxos[k];
      for i := 0 to |rows|
        invariant utxos == Inserted(OtherAssets(old(utxos), asset), rows[..i])
      {
        assert rows[..i + 1][..i] == rows[..i];
        utxos := utxos[rows[i].outpoint := rows[i]];
      }
      assert rows[..|rows|] == rows;
      InsertedMeaning(OtherAssets(old(utxos), asset), rows);
    }
  }

  predicate SpentBy(u: Utxo, txid: string) {
    u.status.Spent? && u.status.txid == txid
  }

  predicate HeldFor(u: Utxo, quote: string) {
    u.status.Reserved? && u.status.quote == quote
  }

}
