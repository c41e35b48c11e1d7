/** The hooks of src/lib/idempotency.ts as one request runs them when nothing else comes in
    between its awaits. `Idempotency` has the interleaved protocol over the same statements. */
module IdempotencyHooks {
  import opened Wrappers
  import opened Idempotency

  /** The IdempotencyKey table: every method is one atomic statement. */
  class IdempotencyTable {
    var rows: Table
    var nextId: RowId

    ghost predicate Valid()
      reads this
    {
      UniqueSlots(rows) && forall i :: i in rows ==> i < nextId
    }

    constructor ()
      ensures Valid() && rows == map[]
    {
      rows, nextId := map[], 0;
    }

    method Find(slot: Slot) returns (found: Option<(RowId, Row)>)
      ensures found.None? ==> !Occupied(rows, slot)
      ensures found.Some? ==>
        found.value.0 in rows && rows[found.value.0] == found.value.1 && found.value.1.slot == slot
    {
      if i :| i in rows && rows[i].slot == slot {
        return Some((i, rows[i]));
      }
      return None;
    }

    /** `None` is the unique-constraint violation. */
    method Create(slot: Slot, requestHash: string, createdAt: int, expiresAt: int) returns (id: Option<RowId>)
      requires Valid()
      modifies this
      ensures Valid()
      ensures id == if Occupied(old(rows), slot) then None else Some(old(nextId))
      ensures rows == if Occupied(old(rows), slot) then old(rows)
                      else old(rows)[old(nextId) := Row(slot, requestHash, true, None, None, createdAt, expiresAt)]
    {
      var taken := Find(slot);
      if taken.Some? { return None; }
      id := Some(nextId);
      rows := rows[nextId := Row(slot, requestHash, true, None, None, createdAt, expiresAt)];
      nextId := nextId + 1;
    }

    method Delete(id: RowId)
      requires Valid()
      modifies this`rows
      ensures Valid() && rows == DeleteById(old(rows), id)
    {
      rows := rows - {id};
    }

    method Update(id: RowId, status: int, body: Option<string>)
      requires Valid()
      modifies this`rows
      ensures Valid() && rows == UpdateById(old(rows), id, status, body)
    {
      if id in rows {
        rows := rows[id := rows[id].(inProgress := false, responseStatus := Some(status), responseBody := body)];
      }
    }

    /** The scheduler's sweep; returns how many rows it deleted. */
    method CleanupExpired(now: int) returns (count: int)
      requires Valid()
      modifies this`rows
      ensures Valid() && rows == DeleteExpired(old(rows), now)
      ensures forall i :: i in rows <==> i in old(rows) && old(rows)[i].expiresAt >= now
      ensures forall i :: i in rows ==> rows[i] == old(rows)[i]
      ensures count == |old(rows)| - |rows|
    {
      var before := |rows|;
      rows := map i | i in rows && rows[i].expiresAt >= now :: rows[i];
      count := before - |rows|;
    }
  }

  datatype Marker = Marker(rowId: RowId, captured: Option<Outcome>)

  datatype Verdict = Proceed | Rejected(why: Refusal) | Answered(status: int, body: string)

  /** What a request that finds `row` is told at clock reading `now`: with another body that the
      key is reused; with the same body that the first one is in progress, or its stored response;
      and to go ahead past the expiry, or when the row has been in progress for too long. */
  predicate Fits(cfg: Config, row: Row, requestHash: string, now: int, verdict: Verdict) {
    var live, same := row.expiresAt > now, row.requestHash == requestHash;
    && (verdict == Rejected(KeyReused) <==> live && !same)
    && (verdict == Rejected(StillInProgress) <==>
          live && same && row.inProgress && row.createdAt + cfg.stale >= now)
    && (verdict.Answered? <==> live && same && !row.inProgress)
    && (verdict.Answered? && row.responseStatus.Some? ==> verdict.status == row.responseStatus.value)
    && (verdict.Answered? && row.responseStatus.None? ==> verdict.status == 200)
    && (verdict.Answered? && row.responseBody.Some? ==> verdict.body == row.responseBody.value)
    && (verdict.Answered? && row.responseBody.None? ==> verdict.body == "")
    && (verdict.Proceed? <==> !live || (same && row.inProgress && row.createdAt + cfg.stale < now))
  }

  class Request {
    const slot: Slot
    const requestHash: string
    var marker: Option<Marker>

    constructor (slot: Slot, requestHash: string)
      ensures this.slot == slot && this.requestHash == requestHash && marker == None
    {
      this.slot, this.requestHash, marker := slot, requestHash, None;
    }

    /** The verdict is the one that fits the row of the slot. When the handler may run, the slot
        then holds this request's row alone; otherwise nothing is written. */
    method PreHandler(cfg: Config, db: IdempotencyTable, now: int) returns (verdict: Verdict)
      requires db.Valid() && marker.None?
      modifies this, db
      ensures db.Valid()
      ensures forall i :: i in old(db.rows) && old(db.rows)[i].slot == slot ==>
                Fits(cfg, old(db.rows)[i], requestHash, now, verdict)
      ensures !Occupied(old(db.rows), slot) ==> verdict.Proceed?
      ensures verdict.Proceed? ==>
                && marker == Some(Marker(old(db.nextId), None))
                && db.rows == (map i | i in old(db.rows) && old(db.rows)[i].slot != slot :: old(db.rows)[i])
                              [old(db.nextId) := Row(slot, requestHash, true, None, None, now, now + cfg.retention)]
      ensures !verdict.Proceed? ==> db.rows == old(db.rows) && marker == None
    {
      var found := db.Find(slot);
      match Decide(cfg, found, requestHash, now) {
        case Fresh =>
        case TakeOver(victim) => db.Delete(victim);
        case Refuse(why) => return Rejected(why);
        case Replay(source, status, body) => return Verdict.Answered(status, body);
      }
      assert db.rows == map i | i in old(db.rows) && old(db.rows)[i].slot != slot :: old(db.rows)[i];
      var id := db.Create(slot, requestHash, now, now + cfg.retention);
      if id.None? {
        return Rejected(LostRace);
      }
      marker := Some(Marker(id.value, None));
      verdict := Proceed;
    }

    /** Only the first response of a request that created a row is captured. */
    method CaptureOnSend(status: int, payload: Option<string>)
      modifies this
      ensures marker.Some? <==> old(marker).Some?
      ensures marker.Some? ==>
                && marker.value.rowId == old(marker).value.rowId
                && marker.value.captured.Some?
                && (old(marker).value.captured.Some? ==> marker.value.captured == old(marker).value.captured)
                && (old(marker).value.captured.None? ==> marker.value.captured.value == Outcome(status, payload))
    {
      if marker.Some? && marker.value.captured.None? {
        marker := Some(marker.value.(captured := Some(Outcome(status, payload))));
      }
    }

    /** Writes the captured response to, or frees, the request's own row; a second call finds
        the marker cleared and does nothing. */
    method FinalizeOnResponse(db: IdempotencyTable)
      requires db.Valid()
      modifies this, db`rows
      ensures db.Valid()
      ensures old(marker).None? || old(marker).value.captured.None? ==> marker == old(marker) && db.rows == old(db.rows)
      ensures old(marker).Some? && old(marker).value.captured.Some? ==>
                && marker == None
                && var m := old(marker).value;
                   db.rows == if Ok2xx(m.captured.value.status)
                              then UpdateById(old(db.rows), m.rowId, m.captured.value.status, m.captured.value.body)
                              else DeleteById(old(db.rows), m.rowId)
    {
      if marker.None? || marker.value.captured.None? { return; }
      var m := marker.value;
      marker := None;
      if 200 <= m.captured.value.status < 300 {
        db.Update(m.rowId, m.captured.value.status, m.captured.value.body);
      } else {
        db.Delete(m.rowId);
      }
    }
  }
}
