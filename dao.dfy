/** The request store: the table of registration requests, updated in place. */
module RequestStore {
  import opened Wrappers
  import opened RegistrationStatus
  import opened RegistrationEntity
  import opened RequestTable

  /** The kinds of audit record the store writes. */
  datatype AuditLogType = AuditUpdate | AuditDelete

  /** One audit record: which request, what happened, who did it, and the request's message. */
  datatype AuditEntry = AuditEntry(entityId: string, kind: AuditLogType, actorId: string, message: string)

  /** A lookup inside `update` or `delete` that finds no active row. */
  datatype StoreError = NoResult

  /** The state a transaction returns to when it rolls back. */
  datatype Savepoint = Savepoint(rows: Table, auditLog: seq<AuditEntry>)

  class UserRegistrationRequestDao {
    /** Every request ever persisted, soft-deleted ones included, by id. */
    var rows: Table
    /** Audit records written by `update` and `delete`, oldest first. */
    var auditLog: seq<AuditEntry>
    /** The latest date handed out; dates never go back. */
    var clock: int

    ghost predicate Valid()
      reads this
    {
      WellFormed(rows) && CreatedBy(rows, clock)
    }

    constructor (start: int)
      ensures Valid()
      ensures rows == map[] && auditLog == [] && clock == start
    {
      rows, auditLog, clock := map[], [], start;
    }

    /** The active request with this id, or None; absence is not an error. */
    function GetActiveById(id: string): Option<Request>
      reads this
      requires Valid()
    {
      ActiveById(rows, id)
    }

    /**
     * Persists a new request: gives it the fresh id `uuid`, stamps its creation date with
     * `now` and forces its status to PENDING, whatever status it carried.
     */
    method Create(request: UserRegistrationRequest, uuid: string, now: int) returns (newId: string)
      requires Valid() && clock <= now
      requires uuid !in rows && |uuid| <= IdColumnLength
      requires request.username.Some? && |request.username.value| <= UsernameColumnLength
      requires request.email.Some? && |request.email.value| <= EmailColumnLength
      requires request.reason.Some? ==> |request.reason.value| <= ReasonColumnLength
      modifies this, request`id, request`createDate, request`status
      ensures Valid() && clock == now && auditLog == old(auditLog)
      ensures newId == uuid
      ensures CreatedBy(old(rows), now)
      ensures request.id == Some(newId) && request.createDate == Some(now) && request.status == Some(Pending)
      ensures request.HasMandatoryColumns()
      ensures rows == Inserted(old(rows), request.Persisted())
      ensures request.deleteDate.None? ==> GetActiveById(newId) == Some(request.Persisted())
    {
      var r := request.SetId(Some(uuid));
      r := r.SetCreateDate(Some(now));
      r := r.SetStatus(Some(Pending));
      CreatedByLater(rows, clock, now);
      rows := Inserted(rows, request.Persisted());
      clock := now;
      newId := request.GetId().value;
    }

    /**
     * The active PENDING requests, each exactly once, newest first. Approved, rejected and
     * soft-deleted requests are left out.
     */
    method FindAllPending() returns (list: seq<Request>)
      requires Valid()
      ensures multiset(list) == multiset(PendingRows(rows))
      ensures NewestFirst(list)
    {
      var remaining := PendingRows(rows);
      list := [];
      while remaining != {}
        invariant remaining <= PendingRows(rows)
        invariant multiset(list) + multiset(remaining) == multiset(PendingRows(rows))
        invariant NewestFirst(list)
        decreases remaining
      {
        var r :| r in remaining;
        list := InsertByDate(list, r);
        assert multiset(remaining) == multiset(remaining - {r}) + multiset{r};
        remaining := remaining - {r};
      }
    }

    /**
     * Writes the status and reason of `request` onto the active row with the same id and
     * stamps its update date; fails when no active row has that id.
     */
    method Update(request: Request, actorId: string, now: int) returns (result: Result<Request, StoreError>)
      requires Valid() && clock <= now
      requires request.reason.Some? ==> |request.reason.value| <= ReasonColumnLength
      modifies this
      ensures Valid() && clock == now
      ensures old(GetActiveById(request.id)).None? ==>
        result == Failure(NoResult) && rows == old(rows) && auditLog == old(auditLog)
      ensures old(GetActiveById(request.id)).Some? ==>
        && rows == Updated(old(rows), request.id, request.status, request.reason, now)
        && result == Success(rows[request.id])
        && auditLog == old(auditLog) + [AuditEntry(request.id, AuditUpdate, actorId, rows[request.id].ToMessage())]
    {
      CreatedByLater(rows, clock, now);
      clock := now;
      var found := ActiveById(rows, request.id);
      if found.None? {
        return Failure(NoResult);
      }
      rows := Updated(rows, request.id, request.status, request.reason, now);
      var stored := rows[request.id];
      auditLog := auditLog + [AuditEntry(stored.id, AuditUpdate, actorId, stored.ToMessage())];
      result := Success(stored);
    }

    /**
     * Soft-deletes the active row with this id by stamping its delete date; the row stays
     * in the table. Fails when no active row has that id.
     */
    method Delete(id: string, actorId: string, now: int) returns (outcome: Outcome<StoreError>)
      requires Valid() && clock <= now
      modifies this
      ensures Valid() && clock == now
      ensures old(GetActiveById(id)).None? ==>
        outcome == Fail(NoResult) && rows == old(rows) && auditLog == old(auditLog)
      ensures old(GetActiveById(id)).Some? ==>
        && outcome == Pass
        && rows == SoftDeleted(old(rows), id, now)
        && auditLog == old(auditLog) + [AuditEntry(id, AuditDelete, actorId, rows[id].ToMessage())]
      ensures GetActiveById(id).None?
    {
      CreatedByLater(rows, clock, now);
      clock := now;
      var found := ActiveById(rows, id);
      if found.None? {
        return Fail(NoResult);
      }
      rows := SoftDeleted(rows, id, now);
      auditLog := auditLog + [AuditEntry(id, AuditDelete, actorId, rows[id].ToMessage())];
      outcome := Pass;
    }

    /** The state to return to if the enclosing transaction fails. */
    function Mark(): Savepoint
      reads this
    {
      Savepoint(rows, auditLog)
    }

    /** Rolls the enclosing transaction back to `savepoint`; the clock keeps its time. */
    method Rollback(savepoint: Savepoint)
      requires WellFormed(savepoint.rows) && CreatedBy(savepoint.rows, clock)
      modifies this
      ensures Valid()
      ensures rows == savepoint.rows && auditLog == savepoint.auditLog && clock == old(clock)
    {
      rows, auditLog := savepoint.rows, savepoint.auditLog;
    }
  }
}
