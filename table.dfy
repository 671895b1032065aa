/**
 * The request table as a value: a map from id to stored row, soft-deleted rows included.
 * The queries and the row changes of the request store are defined here once, and the
 * store's methods are specified by them.
 */
module RequestTable {
  import opened Wrappers
  import opened RegistrationStatus
  import opened RegistrationEntity

  type Table = map<string, Request>

  /** Every row sits under its own id and fits the columns of the table. */
  ghost predicate WellFormed(t: Table) {
    forall id :: id in t ==> t[id].id == id && t[id].FitsColumns()
  }

  /** No row was created after `clock`. */
  ghost predicate CreatedBy(t: Table, clock: int) {
    forall id :: id in t ==> t[id].createDate <= clock
  }

  /** A later clock bounds the same rows. */
  lemma CreatedByLater(t: Table, clock: int, later: int)
    requires CreatedBy(t, clock) && clock <= later
    ensures CreatedBy(t, later)
  {
  }

  /** In a well-formed table, a stored row is the one under its own id. */
  lemma StoredUnderOwnId(t: Table, r: Request)
    requires WellFormed(t) && r in t.Values
    ensures r.id in t && t[r.id] == r
  {
  }

  /**
   * The active row with id `id`: the row whose id matches and whose delete date is unset,
   * or None when there is no such row.
   */
  function ActiveById(t: Table, id: string): (found: Option<Request>)
    requires WellFormed(t)
    ensures found.Some? <==> exists r :: r in t.Values && r.id == id && r.IsActive()
    ensures found.Some? ==> found.value in t.Values && found.value.id == id && found.value.IsActive()
  {
    if id in t && t[id].IsActive() then
      Some(t[id])
    else
      assert forall r :: r in t.Values && r.id == id ==> !r.IsActive() by {
        forall r | r in t.Values && r.id == id
          ensures !r.IsActive()
        {
          StoredUnderOwnId(t, r);
        }
      }
      None
  }

  /** The rows that are active and still PENDING, as a set. */
  function PendingRows(t: Table): (pending: set<Request>)
    ensures forall r :: r in pending <==> r in t.Values && r.status == Pending && r.IsActive()
  {
    set id | id in t && t[id].status == Pending && t[id].IsActive() :: t[id]
  }

  /** Every listed pending row is what the lookup by its id finds. */
  lemma PendingRowsAreFoundById(t: Table, r: Request)
    requires WellFormed(t) && r in PendingRows(t)
    ensures ActiveById(t, r.id) == Some(r)
  {
  }

  /** The table after persisting the new row `r` under its fresh id. */
  function Inserted(t: Table, r: Request): (t': Table)
    requires WellFormed(t) && r.id !in t && r.FitsColumns()
    ensures WellFormed(t') && t'.Keys == t.Keys + {r.id}
    ensures forall id :: id in t ==> t'[id] == t[id]
    ensures ActiveById(t', r.id) == if r.IsActive() then Some(r) else None
    ensures forall id :: id != r.id ==> ActiveById(t', id) == ActiveById(t, id)
    ensures PendingRows(t') == if r.status == Pending && r.IsActive() then PendingRows(t) + {r} else PendingRows(t)
  {
    var t' := t[r.id := r];
    assert forall x :: x in t'.Values <==> x in t.Values || x == r by {
      forall x
        ensures x in t'.Values <==> x in t.Values || x == r
      {
        assert t'[r.id] == r;
        if x in t.Values {
          var k :| k in t && t[k] == x;
          assert t'[k] == x;
        }
        if x in t'.Values {
          var k :| k in t' && t'[k] == x;
          if k != r.id { assert t[k] == x; }
        }
      }
    }
    t'
  }

  /** Replacing the row under `id` by another row with the same id swaps one value for the other. */
  lemma ReplacedRow(t: Table, id: string, row: Request)
    requires WellFormed(t) && id in t && row.id == id && row.FitsColumns()
    ensures WellFormed(t[id := row])
    ensures forall x :: x in t[id := row].Values <==> (x in t.Values && x != t[id]) || x == row
    ensures PendingRows(t[id := row])
            == (PendingRows(t) - {t[id]}) + (if row.status == Pending && row.IsActive() then {row} else {})
  {
    var t' := t[id := row];
    forall x
      ensures x in t'.Values <==> (x in t.Values && x != t[id]) || x == row
    {
      assert t'[id] == row;
      if x in t.Values && x != t[id] {
        var k :| k in t && t[k] == x;
        assert t'[k] == x;
      }
      if x in t'.Values {
        var k :| k in t' && t'[k] == x;
        if k != id {
          assert t[k] == x;
        }
      }
    }
  }

  /**
   * The table after `update` of the active row `id`: that row takes the new status,
   * reason and update date, and nothing else changes.
   */
  function Updated(t: Table, id: string, status: Status, reason: Option<string>, now: int): (t': Table)
    requires WellFormed(t) && ActiveById(t, id).Some?
    requires reason.Some? ==> |reason.value| <= ReasonColumnLength
    ensures WellFormed(t') && t'.Keys == t.Keys
    ensures forall k :: k in t && k != id ==> t'[k] == t[k]
    ensures t'[id].status == status && t'[id].reason == reason && t'[id].updateDate == Some(now)
    ensures t'[id].id == id && t'[id].username == t[id].username && t'[id].email == t[id].email
    ensures t'[id].createDate == t[id].createDate && t'[id].deleteDate == t[id].deleteDate
    ensures ActiveById(t', id) == Some(t'[id])
    ensures PendingRows(t') == (PendingRows(t) - {t[id]}) + (if status == Pending then {t'[id]} else {})
  {
    var row := t[id].(status := status, reason := reason, updateDate := Some(now));
    ReplacedRow(t, id, row);
    t[id := row]
  }

  /** The table after `delete` of the active row `id`: the row stays, marked deleted at `now`. */
  function SoftDeleted(t: Table, id: string, now: int): (t': Table)
    requires WellFormed(t) && ActiveById(t, id).Some?
    ensures WellFormed(t') && t'.Keys == t.Keys
    ensures forall k :: k in t && k != id ==> t'[k] == t[k]
    ensures t'[id] == t[id].(deleteDate := Some(now))
    ensures ActiveById(t', id) == None
    ensures forall k :: k != id ==> ActiveById(t', k) == ActiveById(t, k)
    ensures PendingRows(t') == PendingRows(t) - {t[id]}
  {
    var row := t[id].(deleteDate := Some(now));
    ReplacedRow(t, id, row);
    t[id := row]
  }

  /** Newest first: create dates never increase along the list. */
  predicate NewestFirst(s: seq<Request>) {
    forall i, j :: 0 <= i < j < |s| ==> s[i].createDate >= s[j].createDate
  }

  /** A row no older than every row of a newest-first list can head it. */
  lemma PrependKeepsNewestFirst(x: Request, s: seq<Request>)
    requires NewestFirst(s)
    requires forall y :: y in s ==> y.createDate <= x.createDate
    ensures NewestFirst([x] + s)
  {
  }

  /** Places `r` into a newest-first list ahead of every row that is not newer than it. */
  function InsertByDate(s: seq<Request>, r: Request): (s': seq<Request>)
    requires NewestFirst(s)
    ensures NewestFirst(s')
    ensures multiset(s') == multiset(s) + multiset{r}
  {
    if s == [] || s[0].createDate <= r.createDate then
      PrependKeepsNewestFirst(r, s);
      [r] + s
    else
      var rest := InsertByDate(s[1..], r);
      assert forall y :: y in rest ==> y.createDate <= s[0].createDate by {
        forall y | y in rest
          ensures y.createDate <= s[0].createDate
        {
          assert y in multiset(rest);
          if y != r {
            assert y in multiset(s[1..]);
            var k :| 0 <= k < |s[1..]| && s[1..][k] == y;
            assert s[k + 1] == y;
          }
        }
      }
      PrependKeepsNewestFirst(s[0], rest);
      assert s == [s[0]] + s[1..];
      [s[0]] + rest
  }

  /**
   * A request filed at the latest date so far is no older than the head of the pending
   * list: it is first, or tied with the rows listed before it.
   */
  lemma {:induction false} FreshRequestListedFirst(t: Table, r: Request, list: seq<Request>)
    requires WellFormed(t) && r.id !in t && r.FitsColumns()
    requires CreatedBy(t, r.createDate) && r.status == Pending && r.IsActive()
    requires multiset(list) == multiset(PendingRows(Inserted(t, r))) && NewestFirst(list)
    ensures r in list && list[0].createDate == r.createDate
  {
    assert r in multiset(list);
    var k :| 0 <= k < |list| && list[k] == r;
    assert list[0].createDate >= r.createDate;
    assert list[0] in multiset(list);
    if list[0] != r {
      assert list[0] in t.Values;
      StoredUnderOwnId(t, list[0]);
    }
  }
}
