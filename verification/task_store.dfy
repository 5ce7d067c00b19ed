/** Table task_runs and the operations its store offers. */
module TaskStore {
  import opened Wrappers

  datatype Kind = Job | Service

  datatype Status = Queued | Running | Succeeded | Failed | Interrupted | Stopped

  datatype Row = Row(key: string, kind: Kind, status: Status, queuedAt: int)

  type Rows = map<int, Row>

  predicate Active(r: Row) {
    r.status == Queued || r.status == Running
  }

  predicate HasActive(rows: Rows, key: string) {
    exists id :: id in rows && rows[id].key == key && Active(rows[id])
  }

  /** enqueue: no new row while one of the same key is queued or running. */
  function AfterEnqueue(rows: Rows, nextId: int, key: string, now: int): Rows {
    if HasActive(rows, key) then rows else rows[nextId := Row(key, Job, Queued, now)]
  }

  /** The order of ORDER BY queued_at, id. */
  predicate Before(rows: Rows, a: int, b: int)
    requires a in rows && b in rows
  {
    rows[a].queuedAt < rows[b].queuedAt || (rows[a].queuedAt == rows[b].queuedAt && a < b)
  }

  predicate IsQueued(rows: Rows, id: int) {
    id in rows && rows[id].status == Queued
  }

  /** The row the claim query returns. */
  ghost predicate IsFirst(rows: Rows, id: int) {
    IsQueued(rows, id) && forall b | IsQueued(rows, b) :: b == id || Before(rows, id, b)
  }

  function WithStatus(rows: Rows, id: int, status: Status): Rows {
    if id in rows then rows[id := rows[id].(status := status)] else rows
  }

  /** RecoverInterrupted. */
  function Recovered(rows: Rows): Rows {
    map id | id in rows :: if Active(rows[id]) then rows[id].(status := Interrupted) else rows[id]
  }

  lemma BeforeOrders(rows: Rows, a: int, b: int, c: int)
    requires a in rows && b in rows && c in rows
    ensures a == b || Before(rows, a, b) || Before(rows, b, a)
    ensures Before(rows, a, b) && Before(rows, b, c) ==> Before(rows, a, c)
  {
  }

  lemma {:induction false} FirstExists(rows: Rows, ids: set<int>) returns (id: int)
    requires ids != {} && forall i | i in ids :: i in rows
    ensures id in ids && forall b | b in ids :: b == id || Before(rows, id, b)
    decreases |ids|
  {
    SomeElement(ids);
    var one :| one in ids;
    var rest := ids - {one};
    if rest == {} {
      id := one;
      assert forall b | b in ids :: b == one || b in rest;
    } else {
      var other := FirstExists(rows, rest);
      BeforeOrders(rows, other, one, other);
      id := if Before(rows, other, one) then other else one;
      forall b | b in ids ensures b == id || Before(rows, id, b) {
        if b != one {
          assert b in rest;
          BeforeOrders(rows, one, other, b);
        }
      }
    }
  }

  class Store {
    var rows: Rows
    var nextId: int

    ghost predicate Valid()
      reads this
    {
      forall id | id in rows :: id < nextId
    }

    constructor ()
      ensures Valid() && rows == map[] && nextId == 1
    {
      rows, nextId := map[], 1;
    }

    method RecoverInterrupted()
      requires Valid()
      modifies this
      ensures Valid() && rows == Recovered(old(rows)) && nextId == old(nextId)
    {
      rows := map id | id in rows :: if Active(rows[id]) then rows[id].(status := Interrupted) else rows[id];
    }

    /** The enqueue transaction; created says whether a row was inserted. */
    method Enqueue(key: string, now: int) returns (id: int, created: bool)
      requires Valid()
      modifies this
      ensures Valid() && rows == AfterEnqueue(old(rows), old(nextId), key, now)
      ensures created == !HasActive(old(rows), key)
      ensures nextId == if created then old(nextId) + 1 else old(nextId)
      ensures id in rows && rows[id].key == key && Active(rows[id])
    {
      if found :| found in rows && rows[found].key == key && Active(rows[found]) {
        return found, false;
      }
      rows := rows[nextId := Row(key, Job, Queued, now)];
      nextId := nextId + 1;
      return nextId - 1, true;
    }

    /** The SELECT of claimNext. */
    method SelectNext() returns (found: bool, id: int)
      ensures found ==> IsFirst(rows, id)
      ensures !found ==> forall b :: !IsQueued(rows, b)
    {
      found, id := false, 0;
      var rest := set i | i in rows;
      while true
        invariant rest <= rows.Keys
        invariant found ==> IsQueued(rows, id)
        invariant forall b | b in rows && b !in rest && rows[b].status == Queued ::
          found && (b == id || Before(rows, id, b))
        decreases |rest|
      {
        if i :| i in rest {
          if rows[i].status == Queued && (!found || Before(rows, i, id)) {
            found, id := true, i;
          }
          rest := rest - {i};
        } else {
          break;
        }
      }
    }

    /** The UPDATE ... WHERE status = 'queued' of claimNext. */
    method TryClaim(id: int) returns (claimed: bool)
      modifies this
      ensures claimed == IsQueued(old(rows), id) && nextId == old(nextId)
      ensures rows == if claimed then WithStatus(old(rows), id, Running) else old(rows)
    {
      claimed := id in rows && rows[id].status == Queued;
      if claimed {
        rows := rows[id := rows[id].(status := Running)];
      }
    }

    /** claimNext, when no other claimer comes between its two statements. */
    method ClaimNext() returns (ok: bool, id: int)
      modifies this
      ensures ok ==> IsFirst(old(rows), id) && rows == WithStatus(old(rows), id, Running)
      ensures !ok ==> rows == old(rows) && forall b :: !IsQueued(old(rows), b)
      ensures nextId == old(nextId)
    {
      ok, id := SelectNext();
      if ok {
        ok := TryClaim(id);
      }
    }

    method Finish(id: int, status: Status)
      modifies this
      ensures rows == WithStatus(old(rows), id, status) && nextId == old(nextId)
    {
      if id in rows {
        rows := rows[id := rows[id].(status := status)];
      }
    }
  }
}
