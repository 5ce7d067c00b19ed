/** Rows are claimed first come, first served, however many workers claim. */
module TaskOrder {
  import opened TaskStore
  import opened TaskProtocol

  /** A selected row is the first queued one, unless another worker has claimed it since. */
  ghost predicate SelectionHolds(rows: Rows, pc: Pc) {
    pc.Selected? ==> pc.id in rows && (IsQueued(rows, pc.id) ==> IsFirst(rows, pc.id))
  }

  /** Claims so far are in (queued_at, id) order and no queued row comes before one. */
  ghost predicate ClaimsInOrder(rows: Rows, claims: seq<int>) {
    && (forall i | 0 <= i < |claims| :: claims[i] in rows)
    && (forall i, j | 0 <= i < j < |claims| :: Before(rows, claims[i], claims[j]))
    && (forall i, b | 0 <= i < |claims| && IsQueued(rows, b) :: Before(rows, claims[i], b))
  }

  ghost predicate InOrder(s: State) {
    && ClaimsInOrder(s.rows, s.claims)
    && (forall w | w in s.workers :: SelectionHolds(s.rows, s.workers[w]))
    && (forall id | id in s.rows :: id < s.nextId && s.rows[id].queuedAt <= s.clock)
  }

  /** Steps after which the same rows, or fewer, are queued at the same instants. */
  ghost predicate NoNewQueued(rows: Rows, after: Rows) {
    && after.Keys == rows.Keys
    && (forall id | id in rows :: after[id].queuedAt == rows[id].queuedAt)
    && (forall id | IsQueued(after, id) :: IsQueued(rows, id))
  }

  lemma SelectionStays(rows: Rows, after: Rows, pc: Pc)
    requires SelectionHolds(rows, pc) && NoNewQueued(rows, after)
    ensures SelectionHolds(after, pc)
  {
  }

  lemma ClaimsStay(rows: Rows, after: Rows, claims: seq<int>)
    requires ClaimsInOrder(rows, claims) && NoNewQueued(rows, after)
    ensures ClaimsInOrder(after, claims)
  {
  }

  lemma SameQueueInOrder(s: State, t: State)
    requires InOrder(s) && NoNewQueued(s.rows, t.rows)
    requires t.claims == s.claims && t.nextId == s.nextId && t.clock >= s.clock
    requires forall w | w in t.workers ::
      (w in s.workers && t.workers[w] == s.workers[w]) || SelectionHolds(t.rows, t.workers[w])
    ensures InOrder(t)
  {
    ClaimsStay(s.rows, t.rows, s.claims);
    forall w | w in t.workers ensures SelectionHolds(t.rows, t.workers[w]) {
      if w in s.workers && t.workers[w] == s.workers[w] {
        SelectionStays(s.rows, t.rows, s.workers[w]);
      }
    }
  }

  lemma SelectionSurvivesNewRow(rows: Rows, id: int, row: Row, pc: Pc)
    requires SelectionHolds(rows, pc) && id !in rows
    requires forall x | x in rows :: x < id && rows[x].queuedAt <= row.queuedAt
    ensures SelectionHolds(rows[id := row], pc)
  {
    var after := rows[id := row];
    if pc.Selected? && IsQueued(after, pc.id) {
      assert IsQueued(rows, pc.id);
      forall b | IsQueued(after, b) ensures b == pc.id || Before(after, pc.id, b) {
        assert b != id ==> IsQueued(rows, b);
      }
    }
  }

  lemma NewRowInOrder(s: State, row: Row, t: State)
    requires InOrder(s) && row.queuedAt == s.clock
    requires t.rows == s.rows[s.nextId := row] && t.nextId == s.nextId + 1
    requires t.claims == s.claims && t.clock == s.clock && t.workers == s.workers
    ensures InOrder(t)
  {
    forall b | IsQueued(t.rows, b) && b != s.nextId ensures IsQueued(s.rows, b) {}
    forall w | w in t.workers ensures SelectionHolds(t.rows, t.workers[w]) {
      SelectionSurvivesNewRow(s.rows, s.nextId, row, s.workers[w]);
    }
  }

  lemma ClaimInOrder(runnable: set<string>, s: State, w: int, t: State)
    requires InOrder(s) && Next(runnable, s, Claim(w), t)
    ensures InOrder(t)
  {
    var id := s.workers[w].id;
    assert SelectionHolds(s.rows, s.workers[w]);
    if IsQueued(s.rows, id) {
      assert NoNewQueued(s.rows, t.rows);
      ClaimsStay(s.rows, t.rows, s.claims);
      forall b | IsQueued(t.rows, b) ensures IsQueued(s.rows, b) && b != id {}
      forall v | v in t.workers ensures SelectionHolds(t.rows, t.workers[v]) {
        if v != w {
          SelectionStays(s.rows, t.rows, s.workers[v]);
        }
      }
    } else {
      SameQueueInOrder(s, t);
    }
  }

  /** Steps that only move a worker, the clock or the channel. */
  lemma SameRowsInOrder(s: State, t: State)
    requires InOrder(s) && t.rows == s.rows && t.claims == s.claims && t.nextId == s.nextId && t.clock >= s.clock
    requires forall w | w in t.workers :: (w in s.workers && t.workers[w] == s.workers[w]) || !t.workers[w].Selected?
    ensures InOrder(t)
  {
    SameQueueInOrder(s, t);
  }

  lemma StatusInOrder(s: State, id: int, status: Status, t: State)
    requires InOrder(s) && status != Queued && t.rows == WithStatus(s.rows, id, status)
    requires t.claims == s.claims && t.nextId == s.nextId && t.clock == s.clock
    requires forall w | w in t.workers :: (w in s.workers && t.workers[w] == s.workers[w]) || !t.workers[w].Selected?
    ensures InOrder(t)
  {
    SameQueueInOrder(s, t);
  }

  lemma RestartInOrder(s: State, t: State)
    requires InOrder(s) && t.rows == Recovered(s.rows)
    requires t.claims == s.claims && t.nextId == s.nextId && t.clock == s.clock
    requires forall w | w in t.workers :: !t.workers[w].Selected?
    ensures InOrder(t)
  {
    SameQueueInOrder(s, t);
  }

  lemma SelectInOrder(s: State, w: int, id: int, t: State)
    requires InOrder(s) && IsFirst(s.rows, id) && t == Goto(s, w, Selected(id))
    ensures InOrder(t)
  {
    SameQueueInOrder(s, t);
  }

  lemma OrderStep(runnable: set<string>, s: State, a: Action, t: State)
    requires Exclusive(runnable, s) && InOrder(s) && Next(runnable, s, a, t)
    requires a.Tick? ==> a.now >= s.clock
    ensures InOrder(t)
  {
    match a
    case Commit(e, key) =>
      if !HasActive(s.rows, key) {
        NewRowInOrder(s, Row(key, Job, Queued, s.clock), t);
      }
    case ServiceStart(key) => NewRowInOrder(s, Row(key, Service, Running, s.clock), t);
    case Claim(w) => ClaimInOrder(runnable, s, w, t);
    case Select(w, id) => SelectInOrder(s, w, id, t);
    case Complete(w, outcome) => StatusInOrder(s, s.workers[w].run, outcome, t);
    case ServiceEnd(id, outcome) => StatusInOrder(s, id, outcome, t);
    case Restart => RestartInOrder(s, t);
    case _ => SameRowsInOrder(s, t);
  }

  /** In every run of any number of enqueuers, workers, services and restarts, failed claim
      statements and lost completions included, rows are claimed in (queued_at, id) order
      while the clock does not run backwards. */
  lemma {:induction false} ClaimsFollowOrder(runnable: set<string>, run: seq<State>, acts: seq<Action>, n: nat)
    requires IsRun(runnable, run, acts) && n < |run|
    requires forall i | 0 <= i < n :: acts[i].Tick? ==> acts[i].now >= run[i].clock
    ensures InOrder(run[n])
  {
    if n > 0 {
      ClaimsFollowOrder(runnable, run, acts, n - 1);
      RunsAreExclusive(runnable, run, acts, n - 1);
      assert StepAt(runnable, run, acts, n - 1);
      OrderStep(runnable, run[n - 1], acts[n - 1], run[n]);
    }
  }
}
