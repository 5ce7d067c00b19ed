/** The queue of background jobs as interleaved steps. An enqueuer commits its row and afterwards signals
    a channel that buffers one token; a worker selects the first queued row, claims it with
    a conditional update, runs its handler, records the outcome and looks again; with
    nothing to claim it waits for a token or for the poll timeout. Any number of enqueuers,
    workers and services take part; every statement is one step. */
module TaskProtocol {
  import opened TaskStore

  datatype Pc = Claiming | Selected(id: int) | Handling(run: int) | Waiting | Ended

  /** claims is a history variable: the rows claimed so far, in order. */
  datatype State = State(
    rows: Rows, nextId: int, clock: int,
    wake: bool, workers: map<int, Pc>, unsignalled: set<int>,
    claims: seq<int>)

  datatype Action =
    | Commit(enqueuer: int, key: string)
    | Signal(enqueuer: int)
    | Select(worker: int, first: int)
    | SelectNone(worker: int)
    | Claim(worker: int)
    | Complete(worker: int, outcome: Status)
    | CompleteLost(worker: int)   // finish failed three times: the row stays running
    | StoreError(worker: int)     // a statement of claimNext failed
    | WakeUp(worker: int)
    | Timeout(worker: int)
    | Cancel(worker: int)
    | Tick(now: int)
    | ServiceStart(key: string)
    | ServiceEnd(id: int, outcome: Status)
    | Restart

  ghost predicate At(s: State, w: int, pc: Pc) {
    w in s.workers && s.workers[w] == pc
  }

  function Goto(s: State, w: int, pc: Pc): State {
    s.(workers := s.workers[w := pc])
  }

  /** runnable holds the keys Enqueue accepts; services have other keys. */
  ghost predicate Next(runnable: set<string>, s: State, a: Action, t: State) {
    match a
    case Commit(e, key) =>
      && key in runnable && e !in s.unsignalled
      && t == if HasActive(s.rows, key) then s
              else s.(rows := AfterEnqueue(s.rows, s.nextId, key, s.clock), nextId := s.nextId + 1,
                      unsignalled := s.unsignalled + {e})
    case Signal(e) => e in s.unsignalled && t == s.(unsignalled := s.unsignalled - {e}, wake := true)
    case Select(w, id) => At(s, w, Claiming) && IsFirst(s.rows, id) && t == Goto(s, w, Selected(id))
    case SelectNone(w) => At(s, w, Claiming) && (forall id :: !IsQueued(s.rows, id)) && t == Goto(s, w, Waiting)
    case Claim(w) =>
      && w in s.workers && s.workers[w].Selected?
      && var id := s.workers[w].id;
         t == if IsQueued(s.rows, id)
              then Goto(s, w, Handling(id)).(rows := WithStatus(s.rows, id, Running), claims := s.claims + [id])
              else Goto(s, w, Waiting)
    case Complete(w, outcome) =>
      && w in s.workers && s.workers[w].Handling? && (outcome == Succeeded || outcome == Failed)
      && t == Goto(s, w, Claiming).(rows := WithStatus(s.rows, s.workers[w].run, outcome))
    case CompleteLost(w) => w in s.workers && s.workers[w].Handling? && t == Goto(s, w, Claiming)
    case StoreError(w) =>
      w in s.workers && (s.workers[w].Claiming? || s.workers[w].Selected?) && t == Goto(s, w, Waiting)
    case WakeUp(w) => At(s, w, Waiting) && s.wake && t == Goto(s, w, Claiming).(wake := false)
    case Timeout(w) => At(s, w, Waiting) && t == Goto(s, w, Claiming)
    case Cancel(w) => At(s, w, Waiting) && t == Goto(s, w, Ended)
    case Tick(now) => t == s.(clock := now)
    case ServiceStart(key) =>
      && key !in runnable
      && t == s.(rows := s.rows[s.nextId := Row(key, Service, Running, s.clock)], nextId := s.nextId + 1)
    case ServiceEnd(id, outcome) =>
      && id in s.rows && s.rows[id].kind == Service && s.rows[id].status == Running
      && (outcome == Stopped || outcome == Failed)
      && t == s.(rows := WithStatus(s.rows, id, outcome))
    case Restart =>
      t == s.(rows := Recovered(s.rows), wake := false, unsignalled := {},
              workers := map w | w in s.workers :: Claiming)
  }

  /** A fresh store, its manager started with the given workers. */
  ghost predicate Init(s: State) {
    && s.rows == map[] && s.nextId == 1 && !s.wake && s.unsignalled == {} && s.claims == []
    && forall w | w in s.workers :: s.workers[w] == Claiming
  }

  ghost predicate StepAt(runnable: set<string>, run: seq<State>, acts: seq<Action>, i: nat)
    requires |run| == |acts| + 1 && i < |acts|
  {
    Next(runnable, run[i], acts[i], run[i + 1])
  }

  ghost predicate IsRun(runnable: set<string>, run: seq<State>, acts: seq<Action>) {
    && |run| == |acts| + 1
    && Init(run[0])
    && forall i | 0 <= i < |acts| :: StepAt(runnable, run, acts, i)
  }

  // ---------------------------------------------------------------------------
  // Exclusive runs
  // ---------------------------------------------------------------------------

  ghost predicate OneActivePerKey(runnable: set<string>, rows: Rows) {
    forall a, b | a in rows && b in rows && rows[a].key == rows[b].key && rows[a].key in runnable
        && Active(rows[a]) && Active(rows[b]) :: a == b
  }

  ghost predicate HandlersExclusive(s: State) {
    && (forall w | w in s.workers && s.workers[w].Handling? ::
         && s.workers[w].run in s.rows
         && s.rows[s.workers[w].run].status == Running
         && s.rows[s.workers[w].run].kind == Job)
    && (forall v, w | v in s.workers && w in s.workers && s.workers[v].Handling? && s.workers[w].Handling?
          && s.workers[v].run == s.workers[w].run :: v == w)
  }

  /** A row is queued until it is claimed, and claimed at most once. */
  ghost predicate ClaimedOnce(s: State) {
    && (forall i | 0 <= i < |s.claims| :: s.claims[i] in s.rows && s.rows[s.claims[i]].status != Queued)
    && (forall i, j | 0 <= i < j < |s.claims| :: s.claims[i] != s.claims[j])
  }

  ghost predicate Exclusive(runnable: set<string>, s: State) {
    && (forall id | id in s.rows :: id < s.nextId)
    && (forall id | id in s.rows :: s.rows[id].key in runnable <==> s.rows[id].kind == Job)
    && (forall id | id in s.rows && s.rows[id].kind == Service :: s.rows[id].status != Queued)
    && OneActivePerKey(runnable, s.rows)
    && HandlersExclusive(s)
    && ClaimedOnce(s)
  }

  lemma StatusChangeKeepsExclusive(runnable: set<string>, rows: Rows, id: int, status: Status)
    requires OneActivePerKey(runnable, rows) && id in rows
    requires status == Running ==> Active(rows[id])
    requires status != Queued
    ensures OneActivePerKey(runnable, WithStatus(rows, id, status))
  {
  }

  lemma CommitKeepsExclusive(runnable: set<string>, s: State, e: int, key: string, t: State)
    requires Exclusive(runnable, s) && Next(runnable, s, Commit(e, key), t)
    ensures Exclusive(runnable, t)
  {
  }

  lemma ClaimKeepsExclusive(runnable: set<string>, s: State, w: int, t: State)
    requires Exclusive(runnable, s) && Next(runnable, s, Claim(w), t)
    ensures Exclusive(runnable, t)
  {
  }

  lemma CompleteKeepsExclusive(runnable: set<string>, s: State, w: int, outcome: Status, t: State)
    requires Exclusive(runnable, s) && Next(runnable, s, Complete(w, outcome), t)
    ensures Exclusive(runnable, t)
  {
  }

  lemma ServiceKeepsExclusive(runnable: set<string>, s: State, a: Action, t: State)
    requires Exclusive(runnable, s) && Next(runnable, s, a, t) && (a.ServiceStart? || a.ServiceEnd?)
    ensures Exclusive(runnable, t)
  {
    if a.ServiceEnd? {
      StatusChangeKeepsExclusive(runnable, s.rows, a.id, a.outcome);
    } else {
      assert t.rows == s.rows[s.nextId := Row(a.key, Service, Running, s.clock)];
      assert OneActivePerKey(runnable, t.rows);
    }
  }

  lemma RestartKeepsExclusive(runnable: set<string>, s: State, t: State)
    requires Exclusive(runnable, s) && Next(runnable, s, Restart, t)
    ensures Exclusive(runnable, t)
    ensures forall id | id in t.rows :: !Active(t.rows[id])
  {
  }

  /** Steps that only move a worker, and not into a handler, or touch the channel. */
  lemma QuietKeepsExclusive(runnable: set<string>, s: State, t: State)
    requires Exclusive(runnable, s)
    requires t.rows == s.rows && t.nextId == s.nextId && t.claims == s.claims
    requires forall w | w in t.workers && t.workers[w].Handling? :: w in s.workers && s.workers[w] == t.workers[w]
    ensures Exclusive(runnable, t)
  {
  }

  lemma ExclusiveStep(runnable: set<string>, s: State, a: Action, t: State)
    requires Exclusive(runnable, s) && Next(runnable, s, a, t)
    ensures Exclusive(runnable, t)
  {
    match a
    case Commit(e, key) => CommitKeepsExclusive(runnable, s, e, key, t);
    case Claim(w) => ClaimKeepsExclusive(runnable, s, w, t);
    case Complete(w, outcome) => CompleteKeepsExclusive(runnable, s, w, outcome, t);
    case ServiceStart(_) => ServiceKeepsExclusive(runnable, s, a, t);
    case ServiceEnd(_, _) => ServiceKeepsExclusive(runnable, s, a, t);
    case Restart => RestartKeepsExclusive(runnable, s, t);
    case _ => QuietKeepsExclusive(runnable, s, t);
  }

  /** In every reachable state of any number of claimers, enqueuers and restarts: at most
      one row per job key is queued or running, no two workers handle the same row, and no
      row is claimed twice. */
  lemma {:induction false} RunsAreExclusive(runnable: set<string>, run: seq<State>, acts: seq<Action>, n: nat)
    requires IsRun(runnable, run, acts) && n < |run|
    ensures Exclusive(runnable, run[n])
    ensures var rows := run[n].rows;
            forall a, b | a in rows && b in rows && rows[a].key == rows[b].key && rows[a].key in runnable
              && rows[a].status in {Queued, Running} && rows[b].status in {Queued, Running} :: a == b
  {
    if n > 0 {
      RunsAreExclusive(runnable, run, acts, n - 1);
      assert StepAt(runnable, run, acts, n - 1);
      ExclusiveStep(runnable, run[n - 1], acts[n - 1], run[n]);
    }
  }

  /** A restart ends what was queued or running as interrupted and keeps everything else. */
  lemma RestartInterrupts(runnable: set<string>, s: State, t: State, id: int)
    requires Next(runnable, s, Restart, t)
    ensures id in t.rows <==> id in s.rows
    ensures id in s.rows && s.rows[id].status in {Queued, Running} ==>
      t.rows[id] == Row(s.rows[id].key, s.rows[id].kind, Interrupted, s.rows[id].queuedAt)
    ensures id in s.rows && s.rows[id].status !in {Queued, Running} ==> t.rows[id] == s.rows[id]
  {
  }

  /** An enqueuer adds a row exactly when no row of its job is queued or running; the row is
      queued now. */
  lemma CommitAddsIff(runnable: set<string>, s: State, e: int, key: string, t: State)
    requires Exclusive(runnable, s) && Next(runnable, s, Commit(e, key), t)
    ensures t.rows != s.rows <==>
      forall id | id in s.rows && s.rows[id].key == key :: s.rows[id].status !in {Queued, Running}
    ensures t.rows != s.rows ==> t.rows == s.rows[s.nextId := Row(key, Job, Queued, s.clock)] && s.nextId !in s.rows
  {
    if HasActive(s.rows, key) {
      var id :| id in s.rows && s.rows[id].key == key && Active(s.rows[id]);
      assert s.rows[id].status in {Queued, Running};
    } else {
      assert s.nextId in t.rows;
    }
  }

  /** The moves a row may make. */
  predicate Move(was: Status, is_: Status) {
    || is_ == was
    || (was == Queued && (is_ == Running || is_ == Interrupted))
    || (was == Running && (is_ == Succeeded || is_ == Failed || is_ == Stopped || is_ == Interrupted))
  }

  lemma StepMovesRows(runnable: set<string>, s: State, a: Action, t: State, id: int)
    requires Exclusive(runnable, s) && Next(runnable, s, a, t) && id in s.rows
    ensures id in t.rows && Move(s.rows[id].status, t.rows[id].status)
    ensures t.rows[id].key == s.rows[id].key && t.rows[id].queuedAt == s.rows[id].queuedAt
  {
  }

  /** What may become of a row: it keeps its job, it is never queued again, and once it is
      finished it never changes. */
  predicate Follows(was: Row, is_: Row) {
    && is_.key == was.key
    && (!Active(was) ==> is_ == was)
    && (was.status == Running ==> is_.status != Queued)
  }

  lemma FollowsCompose(a: Row, b: Row, c: Row)
    requires Follows(a, b) && Follows(b, c)
    ensures Follows(a, c)
  {
  }

  lemma RunStepFollows(runnable: set<string>, run: seq<State>, acts: seq<Action>, k: nat, id: int)
    requires IsRun(runnable, run, acts) && k < |acts| && id in run[k].rows
    ensures id in run[k + 1].rows && Follows(run[k].rows[id], run[k + 1].rows[id])
  {
    RunsAreExclusive(runnable, run, acts, k);
    assert StepAt(runnable, run, acts, k);
    StepMovesRows(runnable, run[k], acts[k], run[k + 1], id);
    StepKeepsKind(runnable, run[k], acts[k], run[k + 1], id);
  }

  /** Whatever happens, rows only move queued, running, terminal; a terminal row is final. */
  lemma {:induction false} TerminalIsFinal(runnable: set<string>, run: seq<State>, acts: seq<Action>, i: nat,
                                           j: nat, id: int)
    requires IsRun(runnable, run, acts) && i <= j < |run| && id in run[i].rows
    ensures id in run[j].rows && Follows(run[i].rows[id], run[j].rows[id])
    decreases j
  {
    if i < j {
      TerminalIsFinal(runnable, run, acts, i, j - 1, id);
      RunStepFollows(runnable, run, acts, j - 1, id);
      FollowsCompose(run[i].rows[id], run[j - 1].rows[id], run[j].rows[id]);
    }
  }

  lemma StepKeepsKind(runnable: set<string>, s: State, a: Action, t: State, id: int)
    requires Exclusive(runnable, s) && Next(runnable, s, a, t) && id in s.rows
    ensures id in t.rows && t.rows[id].kind == s.rows[id].kind
  {
  }

  /** Manager.Run inserts a running row without looking: it keeps the one-active-row rule
      exactly when the key has no active row. */
  lemma DirectRunIsExclusiveIff(runnable: set<string>, s: State, key: string)
    requires Exclusive(runnable, s) && key in runnable
    ensures OneActivePerKey(runnable, s.rows[s.nextId := Row(key, Job, Running, s.clock)]) <==> !HasActive(s.rows, key)
  {
    var rows := s.rows[s.nextId := Row(key, Job, Running, s.clock)];
    if id :| id in s.rows && s.rows[id].key == key && Active(s.rows[id]) {
      assert rows[id] == s.rows[id] && rows[s.nextId].key == key;
    }
  }
}
