/** With one worker no wakeup is lost, and a queued row is claimed without the poll. */
module TaskWakeup {
  import opened TaskStore
  import opened TaskProtocol

  ghost predicate SomeQueued(rows: Rows) {
    exists id :: IsQueued(rows, id)
  }

  /** The worker waits beside a queued row only if a token is buffered or an enqueuer has
      committed and is about to signal. */
  ghost predicate NoLostWakeup(s: State, w: int) {
    At(s, w, Waiting) && SomeQueued(s.rows) ==> s.wake || s.unsignalled != {}
  }

  ghost predicate SoleWorker(s: State, w: int) {
    s.workers.Keys == {w}
  }

  ghost predicate WakeInv(s: State, w: int) {
    && SoleWorker(s, w)
    && (s.workers[w].Selected? ==> IsQueued(s.rows, s.workers[w].id))
    && NoLostWakeup(s, w)
  }

  lemma WakeInvStep(runnable: set<string>, s: State, a: Action, t: State, w: int)
    requires Exclusive(runnable, s) && WakeInv(s, w) && Next(runnable, s, a, t) && !a.StoreError?
    ensures WakeInv(t, w)
  {
    match a
    case Commit(e, key) =>
      if !HasActive(s.rows, key) {
        assert e in t.unsignalled;
      }
    case Signal(_) =>
    case Select(_, _) =>
    case SelectNone(_) =>
    case Claim(_) =>
    case Complete(_, _) => assert forall id | IsQueued(t.rows, id) :: IsQueued(s.rows, id);
    case CompleteLost(_) =>
    case WakeUp(_) =>
    case Timeout(_) =>
    case Cancel(_) =>
    case Tick(_) =>
    case ServiceStart(_) => assert forall id | IsQueued(t.rows, id) :: IsQueued(s.rows, id);
    case ServiceEnd(_, _) => assert forall id | IsQueued(t.rows, id) :: IsQueued(s.rows, id);
    case Restart =>
  }

  /** In every run of a single worker whose claim queries do not fail, no wakeup is lost. */
  lemma {:induction false} NoWakeupIsLost(runnable: set<string>, run: seq<State>, acts: seq<Action>, n: nat, w: int)
    requires IsRun(runnable, run, acts) && n < |run| && SoleWorker(run[0], w)
    requires forall i | 0 <= i < n :: !acts[i].StoreError?
    ensures WakeInv(run[n], w)
  {
    if n > 0 {
      NoWakeupIsLost(runnable, run, acts, n - 1, w);
      RunsAreExclusive(runnable, run, acts, n - 1);
      assert StepAt(runnable, run, acts, n - 1);
      WakeInvStep(runnable, run[n - 1], acts[n - 1], run[n], w);
    }
  }

  // ---------------------------------------------------------------------------
  // Progress without the poll
  // ---------------------------------------------------------------------------

  ghost predicate IsPath(runnable: set<string>, path: seq<State>, acts: seq<Action>) {
    && |path| == |acts| + 1
    && forall i | 0 <= i < |acts| :: Next(runnable, path[i], acts[i], path[i + 1])
  }

  lemma ClaimFromClaiming(runnable: set<string>, s: State, w: int)
    returns (path: seq<State>, acts: seq<Action>, id: int)
    requires At(s, w, Claiming) && SomeQueued(s.rows)
    ensures IsPath(runnable, path, acts) && path[0] == s && |acts| == 2
    ensures forall i | 0 <= i < |acts| :: acts[i].Select? || acts[i].Claim?
    ensures IsFirst(s.rows, id) && path[|acts|].claims == s.claims + [id] && At(path[|acts|], w, Handling(id))
  {
    var ids := set i | i in s.rows && s.rows[i].status == Queued;
    var q :| IsQueued(s.rows, q);
    assert q in ids;
    id := FirstExists(s.rows, ids);
    assert forall b | IsQueued(s.rows, b) :: b in ids;
    var t := Goto(s, w, Selected(id));
    var u := Goto(t, w, Handling(id)).(rows := WithStatus(t.rows, id, Running), claims := t.claims + [id]);
    acts := [Select(w, id), Claim(w)];
    path := [s, t, u];
    assert Next(runnable, s, Select(w, id), t) && Next(runnable, t, Claim(w), u);
  }

  lemma JoinPaths(runnable: set<string>, s: State, a: Action, path: seq<State>, acts: seq<Action>)
    requires IsPath(runnable, path, acts) && Next(runnable, s, a, path[0])
    ensures IsPath(runnable, [s] + path, [a] + acts)
  {
  }

  /** The steps that progress needs: those of the worker itself and pending signals. */
  predicate WithoutPoll(acts: seq<Action>) {
    forall i | 0 <= i < |acts| ::
      acts[i].Select? || acts[i].Claim? || acts[i].Complete? || acts[i].WakeUp? || acts[i].Signal?
  }

  lemma ClaimFromWaiting(runnable: set<string>, s: State, w: int) returns (path: seq<State>, acts: seq<Action>, id: int)
    requires WakeInv(s, w) && At(s, w, Waiting) && SomeQueued(s.rows)
    ensures IsPath(runnable, path, acts) && path[0] == s && WithoutPoll(acts) && |acts| <= 4
    ensures IsFirst(s.rows, id) && path[|acts|].claims == s.claims + [id]
  {
    var ready := s;
    if !s.wake {
      if forall e :: e !in s.unsignalled {
      }
      var e :| e in s.unsignalled;
      ready := s.(unsignalled := s.unsignalled - {e}, wake := true);
      assert Next(runnable, s, Signal(e), ready);
      var awake := Goto(ready, w, Claiming).(wake := false);
      path, acts, id := ClaimFromClaiming(runnable, awake, w);
      JoinPaths(runnable, ready, WakeUp(w), path, acts);
      path, acts := [ready] + path, [WakeUp(w)] + acts;
      JoinPaths(runnable, s, Signal(e), path, acts);
      path, acts := [s] + path, [Signal(e)] + acts;
    } else {
      var awake := Goto(s, w, Claiming).(wake := false);
      path, acts, id := ClaimFromClaiming(runnable, awake, w);
      JoinPaths(runnable, s, WakeUp(w), path, acts);
      path, acts := [s] + path, [WakeUp(w)] + acts;
    }
  }

  lemma ClaimFromHandling(runnable: set<string>, s: State, w: int)
    returns (path: seq<State>, acts: seq<Action>, id: int)
    requires w in s.workers && s.workers[w].Handling? && SomeQueued(s.rows)
    requires s.workers[w].run in s.rows && s.rows[s.workers[w].run].status == Running
    ensures IsPath(runnable, path, acts) && path[0] == s && WithoutPoll(acts) && |acts| <= 4
    ensures IsFirst(s.rows, id) && path[|acts|].claims == s.claims + [id]
  {
    var run := s.workers[w].run;
    var t := Goto(s, w, Claiming).(rows := WithStatus(s.rows, run, Succeeded));
    var q :| IsQueued(s.rows, q);
    assert IsQueued(t.rows, q);
    path, acts, id := ClaimFromClaiming(runnable, t, w);
    assert Next(runnable, s, Complete(w, Succeeded), t);
    JoinPaths(runnable, s, Complete(w, Succeeded), path, acts);
    path, acts := [s] + path, [Complete(w, Succeeded)] + acts;
    forall b | IsQueued(s.rows, b) ensures b == id || Before(s.rows, id, b) {
      assert IsQueued(t.rows, b);
    }
  }

  /** From every such state with a queued row, unless the worker was cancelled, the next
      queued row is claimed after at most four steps that are neither the poll timeout nor
      a new enqueue. */
  lemma QueuedRowGetsClaimed(runnable: set<string>, s: State, w: int)
    returns (path: seq<State>, acts: seq<Action>, id: int)
    requires Exclusive(runnable, s) && WakeInv(s, w) && SomeQueued(s.rows) && !s.workers[w].Ended?
    ensures IsPath(runnable, path, acts) && path[0] == s && WithoutPoll(acts) && |acts| <= 4
    ensures path[|acts|].claims == s.claims + [id] && IsQueued(s.rows, id)
    ensures !s.workers[w].Selected? ==> IsFirst(s.rows, id)
  {
    match s.workers[w]
    case Claiming => path, acts, id := ClaimFromClaiming(runnable, s, w);
    case Waiting => path, acts, id := ClaimFromWaiting(runnable, s, w);
    case Selected(x) =>
      id := x;
      acts := [Claim(w)];
      path := [s, Goto(s, w, Handling(id)).(rows := WithStatus(s.rows, id, Running), claims := s.claims + [id])];
    case Handling(_) => path, acts, id := ClaimFromHandling(runnable, s, w);
  }

  // ---------------------------------------------------------------------------
  // Every run comes to a claim
  // ---------------------------------------------------------------------------

  /** How many steps the worker is from its claim. */
  function Distance(pc: Pc): nat {
    match pc case Handling(_) => 3 case Waiting => 3 case Claiming => 2 case Selected(_) => 1 case Ended => 0
  }

  predicate WorkerStep(a: Action) {
    a.Select? || a.SelectNone? || a.Claim? || a.Complete? || a.CompleteLost? || a.WakeUp?
  }

  predicate Disturbs(a: Action) {
    a.StoreError? || a.Cancel? || a.Restart?
  }

  /** The worker can go on, or an enqueuer is about to wake it, poll or no poll. */
  lemma ProgressIsEnabled(runnable: set<string>, s: State, w: int) returns (a: Action, t: State)
    requires Exclusive(runnable, s) && WakeInv(s, w) && SomeQueued(s.rows) && !s.workers[w].Ended?
    ensures (WorkerStep(a) || a.Signal?) && Next(runnable, s, a, t)
  {
    var path, acts, id := QueuedRowGetsClaimed(runnable, s, w);
    a, t := acts[0], path[1];
    assert Next(runnable, path[0], acts[0], path[0 + 1]);
  }

  function Owed(a: Action): nat {
    if WorkerStep(a) || a.Signal? then 1 else 0
  }

  /** Steps of the worker and signals among acts[i..j]. */
  function CountSteps(acts: seq<Action>, i: nat, j: nat): nat
    requires i <= j <= |acts|
  {
    if i == j then 0 else CountSteps(acts, i, j - 1) + Owed(acts[j - 1])
  }

  function CountCommits(acts: seq<Action>, i: nat, j: nat): nat
    requires i <= j <= |acts|
  {
    if i == j then 0 else CountCommits(acts, i, j - 1) + if acts[j - 1].Commit? then 1 else 0
  }

  /** Steps the worker and the signals still owe before the next claim. */
  ghost function Debt(s: State, w: int): nat {
    (if w in s.workers then Distance(s.workers[w]) else 0) + |s.unsignalled|
  }

  ghost predicate StillQueued(s: State, w: int) {
    SomeQueued(s.rows) && w in s.workers && Distance(s.workers[w]) > 0
  }

  lemma StepPaysDebt(runnable: set<string>, s: State, a: Action, t: State, w: int)
    requires Exclusive(runnable, s) && WakeInv(s, w) && StillQueued(s, w)
    requires Next(runnable, s, a, t) && !Disturbs(a) && t.claims == s.claims
    ensures StillQueued(t, w)
    ensures Debt(t, w) + Owed(a) <= Debt(s, w) + if a.Commit? then 1 else 0
  {
    var q :| IsQueued(s.rows, q);
    assert IsQueued(t.rows, q);
  }

  /** Step k neither claims a row nor disturbs the worker. */
  ghost predicate UnclaimedStep(run: seq<State>, acts: seq<Action>, k: nat)
    requires k < |acts| && |run| == |acts| + 1
  {
    !Disturbs(acts[k]) && run[k + 1].claims == run[k].claims
  }

  lemma RunStepPaysDebt(runnable: set<string>, run: seq<State>, acts: seq<Action>, k: nat, w: int)
    requires IsRun(runnable, run, acts) && k < |acts| && UnclaimedStep(run, acts, k) && SoleWorker(run[0], w)
    requires forall x | 0 <= x < k :: !acts[x].StoreError?
    requires StillQueued(run[k], w)
    ensures StillQueued(run[k + 1], w)
    ensures Debt(run[k + 1], w) + Owed(acts[k]) <= Debt(run[k], w) + if acts[k].Commit? then 1 else 0
  {
    RunsAreExclusive(runnable, run, acts, k);
    NoWakeupIsLost(runnable, run, acts, k, w);
    assert StepAt(runnable, run, acts, k);
    StepPaysDebt(runnable, run[k], acts[k], run[k + 1], w);
  }

  lemma {:induction false} RunPaysDebt(runnable: set<string>, run: seq<State>, acts: seq<Action>, i: nat,
                                       j: nat, w: int)
    requires IsRun(runnable, run, acts) && i <= j < |run| && SoleWorker(run[0], w)
    requires forall k | 0 <= k < j :: !acts[k].StoreError?
    requires forall k | i <= k < j :: UnclaimedStep(run, acts, k)
    requires StillQueued(run[i], w)
    ensures StillQueued(run[j], w)
    ensures CountSteps(acts, i, j) + Debt(run[j], w) <= Debt(run[i], w) + CountCommits(acts, i, j)
    decreases j
  {
    if i < j {
      RunPaysDebt(runnable, run, acts, i, j - 1, w);
      RunStepPaysDebt(runnable, run, acts, j - 1, w);
    }
  }

  /** In every run with a queued row, poll or no poll: as long as nothing is claimed, the
      worker and the signals together take at most two steps, plus one for each signal
      pending at the start and each enqueue since, and one of those steps can always be
      taken. So the claim comes. */
  lemma ClaimComesSoon(runnable: set<string>, run: seq<State>, acts: seq<Action>, i: nat, j: nat, w: int)
    requires IsRun(runnable, run, acts) && i <= j < |run| && SoleWorker(run[0], w)
    requires forall k | 0 <= k < j :: !acts[k].StoreError?
    requires forall k | i <= k < j :: UnclaimedStep(run, acts, k)
    requires SomeQueued(run[i].rows) && w in run[i].workers && !run[i].workers[w].Ended?
    ensures CountSteps(acts, i, j) <= 2 + |run[i].unsignalled| + CountCommits(acts, i, j)
    ensures exists a, t :: (WorkerStep(a) || a.Signal?) && Next(runnable, run[j], a, t)
  {
    RunPaysDebt(runnable, run, acts, i, j, w);
    RunsAreExclusive(runnable, run, acts, j);
    NoWakeupIsLost(runnable, run, acts, j, w);
    var a, t := ProgressIsEnabled(runnable, run[j], w);
  }

  // ---------------------------------------------------------------------------
  // Two workers do lose a wakeup
  // ---------------------------------------------------------------------------

  ghost function TwoWorkers(rows: Rows, nextId: int, wake: bool, pc1: Pc, pc2: Pc, unsignalled: set<int>,
                            claims: seq<int>): State {
    State(rows, nextId, 0, wake, map[1 := pc1, 2 := pc2], unsignalled, claims)
  }

  const ROW_A := Row("a", Job, Queued, 0)
  const ROW_B := Row("b", Job, Queued, 0)
  const RUNNABLE := {"a", "b"}

  const BOTH := map[1 := ROW_A, 2 := ROW_B]
  const FIRST_RUNS := map[1 := ROW_A.(status := Running), 2 := ROW_B]

  ghost predicate QuietRun(run: seq<State>, acts: seq<Action>, last: State) {
    && IsRun(RUNNABLE, run, acts) && run[|acts|] == last && run[0].workers.Keys == {1, 2}
    && forall i | 0 <= i < |acts| :: !acts[i].StoreError? && !acts[i].Timeout?
  }

  lemma Then(run: seq<State>, acts: seq<Action>, s: State, a: Action, t: State)
    returns (run': seq<State>, acts': seq<Action>)
    requires QuietRun(run, acts, s) && Next(RUNNABLE, s, a, t) && !a.StoreError? && !a.Timeout?
    ensures QuietRun(run', acts', t)
  {
    run', acts' := run + [t], acts + [a];
    forall i | 0 <= i < |acts'| ensures StepAt(RUNNABLE, run', acts', i) {
      if i < |acts| {
        assert StepAt(RUNNABLE, run, acts, i);
      }
    }
  }

  lemma TwoCommits() returns (run: seq<State>, acts: seq<Action>)
    ensures QuietRun(run, acts, TwoWorkers(BOTH, 3, false, Waiting, Claiming, {7, 8}, []))
  {
    var s0 := TwoWorkers(map[], 1, false, Claiming, Claiming, {}, []);
    var s1 := TwoWorkers(map[], 1, false, Waiting, Claiming, {}, []);
    var s2 := TwoWorkers(map[1 := ROW_A], 2, false, Waiting, Claiming, {7}, []);
    var s3 := TwoWorkers(BOTH, 3, false, Waiting, Claiming, {7, 8}, []);
    assert Goto(s0, 1, Waiting).workers == s1.workers;
    run, acts := [s0], [];
    run, acts := Then(run, acts, s0, SelectNone(1), s1);
    run, acts := Then(run, acts, s1, Commit(7, "a"), s2);
    run, acts := Then(run, acts, s2, Commit(8, "b"), s3);
  }

  lemma OneTokenForTwoRows() returns (run: seq<State>, acts: seq<Action>)
    ensures QuietRun(run, acts, TwoWorkers(BOTH, 3, false, Claiming, Claiming, {}, []))
  {
    var s3 := TwoWorkers(BOTH, 3, false, Waiting, Claiming, {7, 8}, []);
    var s4 := TwoWorkers(BOTH, 3, true, Waiting, Claiming, {8}, []);
    var s5 := TwoWorkers(BOTH, 3, true, Waiting, Claiming, {}, []);
    var s6 := TwoWorkers(BOTH, 3, false, Claiming, Claiming, {}, []);
    assert Goto(s5, 1, Claiming).workers == s6.workers;
    assert {7, 8} - {7} == {8} && {8} - {8} == {};
    run, acts := TwoCommits();
    run, acts := Then(run, acts, s3, Signal(7), s4);
    run, acts := Then(run, acts, s4, Signal(8), s5);
    run, acts := Then(run, acts, s5, WakeUp(1), s6);
  }

  lemma BothSelectTheSameRow() returns (run: seq<State>, acts: seq<Action>)
    ensures QuietRun(run, acts, TwoWorkers(BOTH, 3, false, Selected(1), Selected(1), {}, []))
  {
    var s6 := TwoWorkers(BOTH, 3, false, Claiming, Claiming, {}, []);
    var s7 := TwoWorkers(BOTH, 3, false, Selected(1), Claiming, {}, []);
    var s8 := TwoWorkers(BOTH, 3, false, Selected(1), Selected(1), {}, []);
    assert IsFirst(BOTH, 1);
    assert Goto(s6, 1, Selected(1)).workers == s7.workers;
    assert Goto(s7, 2, Selected(1)).workers == s8.workers;
    run, acts := OneTokenForTwoRows();
    run, acts := Then(run, acts, s6, Select(1, 1), s7);
    run, acts := Then(run, acts, s7, Select(2, 1), s8);
  }

  /** A second claimer that loses the race goes to sleep although another row is queued and
      nobody is left to wake it: the guarantee is the single worker's. */
  lemma TwoWorkersLoseAWakeup() returns (run: seq<State>, acts: seq<Action>)
    ensures IsRun(RUNNABLE, run, acts) && run[0].workers.Keys == {1, 2}
    ensures forall i | 0 <= i < |acts| :: !acts[i].StoreError? && !acts[i].Timeout?
    ensures !NoLostWakeup(run[|acts|], 2)
  {
    var s8 := TwoWorkers(BOTH, 3, false, Selected(1), Selected(1), {}, []);
    var s9 := TwoWorkers(FIRST_RUNS, 3, false, Handling(1), Selected(1), {}, [1]);
    var s10 := TwoWorkers(FIRST_RUNS, 3, false, Handling(1), Waiting, {}, [1]);
    assert Goto(s8, 1, Handling(1)).workers == s9.workers;
    assert WithStatus(BOTH, 1, Running) == FIRST_RUNS;
    assert Goto(s9, 2, Waiting).workers == s10.workers;
    assert IsQueued(FIRST_RUNS, 2);
    run, acts := BothSelectTheSameRow();
    run, acts := Then(run, acts, s8, Claim(1), s9);
    run, acts := Then(run, acts, s9, Claim(2), s10);
  }
}
