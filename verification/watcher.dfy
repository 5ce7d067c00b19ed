/** The file watcher: which root an event belongs to, and the per-file debounce timers.

    An event stops the timer the map holds for its file and arms a new one. A timer's
    callback runs the event's action, then takes the lock and deletes the file's map entry,
    whichever timer that entry holds by then. */
module FileWatcher {

  const DEBOUNCE_DELAY := 2_000_000_000

  // ---------------------------------------------------------------------------
  // Roots
  // ---------------------------------------------------------------------------

  predicate HasPrefix(s: string, prefix: string) {
    prefix <= s
  }

  predicate Under(root: string, path: string) {
    path == root || HasPrefix(path, root + "/")
  }

  /** A root contains itself and what follows it after a slash, and nothing else: /lib does
      not contain /library. */
  lemma UnderIff(root: string, path: string)
    ensures Under(root, path) <==> path == root || exists rel: string :: path == root + ['/'] + rel
  {
    if HasPrefix(path, root + "/") {
      assert path == root + ['/'] + path[|root| + 1..];
    }
    if rel: string :| path == root + ['/'] + rel {
      assert root + "/" == path[..|root| + 1];
    }
  }

  /** best is the longest of these roots that path is under, or empty if there is none. */
  ghost predicate LongestOf(roots: seq<string>, path: string, best: string) {
    && (best != "" ==> best in roots && Under(best, path))
    && forall r | r in roots && Under(r, path) :: |r| <= |best|
  }

  lemma OneMoreRoot(roots: seq<string>, path: string, best: string, r: string)
    requires LongestOf(roots, path, best)
    ensures LongestOf(roots + [r], path, if Under(r, path) && |r| > |best| then r else best)
  {
  }

  lemma LongestIsUnique(r: string, best: string, path: string)
    requires Under(r, path) && Under(best, path) && |r| == |best|
    ensures r == best
  {
    assert path[..|r|] == r && path[..|best|] == best;
  }

  lemma LongestIsRoot(roots: seq<string>, path: string, best: string)
    requires LongestOf(roots, path, best)
    ensures best != "" <==> exists r :: r in roots && r != "" && Under(r, path)
    ensures best != "" ==> forall r | r in roots && Under(r, path) && |r| >= |best| :: r == best
  {
    if best != "" {
      forall r | r in roots && Under(r, path) && |r| >= |best| ensures r == best {
        LongestIsUnique(r, best, path);
      }
    }
  }

  /** The most specific configured root; two roots of one length are the same root. */
  method RootFor(roots: seq<string>, path: string) returns (best: string, ok: bool)
    ensures ok <==> exists r :: r in roots && r != "" && Under(r, path)
    ensures ok ==> best in roots && best != "" && Under(best, path)
    ensures ok ==> forall r | r in roots && Under(r, path) && |r| >= |best| :: r == best
  {
    best := "";
    var i := 0;
    while i < |roots|
      invariant 0 <= i <= |roots|
      invariant LongestOf(roots[..i], path, best)
    {
      var r := roots[i];
      OneMoreRoot(roots[..i], path, best, r);
      assert roots[..i + 1] == roots[..i] + [r];
      if Under(r, path) && |r| > |best| {
        best := r;
      }
      i := i + 1;
    }
    assert roots[..i] == roots;
    LongestIsRoot(roots, path, best);
    ok := best != "";
  }

  /** The key events of one file share. */
  function DebounceKey(root: string, rel: string): string {
    root + ['\0'] + rel
  }

  /** Files of different roots or paths never share a timer: no path holds a NUL. */
  lemma FilesHaveTheirOwnKeys(root1: string, rel1: string, root2: string, rel2: string)
    requires '\0' !in root1 && '\0' !in root2
    ensures DebounceKey(root1, rel1) == DebounceKey(root2, rel2) <==> root1 == root2 && rel1 == rel2
  {
    var k1, k2 := DebounceKey(root1, rel1), DebounceKey(root2, rel2);
    if k1 == k2 {
      assert k1[|root1|] == '\0' && k2[|root2|] == '\0';
      assert forall i | 0 <= i < |root1| :: k1[i] == root1[i] != '\0';
      assert forall i | 0 <= i < |root2| :: k2[i] == root2[i] != '\0';
      assert root1 == k1[..|root1|] && root2 == k2[..|root2|];
      assert rel1 == k1[|root1| + 1..] && rel2 == k2[|root2| + 1..];
    }
  }

  // ---------------------------------------------------------------------------
  // Timers
  // ---------------------------------------------------------------------------

  /** Fired: the callback has started and its action is still to run. */
  datatype Phase = Armed | Stopped | Fired | Acted | Forgotten

  datatype Timer = Timer(key: string, due: int, phase: Phase)

  /** Event number i made pool[i]; timers is the watcher's map; log lists the events whose
      action has run, in that order. */
  datatype State = State(now: int, timers: map<string, nat>, pool: seq<Timer>, log: seq<nat>)

  datatype Action = Event(key: string) | Fire(id: nat) | Act(id: nat) | Forget(id: nat) | Tick(elapsed: nat)

  predicate Valid(s: State) {
    forall k | k in s.timers :: s.timers[k] < |s.pool| && s.pool[s.timers[k]].key == k
  }

  function InPhase(s: State, id: nat, phase: Phase): State
    requires id < |s.pool|
  {
    s.(pool := s.pool[id := s.pool[id].(phase := phase)])
  }

  predicate Tracked(s: State, id: nat)
    requires id < |s.pool|
  {
    s.pool[id].key in s.timers && s.timers[s.pool[id].key] == id
  }

  /** Timer.Stop: no effect on a timer that has fired. */
  function WithStopped(s: State, key: string): State
    requires Valid(s)
  {
    if key in s.timers && s.pool[s.timers[key]].phase == Armed then InPhase(s, s.timers[key], Stopped) else s
  }

  function AfterEvent(s: State, key: string): State
    requires Valid(s)
  {
    var t := WithStopped(s, key);
    t.(timers := t.timers[key := |t.pool|], pool := t.pool + [Timer(key, t.now + DEBOUNCE_DELAY, Armed)])
  }

  predicate Enabled(s: State, a: Action) {
    match a
    case Event(_) => true
    case Fire(id) => id < |s.pool| && s.pool[id].phase == Armed && s.pool[id].due <= s.now
    case Act(id) => id < |s.pool| && s.pool[id].phase == Fired
    case Forget(id) => id < |s.pool| && s.pool[id].phase == Acted
    case Tick(_) => true
  }

  function Do(s: State, a: Action): (t: State)
    requires Valid(s) && Enabled(s, a)
    ensures Valid(t)
  {
    match a
    case Event(key) => AfterEvent(s, key)
    case Fire(id) => InPhase(s, id, Fired)
    case Act(id) => InPhase(s, id, Acted).(log := s.log + [id])
    case Forget(id) => InPhase(s, id, Forgotten).(timers := s.timers - {s.pool[id].key})
    case Tick(d) => s.(now := s.now + d)
  }

  class Watcher {
    var now: int
    var timers: map<string, nat>
    var pool: seq<Timer>
    var log: seq<nat>

    function Now(): State
      reads this
    {
      State(now, timers, pool, log)
    }

    constructor ()
      ensures Valid(Now()) && timers == map[] && pool == [] && log == []
    {
      now, timers, pool, log := 0, map[], [], [];
    }

    /** Under the lock. */
    method Debounced(key: string)
      requires Valid(Now())
      modifies this
      ensures Valid(Now()) && Now() == Do(old(Now()), Event(key))
    {
      if key in timers && pool[timers[key]].phase == Armed {
        pool := pool[timers[key] := pool[timers[key]].(phase := Stopped)];
      }
      timers := timers[key := |pool|];
      pool := pool + [Timer(key, now + DEBOUNCE_DELAY, Armed)];
    }

    /** The first half of a callback: the event's action. */
    method RunAction(id: nat)
      requires Valid(Now()) && Enabled(Now(), Act(id))
      modifies this
      ensures Valid(Now()) && Now() == Do(old(Now()), Act(id))
    {
      pool := pool[id := pool[id].(phase := Acted)];
      log := log + [id];
    }

    /** The second half, under the lock again. */
    method DeleteEntry(id: nat)
      requires Valid(Now()) && Enabled(Now(), Forget(id))
      modifies this
      ensures Valid(Now()) && Now() == Do(old(Now()), Forget(id))
    {
      timers := timers - {pool[id].key};
      pool := pool[id := pool[id].(phase := Forgotten)];
    }
  }

  // ---------------------------------------------------------------------------
  // Runs
  // ---------------------------------------------------------------------------

  /** actions can be taken one after the other from s. */
  predicate Runs(s: State, actions: seq<Action>)
    requires Valid(s)
    decreases |actions|
  {
    actions == [] || (Enabled(s, actions[0]) && Runs(Do(s, actions[0]), actions[1..]))
  }

  function Run(s: State, actions: seq<Action>): (t: State)
    requires Valid(s) && Runs(s, actions)
    ensures Valid(t)
    decreases |actions|
  {
    if actions == [] then s else Run(Do(s, actions[0]), actions[1..])
  }

  predicate NoEvent(actions: seq<Action>, key: string) {
    Event(key) !in actions
  }

  predicate HasActed(t: Timer) {
    t.phase == Acted || t.phase == Forgotten
  }

  /** Each action runs at most once, and its timer knows. */
  ghost predicate Logged(s: State) {
    && (forall i, j | 0 <= i < j < |s.log| :: s.log[i] != s.log[j])
    && (forall id: nat :: id in s.log <==> id < |s.pool| && HasActed(s.pool[id]))
  }

  lemma StepKeepsLog(s: State, a: Action)
    requires Valid(s) && Logged(s) && Enabled(s, a)
    ensures Logged(Do(s, a))
  {
  }

  /** A step of its own key's later event is the only one that stops a timer. */
  lemma OnlyEventsStop(s: State, a: Action, id: nat)
    requires Valid(s) && Enabled(s, a) && id < |s.pool| && s.pool[id].phase != Stopped
    ensures id < |Do(s, a).pool| && Do(s, a).pool[id].key == s.pool[id].key && Do(s, a).pool[id].due == s.pool[id].due
    ensures Do(s, a).pool[id].phase == Stopped
      ==> a == Event(s.pool[id].key) && Tracked(s, id) && s.pool[id].phase == Armed
  {
  }

  /** Timers keep their file; a stopped one stays stopped and an action is run for good. */
  lemma TimersGoOn(s: State, a: Action, id: nat)
    requires Valid(s) && Enabled(s, a) && id < |s.pool|
    ensures |Do(s, a).pool| == if a.Event? then |s.pool| + 1 else |s.pool|
    ensures Do(s, a).pool[id].key == s.pool[id].key
    ensures s.pool[id].phase == Stopped ==> Do(s, a).pool[id].phase == Stopped
    ensures HasActed(s.pool[id]) ==> HasActed(Do(s, a).pool[id])
  {
  }

  lemma {:induction false} UnstoppedStays(s: State, actions: seq<Action>, id: nat)
    requires Valid(s) && Runs(s, actions) && Logged(s)
    requires id < |s.pool| && s.pool[id].phase != Stopped && NoEvent(actions, s.pool[id].key)
    ensures var t := Run(s, actions);
            && Logged(t) && id < |t.pool| && t.pool[id].phase != Stopped
            && t.pool[id].key == s.pool[id].key && t.pool[id].due == s.pool[id].due
    decreases |actions|
  {
    if actions != [] {
      OnlyEventsStop(s, actions[0], id);
      StepKeepsLog(s, actions[0]);
      UnstoppedStays(Do(s, actions[0]), actions[1..], id);
    }
  }

  /** No timer can do anything at this instant. */
  ghost predicate Quiet(s: State) {
    forall id: nat :: !Enabled(s, Fire(id)) && !Enabled(s, Act(id)) && !Enabled(s, Forget(id))
  }

  /** Nothing is lost: once the watcher is quiet and the delay is over, the last event of a
      file has had its action run, once, whatever other timers and callbacks did. */
  lemma LastEventActs(s: State, key: string, actions: seq<Action>)
    requires Valid(s) && Logged(s)
    requires Runs(AfterEvent(s, key), actions) && NoEvent(actions, key)
    ensures var t := Run(AfterEvent(s, key), actions);
            Quiet(t) && s.now + 2_000_000_000 <= t.now ==>
              |s.pool| in t.log && forall i, j | 0 <= i < j < |t.log| :: t.log[i] != t.log[j]
  {
    var e, u := |s.pool|, AfterEvent(s, key);
    StepKeepsLog(s, Event(key));
    UnstoppedStays(u, actions, e);
    var t := Run(u, actions);
    if Quiet(t) {
      assert !Enabled(t, Fire(e)) && !Enabled(t, Act(e));
    }
  }

  /** The timer has not fired, or its delay is over. */
  predicate InTime(s: State, id: nat)
    requires id < |s.pool|
  {
    s.pool[id].phase == Armed || s.pool[id].phase == Stopped || s.pool[id].due <= s.now
  }

  lemma StepStaysInTime(s: State, a: Action, id: nat)
    requires Valid(s) && Enabled(s, a) && id < |s.pool| && InTime(s, id)
    ensures id < |Do(s, a).pool| && Do(s, a).pool[id].due == s.pool[id].due && InTime(Do(s, a), id)
  {
  }

  lemma {:induction false} RunStaysInTime(s: State, actions: seq<Action>, id: nat)
    requires Valid(s) && Runs(s, actions) && id < |s.pool| && InTime(s, id)
    ensures id < |Run(s, actions).pool| && Run(s, actions).pool[id].due == s.pool[id].due
    ensures InTime(Run(s, actions), id)
    decreases |actions|
  {
    if actions != [] {
      StepStaysInTime(s, actions[0], id);
      RunStaysInTime(Do(s, actions[0]), actions[1..], id);
    }
  }

  /** The action of an event waits: it does not run within two seconds of it. */
  lemma ActionWaits(s: State, key: string, actions: seq<Action>)
    requires Valid(s) && Logged(s) && Runs(AfterEvent(s, key), actions)
    ensures |s.pool| in Run(AfterEvent(s, key), actions).log ==>
      s.now + 2_000_000_000 <= Run(AfterEvent(s, key), actions).now
  {
    var u := AfterEvent(s, key);
    StepKeepsLog(s, Event(key));
    RunStaysInTime(u, actions, |s.pool|);
    RunStaysLogged(u, actions);
  }

  lemma {:induction false} RunStaysLogged(s: State, actions: seq<Action>)
    requires Valid(s) && Runs(s, actions) && Logged(s)
    ensures Logged(Run(s, actions))
    decreases |actions|
  {
    if actions != [] {
      StepKeepsLog(s, actions[0]);
      RunStaysLogged(Do(s, actions[0]), actions[1..]);
    }
  }

  function Work(p: Phase): nat {
    match p case Armed => 3 case Fired => 2 case Acted => 1 case Stopped => 0 case Forgotten => 0
  }

  function TotalWork(pool: seq<Timer>): nat {
    if pool == [] then 0 else TotalWork(pool[..|pool| - 1]) + Work(pool[|pool| - 1].phase)
  }

  lemma {:induction false} WorkAt(pool: seq<Timer>, id: nat, p: Phase)
    requires id < |pool|
    ensures TotalWork(pool[id := pool[id].(phase := p)]) == TotalWork(pool) - Work(pool[id].phase) + Work(p)
    decreases |pool|
  {
    var new_ := pool[id := pool[id].(phase := p)];
    var n := |pool| - 1;
    if id < n {
      WorkAt(pool[..n], id, p);
      assert new_[..n] == pool[..n][id := pool[id].(phase := p)];
    } else {
      assert new_[..n] == pool[..n];
    }
  }

  predicate TimerStep(a: Action) {
    a.Fire? || a.Act? || a.Forget?
  }

  lemma TimerStepsUseWork(s: State, a: Action)
    requires Valid(s) && Enabled(s, a) && !a.Event?
    ensures TotalWork(Do(s, a).pool) == TotalWork(s.pool) - if TimerStep(a) then 1 else 0
  {
    if TimerStep(a) {
      WorkAt(s.pool, a.id, Fired);
      WorkAt(s.pool, a.id, Acted);
      WorkAt(s.pool, a.id, Forgotten);
    }
  }

  function CountTimerSteps(actions: seq<Action>): nat {
    if actions == [] then 0 else (if TimerStep(actions[0]) then 1 else 0) + CountTimerSteps(actions[1..])
  }

  lemma {:induction false} WorkIsSpent(s: State, actions: seq<Action>)
    requires Valid(s) && Runs(s, actions) && forall a | a in actions :: !a.Event?
    ensures CountTimerSteps(actions) + TotalWork(Run(s, actions).pool) == TotalWork(s.pool)
    decreases |actions|
  {
    if actions != [] {
      assert actions[0] in actions;
      TimerStepsUseWork(s, actions[0]);
      WorkIsSpent(Do(s, actions[0]), actions[1..]);
    }
  }

  ghost predicate AllDue(s: State) {
    forall id: nat | id < |s.pool| :: s.pool[id].due <= s.now
  }

  lemma {:induction false} NoWorkIff(pool: seq<Timer>)
    ensures TotalWork(pool) == 0 <==> forall id: nat | id < |pool| :: Work(pool[id].phase) == 0
    decreases |pool|
  {
    if pool != [] {
      var init := pool[..|pool| - 1];
      NoWorkIff(init);
      assert forall id: nat | id < |init| :: init[id] == pool[id];
    }
  }

  lemma IdleTimerIff(s: State, id: nat)
    requires id < |s.pool| && s.pool[id].due <= s.now
    ensures Work(s.pool[id].phase) == 0 <==> !Enabled(s, Fire(id)) && !Enabled(s, Act(id)) && !Enabled(s, Forget(id))
  {
  }

  /** Without new events the watcher becomes quiet: a run holds at most TotalWork timer
      steps, and once every delay is over it is quiet exactly when it has taken them all. */
  lemma QuietIsReached(s: State, actions: seq<Action>)
    requires Valid(s) && Runs(s, actions) && forall a | a in actions :: !a.Event?
    ensures CountTimerSteps(actions) <= TotalWork(s.pool)
    ensures AllDue(Run(s, actions)) ==> (Quiet(Run(s, actions)) <==> CountTimerSteps(actions) == TotalWork(s.pool))
  {
    WorkIsSpent(s, actions);
    var t := Run(s, actions);
    NoWorkIff(t.pool);
    if AllDue(t) {
      forall id: nat | id < |t.pool|
        ensures Work(t.pool[id].phase) == 0
          <==> !Enabled(t, Fire(id)) && !Enabled(t, Act(id)) && !Enabled(t, Forget(id))
      {
        IdleTimerIff(t, id);
      }
    }
  }

  // ---------------------------------------------------------------------------
  // The last event's action is not always the last to run
  // ---------------------------------------------------------------------------

  /** Earlier timers of the file that an event does not reach: callbacks under way, and
      armed timers whose map entry such a callback has deleted. */
  ghost predicate Stale(s: State, key: string, id: nat) {
    && id < |s.pool| && s.pool[id].key == key
    && (s.pool[id].phase == Fired || (s.pool[id].phase == Armed && !Tracked(s, id)))
  }

  /** Every timer of the file except e is past acting. */
  ghost predicate Spent(s: State, key: string, e: nat) {
    forall id | 0 <= id < |s.pool| && s.pool[id].key == key && id != e ::
      s.pool[id].phase == Stopped || HasActed(s.pool[id])
  }

  /** What was logged after the first n entries for this file is e. */
  ghost predicate OnlyActs(t: State, key: string, e: nat, n: nat) {
    forall i | n <= i < |t.log| && t.log[i] < |t.pool| && t.pool[t.log[i]].key == key :: t.log[i] == e
  }

  lemma StepStaysSpent(s: State, a: Action, key: string, e: nat, n: nat)
    requires Valid(s) && Enabled(s, a) && Spent(s, key, e) && a != Event(key)
    requires n <= |s.log| && Logged(s) && OnlyActs(s, key, e, n)
    ensures Spent(Do(s, a), key, e) && n <= |Do(s, a).log| && OnlyActs(Do(s, a), key, e, n)
  {
    var t := Do(s, a);
    forall i | n <= i < |t.log| && t.log[i] < |t.pool| && t.pool[t.log[i]].key == key ensures t.log[i] == e {
      if i < |s.log| {
        assert s.log[i] in s.log;
      }
    }
  }

  lemma {:induction false} RunStaysSpent(s: State, actions: seq<Action>, key: string, e: nat, n: nat)
    requires Valid(s) && Runs(s, actions) && Spent(s, key, e) && NoEvent(actions, key)
    requires n <= |s.log| && Logged(s) && OnlyActs(s, key, e, n)
    ensures OnlyActs(Run(s, actions), key, e, n)
    decreases |actions|
  {
    if actions != [] {
      StepStaysSpent(s, actions[0], key, e, n);
      StepKeepsLog(s, actions[0]);
      RunStaysSpent(Do(s, actions[0]), actions[1..], key, e, n);
    }
  }

  lemma StopSpends(s: State, key: string)
    requires Valid(s) && Logged(s) && forall id: nat :: !Stale(s, key, id)
    ensures Spent(AfterEvent(s, key), key, |s.pool|)
  {
    var t := AfterEvent(s, key);
    forall id: nat | id < |t.pool| && t.pool[id].key == key && id != |s.pool|
      ensures t.pool[id].phase == Stopped || HasActed(t.pool[id])
    {
      assert !Stale(s, key, id);
    }
  }

  function Later(a: int, b: int): (c: nat)
    ensures a + c >= b
  {
    if a < b then b - a else 0
  }

  function ActsLate(e: nat, id: nat, phase: Phase): seq<Action> {
    if phase == Fired then [Act(e), Act(id)] else [Act(e), Fire(id), Act(id)]
  }

  /** A way on from an event that lets the stale timer act after the event's own. */
  function Overtaking(s: State, id: nat): seq<Action>
    requires id < |s.pool|
  {
    var wait := Later(s.now + DEBOUNCE_DELAY, s.pool[id].due);
    [Tick(DEBOUNCE_DELAY + wait)] + ([Fire(|s.pool|)] + ActsLate(|s.pool|, id, s.pool[id].phase))
  }

  lemma RunsStep(s: State, a: Action, rest: seq<Action>)
    requires Valid(s) && Enabled(s, a)
    requires Runs(Do(s, a), rest)
    ensures Runs(s, [a] + rest)
    ensures Run(s, [a] + rest) == Run(Do(s, a), rest)
  {
  }

  lemma StaleSurvivesStop(s: State, key: string, id: nat)
    requires Valid(s) && Stale(s, key, id)
    ensures AfterEvent(s, key).pool[id] == s.pool[id]
  {
  }

  predicate ActedInTurn(s: State, t: State, first: nat, second: nat) {
    && t.log == s.log + [first, second]
    && second < |s.pool| == |t.pool|
    && t.pool[second].key == s.pool[second].key
  }

  lemma ActThen(s: State, first: nat, second: nat)
    requires Valid(s) && first < |s.pool| && second < |s.pool| && first != second
    requires s.pool[first].phase == Fired && s.pool[second].phase == Fired
    ensures var actions := [Act(first), Act(second)];
            Runs(s, actions) && ActedInTurn(s, Run(s, actions), first, second)
  {
    var t := Do(s, Act(first));
    RunsStep(t, Act(second), []);
    RunsStep(s, Act(first), [Act(second)]);
  }

  lemma ActFireAct(s: State, first: nat, second: nat)
    requires Valid(s) && first < |s.pool| && second < |s.pool| && first != second
    requires s.pool[first].phase == Fired && s.pool[second].phase == Armed && s.pool[second].due <= s.now
    ensures var actions := [Act(first), Fire(second), Act(second)];
            Runs(s, actions) && ActedInTurn(s, Run(s, actions), first, second)
  {
    var t := Do(s, Act(first));
    var u := Do(t, Fire(second));
    RunsStep(u, Act(second), []);
    RunsStep(t, Fire(second), [Act(second)]);
    RunsStep(s, Act(first), [Fire(second), Act(second)]);
  }

  /** A tick or a firing before the rest of a run. */
  lemma Before(s: State, a: Action, rest: seq<Action>, first: nat, second: nat)
    requires Valid(s) && Enabled(s, a) && (a.Tick? || a.Fire?)
    requires Runs(Do(s, a), rest) && ActedInTurn(Do(s, a), Run(Do(s, a), rest), first, second)
    ensures Runs(s, [a] + rest) && ActedInTurn(s, Run(s, [a] + rest), first, second)
  {
    RunsStep(s, a, rest);
  }

  lemma Overtaken(s: State, key: string, id: nat)
    requires Valid(s) && Stale(s, key, id)
    ensures var u, actions := AfterEvent(s, key), Overtaking(s, id);
            && Runs(u, actions) && NoEvent(actions, key)
            && ActedInTurn(u, Run(u, actions), |s.pool|, id) && u.log == s.log && u.pool[id].key == key
  {
    var e, u, actions := |s.pool|, AfterEvent(s, key), Overtaking(s, id);
    StaleSurvivesStop(s, key, id);
    var v := Do(u, actions[0]);
    var w := Do(v, Fire(e));
    var rest := ActsLate(e, id, s.pool[id].phase);
    if s.pool[id].phase == Fired {
      ActThen(w, e, id);
    } else {
      ActFireAct(w, e, id);
    }
    Before(v, Fire(e), rest, e, id);
    Before(u, actions[0], [Fire(e)] + rest, e, id);
  }

  /** An event's action is sure to be the last one run for its file exactly when, at the
      event, no callback of the file is under way and no timer of the file has lost its
      map entry. Otherwise an earlier event's action can run after it. */
  lemma LastEventActsLastIff(s: State, key: string)
    requires Valid(s) && Logged(s)
    ensures var u := AfterEvent(s, key);
            (forall actions | Runs(u, actions) && NoEvent(actions, key) ::
              OnlyActs(Run(u, actions), key, |s.pool|, |s.log|))
            <==> forall id: nat :: !Stale(s, key, id)
  {
    var u := AfterEvent(s, key);
    if id: nat :| Stale(s, key, id) {
      Overtaken(s, key, id);
      var t := Run(u, Overtaking(s, id));
      assert t.log[|s.log| + 1] == id && !OnlyActs(t, key, |s.pool|, |s.log|);
    } else {
      StopSpends(s, key);
      StepKeepsLog(s, Event(key));
      forall actions | Runs(u, actions) && NoEvent(actions, key)
        ensures OnlyActs(Run(u, actions), key, |s.pool|, |s.log|)
      {
        RunStaysSpent(u, actions, key, |s.pool|, |s.log|);
      }
    }
  }

  // ---------------------------------------------------------------------------
  // Stale timers in runs from the start
  // ---------------------------------------------------------------------------

  const START := State(0, map[], [], [])

  ghost predicate Reaches(actions: seq<Action>, s: State) {
    Runs(START, actions) && Run(START, actions) == s
  }

  lemma {:induction false} RunsOn(s: State, actions: seq<Action>, a: Action)
    requires Valid(s) && Runs(s, actions) && Enabled(Run(s, actions), a)
    ensures Runs(s, actions + [a]) && Run(s, actions + [a]) == Do(Run(s, actions), a)
    decreases |actions|
  {
    if actions == [] {
      assert [] + [a] == [a] && [a][1..] == [];
    } else {
      RunsOn(Do(s, actions[0]), actions[1..], a);
      assert (actions + [a])[1..] == actions[1..] + [a];
    }
  }

  lemma Goes(actions: seq<Action>, s: State, a: Action) returns (longer: seq<Action>)
    requires Valid(s) && Reaches(actions, s) && Enabled(s, a)
    ensures Reaches(longer, Do(s, a))
  {
    RunsOn(START, actions, a);
    longer := actions + [a];
  }

  /** One event, and its callback under way when the next event comes. */
  lemma FiredTimerIsReachable(key: string) returns (actions: seq<Action>, s: State)
    ensures Valid(s) && Reaches(actions, s) && Stale(s, key, 0)
    ensures s == State(DEBOUNCE_DELAY, map[key := 0], [Timer(key, DEBOUNCE_DELAY, Fired)], [])
  {
    var s1 := State(0, map[key := 0], [Timer(key, DEBOUNCE_DELAY, Armed)], []);
    var s2 := s1.(now := DEBOUNCE_DELAY);
    s := s2.(pool := [Timer(key, DEBOUNCE_DELAY, Fired)]);
    assert Do(START, Event(key)) == s1;
    assert Do(s1, Tick(DEBOUNCE_DELAY)) == s2;
    assert Do(s2, Fire(0)) == s;
    actions := Goes([], START, Event(key));
    actions := Goes(actions, s1, Tick(DEBOUNCE_DELAY));
    actions := Goes(actions, s2, Fire(0));
  }

  /** A second event comes then; the first callback ends and deletes the second timer's
      map entry, so that a third event leaves both later timers armed. */
  lemma LostEntryIsReachable(key: string) returns (actions: seq<Action>, s: State)
    ensures Valid(s) && Reaches(actions, s) && Stale(s, key, 1)
    ensures s.pool[1].phase == Armed && key !in s.timers
  {
    var s3;
    actions, s3 := FiredTimerIsReachable(key);
    var second := Timer(key, 2 * DEBOUNCE_DELAY, Armed);
    var s4 := State(DEBOUNCE_DELAY, map[key := 1], [Timer(key, DEBOUNCE_DELAY, Fired), second], []);
    var s5 := s4.(pool := [Timer(key, DEBOUNCE_DELAY, Acted), second], log := [0]);
    s := s5.(pool := [Timer(key, DEBOUNCE_DELAY, Forgotten), second], timers := map[]);
    assert Do(s3, Event(key)) == s4;
    assert Do(s4, Act(0)) == s5;
    assert s5.timers - {key} == map[];
    assert Do(s5, Forget(0)) == s;
    actions := Goes(actions, s3, Event(key));
    actions := Goes(actions, s4, Act(0));
    actions := Goes(actions, s5, Forget(0));
  }

  /** So it happens: two events of one file, and the first one's action runs last. */
  lemma EarlierActionCanRunLast(key: string) returns (s: State, actions: seq<Action>)
    ensures Valid(s) && s.pool != [] && (exists past :: Reaches(past, s))
    ensures Runs(AfterEvent(s, key), actions) && NoEvent(actions, key) && Run(AfterEvent(s, key), actions).log == [1, 0]
  {
    var past;
    past, s := FiredTimerIsReachable(key);
    Overtaken(s, key, 0);
    actions := Overtaking(s, 0);
  }
}
