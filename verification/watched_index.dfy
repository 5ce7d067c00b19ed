/** The watcher at work on the index: file events, the debounced actions they leave behind,
    and whether in the end a file is indexed exactly when it is on the disk. */
module WatchedIndex {
  import opened Wrappers
  import opened LibraryTables
  import opened LibraryRuns
  import W = FileWatcher

  datatype FileEvent = FileEvent(file: Key, removed: bool)

  /** events[i] is the event that made the watcher's timer i. */
  datatype State = State(watcher: W.State, events: seq<FileEvent>, tables: Tables, disk: map<Key, File>)

  datatype Move =
    | Change(file: Key, content: map<Key, File>)
    | Occur(event: FileEvent)
    | Timer(action: W.Action)
    | Index(call: Call)

  function Name(file: Key): string {
    W.DebounceKey(file.root, file.rel)
  }

  /** No path holds a NUL. */
  predicate IsPath(file: Key) {
    '\0' !in file.root
  }

  lemma NamesDiffer(a: Key, b: Key)
    requires IsPath(a) && IsPath(b)
    ensures Name(a) == Name(b) <==> a == b
  {
    W.FilesHaveTheirOwnKeys(a.root, a.rel, b.root, b.rel);
  }

  /** What the event's action does when its turn comes: an upsert reads the file as it is by
      then, and fails if it is gone. */
  ghost predicate Acts(s: State, e: FileEvent, t: Tables) {
    if e.removed then DeletedByPath(s.tables, e.file, t)
    else if e.file in s.disk then Upserted(s.tables, e.file, s.disk[e.file], false, t)
    else t == s.tables
  }

  ghost predicate WellFormed(s: State) {
    && W.Valid(s.watcher) && Valid(s.tables) && |s.events| == |s.watcher.pool|
    && forall i | 0 <= i < |s.events| :: IsPath(s.events[i].file) && s.watcher.pool[i].key == Name(s.events[i].file)
  }

  ghost predicate Step(s: State, m: Move, t: State)
    requires WellFormed(s)
  {
    match m
    case Change(k, content) =>
      content.Keys <= {k} && t == s.(disk := (s.disk - {k}) + content)
    case Occur(e) =>
      IsPath(e.file) && t == s.(watcher := W.AfterEvent(s.watcher, Name(e.file)), events := s.events + [e])
    case Timer(a) =>
      && !a.Event? && W.Enabled(s.watcher, a)
      && t == s.(watcher := W.Do(s.watcher, a), tables := t.tables)
      && if a.Act? then Acts(s, s.events[a.id], t.tables) else t.tables == s.tables
    case Index(call) => LibraryRuns.Step(s.tables, call, t.tables) && t == s.(tables := t.tables)
  }

  lemma ActChangesItsFile(s: State, e: FileEvent, t: Tables)
    requires Valid(s.tables) && Acts(s, e, t)
    ensures Valid(t)
    ensures Keys(t) == if e.removed then Keys(s.tables) - {e.file}
                       else if e.file in s.disk then Keys(s.tables) + {e.file}
                       else Keys(s.tables)
  {
    if e.removed {
      DeleteByPathDropsItsKey(s.tables, e.file, t);
    } else if e.file in s.disk {
      UpsertAddsItsKey(s.tables, e.file, s.disk[e.file], false, t);
    }
  }

  /** The watcher's part of a move. */
  function WatcherMove(m: Move): W.Action {
    match m
    case Change(_, _) => W.Tick(0)
    case Occur(e) => W.Event(Name(e.file))
    case Timer(a) => a
    case Index(_) => W.Tick(0)
  }

  lemma WatcherMoves(s: State, m: Move, t: State)
    requires WellFormed(s) && Step(s, m, t)
    ensures W.Enabled(s.watcher, WatcherMove(m)) && t.watcher == W.Do(s.watcher, WatcherMove(m))
    ensures t.events == if m.Occur? then s.events + [m.event] else s.events
  {
  }

  lemma EventsStayNamed(s: State, m: Move, t: State, i: nat)
    requires WellFormed(s) && Step(s, m, t) && i < |t.events|
    ensures |t.events| == |t.watcher.pool|
    ensures IsPath(t.events[i].file) && t.watcher.pool[i].key == Name(t.events[i].file)
  {
    WatcherMoves(s, m, t);
    if i < |s.events| {
      W.TimersGoOn(s.watcher, WatcherMove(m), i);
    }
  }

  lemma TablesStayValid(s: State, m: Move, t: State)
    requires WellFormed(s) && Step(s, m, t)
    ensures Valid(t.tables)
  {
    if m.Timer? && m.action.Act? {
      ActChangesItsFile(s, s.events[m.action.id], t.tables);
    } else if m.Index? {
      StepKeepsPartition(s.tables, m.call, t.tables);
    }
  }

  lemma StepStaysWellFormed(s: State, m: Move, t: State)
    requires WellFormed(s) && Step(s, m, t)
    ensures WellFormed(t)
  {
    WatcherMoves(s, m, t);
    TablesStayValid(s, m, t);
    forall i | 0 <= i < |t.events|
      ensures IsPath(t.events[i].file) && t.watcher.pool[i].key == Name(t.events[i].file)
    {
      EventsStayNamed(s, m, t, i);
    }
  }

  // ---------------------------------------------------------------------------
  // From a file's last event on
  // ---------------------------------------------------------------------------

  /** The move leaves the file alone: no event of it, no change of it, and no other call
      that indexes or drops it. */
  ghost predicate Spares(s: State, m: Move, file: Key) {
    match m
    case Change(k, _) => k != file
    case Occur(e) => e.file != file
    case Timer(_) => true
    case Index(call) => !MayAdd(call, file) && !MayRemove(s.tables, call, file)
  }

  /** A move from s to t that may come after the file's last event. */
  ghost predicate Later(s: State, m: Move, t: State, file: Key) {
    WellFormed(s) && Step(s, m, t) && Spares(s, m, file)
  }

  ghost predicate IsTail(run: seq<State>, moves: seq<Move>, file: Key) {
    && |run| == |moves| + 1
    && forall i | 0 <= i < |moves| :: Later(run[i], moves[i], run[i + 1], file)
  }

  ghost predicate InStep(s: State, file: Key) {
    file in Keys(s.tables) <==> file in s.disk
  }

  ghost predicate Acted(s: State, id: nat) {
    id < |s.watcher.pool| && W.HasActed(s.watcher.pool[id])
  }

  /** A removal of the file that the watcher may still act on. */
  ghost predicate RemovalLeft(s: State, file: Key, id: nat) {
    && id < |s.events| && s.events[id] == FileEvent(file, true)
    && WellFormed(s) && s.watcher.pool[id].phase != W.Stopped && !W.HasActed(s.watcher.pool[id])
  }

  /** Event e is the last of its file, and tells what has become of it. */
  ghost predicate Told(s: State, e: FileEvent, id: nat) {
    && WellFormed(s) && id < |s.events| && s.events[id] == e
    && (e.file in s.disk <==> !e.removed)
    && s.watcher.pool[id].phase != W.Stopped
  }

  /** Its action, once run, has brought the index into step. */
  ghost predicate Settled(s: State, e: FileEvent, id: nat) {
    && Told(s, e, id)
    && (Acted(s, id) ==> InStep(s, e.file))
    && (!e.removed ==> forall x: nat :: !RemovalLeft(s, e.file, x))
  }

  lemma LaterStaysTold(s: State, m: Move, t: State, e: FileEvent, id: nat)
    requires Told(s, e, id) && Later(s, m, t, e.file)
    ensures Told(t, e, id) && t.watcher.pool[id].due == s.watcher.pool[id].due
  {
    StepStaysWellFormed(s, m, t);
    WatcherMoves(s, m, t);
    if m.Occur? {
      NamesDiffer(m.event.file, e.file);
    }
    W.OnlyEventsStop(s.watcher, WatcherMove(m), id);
  }

  lemma NoRemovalComesBack(s: State, m: Move, t: State, file: Key, x: nat)
    requires Later(s, m, t, file) && RemovalLeft(t, file, x)
    ensures RemovalLeft(s, file, x)
  {
    WatcherMoves(s, m, t);
    if x < |s.events| {
      W.TimersGoOn(s.watcher, WatcherMove(m), x);
    }
  }

  lemma ActStaysInStep(s: State, id0: nat, t: State, e: FileEvent, id: nat)
    requires Settled(s, e, id) && Later(s, Timer(W.Act(id0)), t, e.file)
    ensures Acted(t, id) ==> InStep(t, e.file)
  {
    ActChangesItsFile(s, s.events[id0], t.tables);
    assert s.events[id0] == FileEvent(e.file, true) && !e.removed ==> RemovalLeft(s, e.file, id0);
  }

  lemma LaterStaysSettled(s: State, m: Move, t: State, e: FileEvent, id: nat)
    requires Settled(s, e, id) && Later(s, m, t, e.file)
    ensures Settled(t, e, id)
  {
    LaterStaysTold(s, m, t, e, id);
    forall x: nat | RemovalLeft(t, e.file, x) ensures RemovalLeft(s, e.file, x) {
      NoRemovalComesBack(s, m, t, e.file, x);
    }
    if m.Timer? && m.action.Act? {
      ActStaysInStep(s, m.action.id, t, e, id);
    } else if m.Index? {
      StepKeepsPartition(s.tables, m.call, t.tables);
    }
  }

  lemma {:induction false} TailStaysSettled(run: seq<State>, moves: seq<Move>, e: FileEvent, id: nat, n: nat)
    requires IsTail(run, moves, e.file) && n < |run| && Settled(run[0], e, id)
    ensures Settled(run[n], e, id) && run[n].watcher.pool[id].due == run[0].watcher.pool[id].due
  {
    if n > 0 {
      TailStaysSettled(run, moves, e, id, n - 1);
      assert Later(run[n - 1], moves[n - 1], run[n - 1 + 1], e.file);
      LaterStaysSettled(run[n - 1], moves[n - 1], run[n], e, id);
      LaterStaysTold(run[n - 1], moves[n - 1], run[n], e, id);
    }
  }

  // ---------------------------------------------------------------------------
  // Every timer can run out, with one removal as the last to act
  // ---------------------------------------------------------------------------

  lemma {:induction false} OldestOf(s: Tables, keys: set<Key>) returns (k: Key)
    requires keys != {} && keys <= s.locs.Keys
    ensures k in keys && forall l | l in keys :: s.locs[k].addedAt <= s.locs[l].addedAt
    decreases |keys|
  {
    var one :| one in keys;
    k := one;
    if keys != {one} {
      var other := OldestOf(s, keys - {one});
      k := if s.locs[other].addedAt < s.locs[one].addedAt then other else one;
      assert forall l | l in keys :: l == one || l in keys - {one};
    }
  }

  lemma RemovalHappens(s: Tables, b: BookId) returns (t: Tables)
    ensures Removed(s, b, {}, t)
  {
    if LocsOf(s, b) == {} {
      t := s.(books := s.books - {b});
    } else {
      var k := OldestOf(s, LocsOf(s, b));
      assert Promotes(s, b, {}, k);
      t := Promoted(s, b, k);
    }
  }

  lemma DeletionHappens(s: Tables, k: Key) returns (t: Tables)
    ensures DeletedByPath(s, k, t)
  {
    if b :| IsRow(s, b, k) {
      t := RemovalHappens(s, b);
    } else {
      t := s.(locs := s.locs - {k});
    }
  }

  lemma UpsertHappens(s: Tables, k: Key, f: File) returns (t: Tables)
    ensures Upserted(s, k, f, false, t)
  {
    if k in s.locs {
      t := if s.locs[k].stat == f.stat then s else s.(locs := s.locs[k := s.locs[k].(stat := f.stat)]);
    } else if b :| IsRow(s, b, k) {
      t := Reread(s, b, f, false);
    } else if TitleMatches(s, f.parsed) != {} {
      SomeElement(TitleMatches(s, f.parsed));
      var b :| b in TitleMatches(s, f.parsed);
      t := s.(locs := s.locs[k := LocRow(b, f.stat, 0)]);
    } else {
      t := s.(books := s.books[s.nextId := BookRow(k, f.stat, ColumnsOf(k, f.parsed), 0)], nextId := s.nextId + 1);
    }
  }

  /** Whatever a timer may do next, it can do, and it spares every file. */
  lemma TimerGoes(s: State, a: W.Action, file: Key) returns (t: State)
    requires WellFormed(s) && !a.Event? && W.Enabled(s.watcher, a)
    ensures Later(s, Timer(a), t, file) && WellFormed(t)
    ensures t.watcher == W.Do(s.watcher, a) && t.events == s.events && t.disk == s.disk
    ensures a.Act? ==> Acts(s, s.events[a.id], t.tables)
  {
    var tables := s.tables;
    if a.Act? {
      var e := s.events[a.id];
      if e.removed {
        tables := DeletionHappens(s.tables, e.file);
      } else if e.file in s.disk {
        tables := UpsertHappens(s.tables, e.file, s.disk[e.file]);
      }
    }
    t := s.(watcher := W.Do(s.watcher, a), tables := tables);
    StepStaysWellFormed(s, Timer(a), t);
  }

  lemma Prepend(s: State, m: Move, run: seq<State>, moves: seq<Move>, file: Key)
    requires IsTail(run, moves, file) && Later(s, m, run[0], file)
    ensures IsTail([s] + run, [m] + moves, file)
    ensures ([s] + run)[|moves| + 1] == run[|moves|]
  {
  }

  /** The timer has nothing left to do. */
  predicate Idle(s: State, id: nat)
    requires id < |s.watcher.pool|
  {
    W.Work(s.watcher.pool[id].phase) == 0
  }

  ghost predicate OnlyBusy(s: State, x: nat) {
    forall id: nat | id < |s.watcher.pool| && id != x :: Idle(s, id)
  }

  ghost predicate SameSetting(s: State, t: State) {
    t.events == s.events && t.disk == s.disk && t.watcher.now == s.watcher.now
  }

  function NextOf(id: nat, phase: W.Phase): W.Action {
    if phase == W.Armed then W.Fire(id) else if phase == W.Fired then W.Act(id) else W.Forget(id)
  }

  lemma NextIsEnabled(s: State, id: nat)
    requires WellFormed(s) && W.AllDue(s.watcher) && id < |s.watcher.pool| && !Idle(s, id)
    ensures var a := NextOf(id, s.watcher.pool[id].phase);
            W.Enabled(s.watcher, a) && W.TimerStep(a) && a.id == id
            && W.AllDue(W.Do(s.watcher, a))
            && W.TotalWork(W.Do(s.watcher, a).pool) < W.TotalWork(s.watcher.pool)
  {
    W.TimerStepsUseWork(s.watcher, NextOf(id, s.watcher.pool[id].phase));
  }

  /** All timers but x run out. */
  lemma {:induction false} OthersRunOut(s: State, x: nat, file: Key) returns (run: seq<State>, moves: seq<Move>)
    requires WellFormed(s) && W.AllDue(s.watcher) && x < |s.watcher.pool|
    ensures IsTail(run, moves, file) && run[0] == s
    ensures var t := run[|moves|];
            && WellFormed(t) && W.AllDue(t.watcher) && SameSetting(s, t) && OnlyBusy(t, x)
            && t.watcher.pool[x] == s.watcher.pool[x]
    decreases W.TotalWork(s.watcher.pool)
  {
    if id: nat :| id < |s.watcher.pool| && id != x && !Idle(s, id) {
      var a := NextOf(id, s.watcher.pool[id].phase);
      NextIsEnabled(s, id);
      var t := TimerGoes(s, a, file);
      run, moves := OthersRunOut(t, x, file);
      Prepend(s, Timer(a), run, moves, file);
      run, moves := [s] + run, [Timer(a)] + moves;
    } else {
      run, moves := [s], [];
    }
  }

  lemma ActedRunsOut(s: State, x: nat, file: Key) returns (run: seq<State>, moves: seq<Move>)
    requires WellFormed(s) && OnlyBusy(s, x) && x < |s.watcher.pool| && s.watcher.pool[x].phase == W.Acted
    ensures IsTail(run, moves, file) && run[0] == s
    ensures var t := run[|moves|]; W.Quiet(t.watcher) && SameSetting(s, t) && t.tables == s.tables
  {
    var t := TimerGoes(s, W.Forget(x), file);
    forall id: nat
      ensures !W.Enabled(t.watcher, W.Fire(id)) && !W.Enabled(t.watcher, W.Act(id))
      ensures !W.Enabled(t.watcher, W.Forget(id))
    {
      if id < |t.watcher.pool| {
        assert id != x ==> Idle(s, id);
      }
    }
    run, moves := [s, t], [Timer(W.Forget(x))];
  }

  lemma FiredRunsOut(s: State, x: nat, file: Key) returns (run: seq<State>, moves: seq<Move>)
    requires WellFormed(s) && OnlyBusy(s, x) && x < |s.watcher.pool| && s.watcher.pool[x].phase == W.Fired
    requires s.events[x] == FileEvent(file, true)
    ensures IsTail(run, moves, file) && run[0] == s
    ensures var t := run[|moves|]; W.Quiet(t.watcher) && SameSetting(s, t) && file !in Keys(t.tables)
  {
    var t := TimerGoes(s, W.Act(x), file);
    ActChangesItsFile(s, s.events[x], t.tables);
    assert forall id: nat | id < |t.watcher.pool| && id != x :: Idle(s, id) ==> Idle(t, id);
    run, moves := ActedRunsOut(t, x, file);
    Prepend(s, Timer(W.Act(x)), run, moves, file);
    run, moves := [s] + run, [Timer(W.Act(x))] + moves;
  }

  lemma RemovalRunsOut(s: State, x: nat, file: Key) returns (run: seq<State>, moves: seq<Move>)
    requires WellFormed(s) && W.AllDue(s.watcher) && OnlyBusy(s, x) && RemovalLeft(s, file, x)
    ensures IsTail(run, moves, file) && run[0] == s
    ensures var t := run[|moves|]; W.Quiet(t.watcher) && SameSetting(s, t) && file !in Keys(t.tables)
  {
    if s.watcher.pool[x].phase == W.Fired {
      run, moves := FiredRunsOut(s, x, file);
    } else {
      var t := TimerGoes(s, W.Fire(x), file);
      assert forall id: nat | id < |t.watcher.pool| && id != x :: Idle(s, id) ==> Idle(t, id);
      run, moves := FiredRunsOut(t, x, file);
      Prepend(s, Timer(W.Fire(x)), run, moves, file);
      run, moves := [s] + run, [Timer(W.Fire(x))] + moves;
    }
  }

  lemma {:induction false} Joined(run1: seq<State>, moves1: seq<Move>, run2: seq<State>, moves2: seq<Move>, file: Key)
    returns (run: seq<State>, moves: seq<Move>)
    requires IsTail(run1, moves1, file) && IsTail(run2, moves2, file) && run1[|moves1|] == run2[0]
    ensures IsTail(run, moves, file) && run[0] == run1[0] && run[|moves|] == run2[|moves2|]
    decreases |moves1|
  {
    if moves1 == [] {
      run, moves := run2, moves2;
    } else {
      assert Later(run1[0], moves1[0], run1[0 + 1], file);
      assert IsTail(run1[1..], moves1[1..], file);
      run, moves := Joined(run1[1..], moves1[1..], run2, moves2, file);
      Prepend(run1[0], moves1[0], run, moves, file);
      run, moves := [run1[0]] + run, [moves1[0]] + moves;
    }
  }

  function LongestDelay(now: int, pool: seq<W.Timer>): (d: nat)
    ensures forall id: nat | id < |pool| :: pool[id].due <= now + d
  {
    if pool == [] then 0
    else
      var d, due := LongestDelay(now, pool[..|pool| - 1]), pool[|pool| - 1].due;
      assert forall id: nat | id < |pool| - 1 :: pool[..|pool| - 1][id] == pool[id];
      if due <= now + d then d else due - now
  }

  /** As long as a removal may still act, it can be the last to do so. */
  lemma RemovalCanActLast(u: State, x: nat, file: Key) returns (run: seq<State>, moves: seq<Move>)
    requires RemovalLeft(u, file, x)
    ensures IsTail(run, moves, file) && run[0] == u
    ensures var t := run[|moves|];
            W.Quiet(t.watcher) && W.AllDue(u.watcher.(now := t.watcher.now)) && t.disk == u.disk
              && file !in Keys(t.tables)
  {
    var d := LongestDelay(u.watcher.now, u.watcher.pool);
    var v := TimerGoes(u, W.Tick(d), file);
    var run1, moves1 := OthersRunOut(v, x, file);
    var run2, moves2 := RemovalRunsOut(run1[|moves1|], x, file);
    run, moves := Joined(run1, moves1, run2, moves2, file);
    Prepend(u, Timer(W.Tick(d)), run, moves, file);
    run, moves := [u] + run, [Timer(W.Tick(d))] + moves;
  }

  // ---------------------------------------------------------------------------
  // In step with the disk
  // ---------------------------------------------------------------------------

  /** A removal of the file that its next event does not stop. */
  ghost predicate StaleRemoval(s: State, file: Key, x: nat) {
    W.Stale(s.watcher, Name(file), x) && x < |s.events| && s.events[x].removed
  }

  /** The watcher is quiet, and has been left long enough since the event at this instant. */
  ghost predicate AtRest(s: State, since: int) {
    W.Quiet(s.watcher) && since + W.DEBOUNCE_DELAY <= s.watcher.now
  }

  lemma StaleIsLeft(s: State, e: FileEvent, u: State, x: nat)
    requires WellFormed(s) && Step(s, Occur(e), u)
    ensures RemovalLeft(u, e.file, x) && x != |s.events| <==> StaleRemoval(s, e.file, x)
  {
    StepStaysWellFormed(s, Occur(e), u);
    if x < |s.events| {
      NamesDiffer(s.events[x].file, e.file);
    }
  }

  lemma RestIsInStep(s: State, e: FileEvent, u: State, run: seq<State>, moves: seq<Move>, n: nat)
    requires WellFormed(s) && Step(s, Occur(e), u) && (e.file in s.disk <==> !e.removed)
    requires IsTail(run, moves, e.file) && run[0] == u && n < |run| && AtRest(run[n], s.watcher.now)
    requires e.removed || forall x: nat :: !StaleRemoval(s, e.file, x)
    ensures InStep(run[n], e.file)
  {
    var id := |s.events|;
    StepStaysWellFormed(s, Occur(e), u);
    forall x: nat | !e.removed ensures !RemovalLeft(u, e.file, x) {
      StaleIsLeft(s, e, u, x);
    }
    TailStaysSettled(run, moves, e, id, n);
    var w := run[n].watcher;
    assert !W.Enabled(w, W.Fire(id)) && !W.Enabled(w, W.Act(id));
  }

  /** Once the watcher is at rest after a file's last event, the file is indexed if and only
      if it is on the disk. This is sure exactly when the event is a removal, or finds no
      earlier removal of the file whose callback is under way or whose timer has lost its
      map entry. */
  lemma InStepAtRestIff(s: State, e: FileEvent, u: State)
    requires WellFormed(s) && Step(s, Occur(e), u) && (e.file in s.disk <==> !e.removed)
    ensures (forall run, moves, n: nat | IsTail(run, moves, e.file) && run[0] == u && n < |run| ::
               AtRest(run[n], s.watcher.now) ==> InStep(run[n], e.file))
            <==> e.removed || forall x: nat :: !StaleRemoval(s, e.file, x)
  {
    if e.removed || forall x: nat :: !StaleRemoval(s, e.file, x) {
      forall run, moves, n: nat | IsTail(run, moves, e.file) && run[0] == u && n < |run|
        ensures AtRest(run[n], s.watcher.now) ==> InStep(run[n], e.file)
      {
        if AtRest(run[n], s.watcher.now) {
          RestIsInStep(s, e, u, run, moves, n);
        }
      }
    } else {
      var x: nat :| StaleRemoval(s, e.file, x);
      StaleIsLeft(s, e, u, x);
      var run, moves := RemovalCanActLast(u, x, e.file);
      assert u.watcher.pool[|s.events|].due == s.watcher.now + W.DEBOUNCE_DELAY;
      assert AtRest(run[|moves|], s.watcher.now) && !InStep(run[|moves|], e.file);
    }
  }

  // ---------------------------------------------------------------------------
  // A file on the disk that the index has lost
  // ---------------------------------------------------------------------------

  const START := State(W.START, [], EMPTY, map[])

  ghost predicate IsPast(run: seq<State>, moves: seq<Move>) {
    && |run| == |moves| + 1 && run[0] == START
    && forall i | 0 <= i < |moves| :: WellFormed(run[i]) && Step(run[i], moves[i], run[i + 1])
  }

  ghost predicate Reachable(s: State) {
    exists run, moves :: IsPast(run, moves) && run[|moves|] == s
  }

  lemma PastGoesOn(run: seq<State>, moves: seq<Move>, m: Move, t: State)
    requires IsPast(run, moves) && WellFormed(run[|moves|]) && Step(run[|moves|], m, t)
    ensures IsPast(run + [t], moves + [m])
  {
  }

  lemma Reaches(s: State, m: Move, t: State)
    requires Reachable(s) && WellFormed(s) && Step(s, m, t)
    ensures Reachable(t) && WellFormed(t)
  {
    var run, moves :| IsPast(run, moves) && run[|moves|] == s;
    PastGoesOn(run, moves, m, t);
    StepStaysWellFormed(s, m, t);
  }

  /** One event, a removal, at the start. */
  function Removing(file: Key, now: int, phase: W.Phase, disk: map<Key, File>): State {
    var timer := W.Timer(Name(file), W.DEBOUNCE_DELAY, phase);
    State(W.State(now, map[Name(file) := 0], [timer], []), [FileEvent(file, true)], EMPTY, disk)
  }

  lemma RemovalComes(file: Key)
    requires IsPath(file)
    ensures Reachable(Removing(file, 0, W.Armed, map[])) && WellFormed(Removing(file, 0, W.Armed, map[]))
  {
    assert IsPast([START], []);
    Reaches(START, Occur(FileEvent(file, true)), Removing(file, 0, W.Armed, map[]));
  }

  lemma RemovalFires(file: Key)
    requires IsPath(file)
    ensures var s := Removing(file, W.DEBOUNCE_DELAY, W.Fired, map[]); Reachable(s) && WellFormed(s)
  {
    var d := W.DEBOUNCE_DELAY;
    RemovalComes(file);
    Reaches(Removing(file, 0, W.Armed, map[]), Timer(W.Tick(d)), Removing(file, d, W.Armed, map[]));
    Reaches(Removing(file, d, W.Armed, map[]), Timer(W.Fire(0)), Removing(file, d, W.Fired, map[]));
  }

  lemma RemovalIsUnderWay(file: Key, f: File) returns (s: State)
    requires IsPath(file)
    ensures Reachable(s) && WellFormed(s) && StaleRemoval(s, file, 0) && s.disk == map[file := f]
  {
    var d := W.DEBOUNCE_DELAY;
    s := Removing(file, d, W.Fired, map[file := f]);
    RemovalFires(file);
    assert (map[] - {file}) + map[file := f] == map[file := f];
    Reaches(Removing(file, d, W.Fired, map[]), Change(file, map[file := f]), s);
  }

  /** A file is removed and, while that event's callback is under way, written again: the
      watcher can come to rest with the file on the disk and not in the index. */
  lemma FileOnDiskIsLost(file: Key, f: File) returns (s: State, u: State, run: seq<State>, moves: seq<Move>)
    requires IsPath(file)
    ensures Reachable(s) && WellFormed(s) && Step(s, Occur(FileEvent(file, false)), u)
    ensures IsTail(run, moves, file) && run[0] == u
    ensures var t := run[|moves|]; AtRest(t, s.watcher.now) && file in t.disk && file !in Keys(t.tables)
  {
    var e := FileEvent(file, false);
    s := RemovalIsUnderWay(file, f);
    u := s.(watcher := W.AfterEvent(s.watcher, Name(file)), events := s.events + [e]);
    StaleIsLeft(s, e, u, 0);
    run, moves := RemovalCanActLast(u, 0, file);
    assert u.watcher.pool[|s.events|].due == s.watcher.now + W.DEBOUNCE_DELAY;
  }
}
