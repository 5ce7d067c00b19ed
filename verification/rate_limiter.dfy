/** The Hardcover client's rate limiter: one lock, one timestamp, any number of callers. */
module RateLimiter {
  import opened Wrappers

  const MILLISECOND := 1_000_000
  const MIN_INTERVAL := 1100 * MILLISECOND
  const MINUTE := 60_000 * MILLISECOND

  // ---------------------------------------------------------------------------
  // throttle
  // ---------------------------------------------------------------------------

  /** Go's monotonic clock, in nanoseconds. */
  class Clock {
    var now: int

    method Read() returns (t: int)
      modifies this
      ensures old(now) <= now && t == now
    {
      var passed :| 0 <= passed;
      now := now + passed;
      return now;
    }

    method Sleep(d: nat)
      modifies this
      ensures old(now) + d <= now
    {
      var over :| 0 <= over;
      now := now + d + over;
    }
  }

  class Client {
    var lastCallTime: Option<int>

    /** The lock is held from here to the return. A zero timestamp is longer ago than any interval. */
    method Throttle(clock: Clock)
      modifies this, clock
      ensures lastCallTime.Some? && old(clock.now) <= lastCallTime.value == clock.now
      ensures old(lastCallTime).Some? ==> old(lastCallTime).value + 1_100_000_000 <= lastCallTime.value
    {
      if lastCallTime.Some? {
        var read := clock.Read();
        var wait := MIN_INTERVAL - (read - lastCallTime.value);
        if wait > 0 {
          clock.Sleep(wait);
        }
      }
      var t := clock.Read();
      lastCallTime := Some(t);
    }
  }

  // ---------------------------------------------------------------------------
  // Concurrent callers
  // ---------------------------------------------------------------------------

  datatype Phase = Outside | Queued | Asleep(until: int) | Awake

  /** exits holds the instants at which calls left throttle. */
  datatype Limiter = Limiter(now: int, last: Option<int>, holder: Option<int>, phase: map<int, Phase>, exits: seq<int>)

  datatype Action = Arrive(caller: int) | Lock(caller: int) | Wake(caller: int) | Leave(caller: int) | Tick

  function PhaseOf(s: Limiter, c: int): Phase {
    if c in s.phase then s.phase[c] else Outside
  }

  predicate Step(s: Limiter, a: Action, t: Limiter) {
    match a
    case Arrive(c) =>
      PhaseOf(s, c) == Outside && t == s.(phase := s.phase[c := Queued])
    case Lock(c) =>
      && PhaseOf(s, c) == Queued && s.holder == None
      && var wait := if s.last.Some? then MIN_INTERVAL - (s.now - s.last.value) else 0;
         t == s.(holder := Some(c), phase := s.phase[c := if wait > 0 then Asleep(s.now + wait) else Awake])
    case Wake(c) =>
      PhaseOf(s, c).Asleep? && PhaseOf(s, c).until <= s.now && t == s.(phase := s.phase[c := Awake])
    case Leave(c) =>
      PhaseOf(s, c) == Awake
        && t == s.(last := Some(s.now), holder := None, phase := s.phase[c := Outside], exits := s.exits + [s.now])
    case Tick =>
      s.now < t.now && t == s.(now := t.now)
  }

  ghost predicate IsRun(run: seq<Limiter>, actions: seq<Action>) {
    && |run| == |actions| + 1
    && run[0] == Limiter(run[0].now, None, None, map[], [])
    && forall i | 0 <= i < |actions| :: Step(run[i], actions[i], run[i + 1])
  }

  predicate SpacedAt(exits: seq<int>, i: nat)
    requires i < |exits|
  {
    i > 0 ==> exits[i - 1] + MIN_INTERVAL <= exits[i]
  }

  predicate Spaced(exits: seq<int>) {
    forall i | 0 <= i < |exits| :: SpacedAt(exits, i)
  }

  /** Only the lock's holder is inside, and once awake it may leave. */
  ghost predicate Inv(s: Limiter) {
    && Spaced(s.exits)
    && s.last == (if s.exits == [] then None else Some(s.exits[|s.exits| - 1]))
    && (s.last.Some? ==> s.last.value <= s.now)
    && (forall c :: PhaseOf(s, c).Asleep? || PhaseOf(s, c).Awake? ==> s.holder == Some(c))
    && (forall c :: PhaseOf(s, c).Asleep? && s.last.Some? ==> s.last.value + MIN_INTERVAL <= PhaseOf(s, c).until)
    && (forall c :: PhaseOf(s, c).Awake? && s.last.Some? ==> s.last.value + MIN_INTERVAL <= s.now)
  }

  lemma StepKeepsInv(s: Limiter, a: Action, t: Limiter)
    requires Inv(s) && Step(s, a, t)
    ensures Inv(t)
  {
    match a
    case Leave(c) =>
      assert PhaseOf(s, c).Awake?;
      assert forall d :: d != c ==> PhaseOf(t, d) == PhaseOf(s, d);
      forall i | 0 <= i < |t.exits| ensures SpacedAt(t.exits, i) {
        if i < |s.exits| {
          assert SpacedAt(s.exits, i);
        }
      }
    case Arrive(c) =>
      assert forall d :: d != c ==> PhaseOf(t, d) == PhaseOf(s, d);
    case Lock(c) =>
      assert forall d :: d != c ==> PhaseOf(t, d) == PhaseOf(s, d);
    case Wake(c) =>
      assert forall d :: d != c ==> PhaseOf(t, d) == PhaseOf(s, d);
    case Tick =>
      assert forall d :: PhaseOf(t, d) == PhaseOf(s, d);
  }

  lemma {:induction false} RunKeepsInv(run: seq<Limiter>, actions: seq<Action>, n: nat)
    requires IsRun(run, actions) && n < |run|
    ensures Inv(run[n])
  {
    if n > 0 {
      RunKeepsInv(run, actions, n - 1);
      StepKeepsInv(run[n - 1], actions[n - 1], run[n - 1 + 1]);
    }
  }

  // ---------------------------------------------------------------------------
  // The rate
  // ---------------------------------------------------------------------------

  function CountIn(exits: seq<int>, from: int, to: int): nat {
    if exits == [] then 0
    else CountIn(exits[..|exits| - 1], from, to) + if from <= exits[|exits| - 1] <= to then 1 else 0
  }

  lemma InitSpaced(exits: seq<int>)
    requires exits != [] && Spaced(exits)
    ensures Spaced(exits[..|exits| - 1])
    ensures |exits| > 1 ==> exits[|exits| - 2] + MIN_INTERVAL <= exits[|exits| - 1]
  {
    var init := exits[..|exits| - 1];
    forall i | 0 <= i < |init| ensures SpacedAt(init, i) {
      assert SpacedAt(exits, i);
    }
    assert SpacedAt(exits, |exits| - 1);
  }

  /** A window's end can be drawn back to the last exit before it. */
  lemma {:induction false} CountUpTo(exits: seq<int>, from: int, to: int, last: int)
    requires Spaced(exits) && (exits != [] ==> exits[|exits| - 1] <= last) && last <= to
    ensures CountIn(exits, from, to) == CountIn(exits, from, last)
    decreases |exits|
  {
    if exits != [] {
      InitSpaced(exits);
      CountUpTo(exits[..|exits| - 1], from, to, last);
    }
  }

  lemma {:induction false} NoneBefore(exits: seq<int>, from: int, to: int)
    requires Spaced(exits) && (exits != [] ==> exits[|exits| - 1] < from)
    ensures CountIn(exits, from, to) == 0
    decreases |exits|
  {
    if exits != [] {
      InitSpaced(exits);
      NoneBefore(exits[..|exits| - 1], from, to);
    }
  }

  lemma {:induction false} WindowHolds(exits: seq<int>, from: int, to: int)
    requires Spaced(exits) && from <= to
    ensures (CountIn(exits, from, to) - 1) * MIN_INTERVAL <= to - from
    decreases |exits|
  {
    if exits != [] {
      var init, last := exits[..|exits| - 1], exits[|exits| - 1];
      InitSpaced(exits);
      if !(from <= last <= to) {
        WindowHolds(init, from, to);
      } else if from <= last - MIN_INTERVAL {
        CountUpTo(init, from, to, last - MIN_INTERVAL);
        WindowHolds(init, from, last - MIN_INTERVAL);
      } else {
        NoneBefore(init, from, to);
      }
    }
  }

  /** In every run, however the callers interleave: consecutive exits are an interval
      apart, and no minute, both ends included, sees more than 55 of them. */
  lemma RateBound(run: seq<Limiter>, actions: seq<Action>, n: nat, from: int)
    requires IsRun(run, actions) && n < |run|
    ensures forall i | 0 < i < |run[n].exits| :: run[n].exits[i] - run[n].exits[i - 1] >= 1_100_000_000
    ensures CountIn(run[n].exits, from, from + 60_000_000_000) <= 55
  {
    forall i | 0 < i < |run[n].exits| ensures run[n].exits[i] - run[n].exits[i - 1] >= 1_100_000_000 {
      RunKeepsInv(run, actions, n);
      assert SpacedAt(run[n].exits, i);
    }
    RunKeepsInv(run, actions, n);
    WindowHolds(run[n].exits, from, from + MINUTE);
  }

  /** Exits back to back. */
  function Busy(n: nat): (exits: seq<int>)
    ensures |exits| == n && forall i | 0 <= i < n :: exits[i] == i * MIN_INTERVAL
  {
    seq(n, i => i * MIN_INTERVAL)
  }

  lemma {:induction false} BusyCount(n: nat)
    requires n <= 55
    ensures CountIn(Busy(n), 0, MINUTE) == n
  {
    if n > 0 {
      BusyCount(n - 1);
      assert Busy(n)[..n - 1] == Busy(n - 1);
    }
  }

  /** The bound is met: the interval allows 55 exits in a minute. */
  lemma BoundIsMet()
    ensures Spaced(Busy(55)) && CountIn(Busy(55), 0, 60_000_000_000) == 55
  {
    BusyCount(55);
    forall i | 0 <= i < 55 ensures SpacedAt(Busy(55), i) {
    }
  }
}
