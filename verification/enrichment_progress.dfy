/** Progress and precedence of the enrichment queue. */
module EnrichmentProgress {
  import opened Wrappers
  import opened Enrichment
  import opened EnrichmentQueue

  // ---------------------------------------------------------------------------
  // One candidate
  // ---------------------------------------------------------------------------

  /** A step that leaves what a pending book shows as it was, or gives it a status. */
  predicate SettlesOrSpares(s: State, t: State, id: int) {
    && (id in t.books ==> id in s.books && t.books[id] == s.books[id])
    && (|| StatusOf(t, id) != ""
        || (StatusOf(s, id) == ""
            && (id in t.books ==>
                  Shown(t.books[id].epub, LayerOf(t, id)) == Shown(t.books[id].epub, LayerOf(s, id)))))
  }

  lemma MarkSpares(s: State, id: int, column: Column, status: string, w: World, x: int)
    requires column.Status? ==> status != ""
    ensures SettlesOrSpares(s, Marked(s, id, column, status, w), x)
    ensures id == x && column.Status? ==> StatusOf(Marked(s, id, column, status, w), x) != ""
    ensures x in s.books ==> x in Marked(s, id, column, status, w).books
  {
  }

  lemma AppliedSpares(s: State, id: int, patch: Patch, source: Source, w: World, x: int)
    requires id in s.books
    ensures SettlesOrSpares(s, After(s, Apply(id, patch, source), w.fold), x)
    ensures id == x ==> StatusOf(After(s, Apply(id, patch, source), w.fold), x) != ""
  {
  }

  lemma MergeSpares(s: State, id: int, patch: Patch, w: World, x: int)
    ensures SettlesOrSpares(s, DuplicateMerged(s, id, patch, w), x)
    ensures StatusOf(DuplicateMerged(s, id, patch, w), x) == StatusOf(s, x)
  {
  }

  lemma ChaptarrSpares(s: State, id: int, patch: Patch, w: World, x: int)
    ensures SettlesOrSpares(s, ChaptarrApplied(s, id, patch, w), x)
    ensures id == x && x in s.books ==> StatusOf(ChaptarrApplied(s, id, patch, w), x) != ""
  {
    if id in s.books {
      var t := After(s, Apply(id, patch, Chaptarr), w.fold);
      AppliedSpares(s, id, patch, Chaptarr, w, x);
      MergeSpares(t, id, patch, w, x);
    }
  }

  lemma HardcoverSpares(s: State, id: int, patch: Patch, w: World, x: int)
    ensures SettlesOrSpares(s, HardcoverApplied(s, id, patch, w), x)
    ensures id == x ==> StatusOf(HardcoverApplied(s, id, patch, w), x) != ""
  {
    if id in s.books {
      var t := After(s, Apply(id, patch, Hardcover), w.fold);
      AppliedSpares(s, id, patch, Hardcover, w, x);
      MarkSpares(t, id, Status, "done", w, x);
      MergeSpares(Marked(t, id, Status, "done", w), id, patch, w, x);
    } else {
      MarkSpares(s, id, Status, "error", w, x);
    }
  }

  lemma AnswerSpares(s: State, c: Candidate, w: World, x: int)
    ensures SettlesOrSpares(s, HardcoverAnswered(s, c, w), x)
    ensures c.id == x ==> StatusOf(HardcoverAnswered(s, c, w), x) != ""
    ensures StatusOf(s, x) != "" ==> StatusOf(HardcoverAnswered(s, c, w), x) != ""
  {
    match w.search(c)
    case Failed =>
      var t := Marked(s, c.id, Status, "error", w);
      MarkSpares(s, c.id, Status, "error", w, x);
      MarkSpares(t, c.id, HardcoverStatus, "error", w, x);
    case Unmatched =>
      var t := Marked(s, c.id, Status, "no_match", w);
      MarkSpares(s, c.id, Status, "no_match", w, x);
      MarkSpares(t, c.id, HardcoverStatus, "no_match", w, x);
    case Found(patch) =>
      HardcoverSpares(s, c.id, patch, w, x);
  }

  lemma ChaptarrKeepsStatus(s: State, id: int, patch: Patch, w: World, x: int)
    requires StatusOf(s, x) != ""
    ensures StatusOf(ChaptarrApplied(s, id, patch, w), x) != ""
  {
  }

  lemma StatusStays(s: State, c: Candidate, w: World, x: int)
    requires StatusOf(s, x) != ""
    ensures StatusOf(Handled(s, c, w), x) != ""
  {
    if !Deferred(c, w) {
      if ChaptarrMatch(c, w).Some? {
        ChaptarrKeepsStatus(s, c.id, ChaptarrMatch(c, w).value, w, x);
      } else {
        var t := if w.chaptarr && w.haveBooks then Marked(s, c.id, ChaptarrStatus, "no_match", w) else s;
        assert StatusOf(t, x) != "";
        if w.hardcover {
          AnswerSpares(t, c, w, x);
        }
      }
    }
  }

  lemma HandledSpares(s: State, c: Candidate, w: World, x: int)
    ensures SettlesOrSpares(s, Handled(s, c, w), x)
    ensures c.id == x && x in s.books && Works(c, w) ==> StatusOf(Handled(s, c, w), x) != ""
    ensures !Works(c, w) ==>
      Handled(s, c, w).books == s.books && (StatusOf(s, x) == "" ==> StatusOf(Handled(s, c, w), x) == "")
  {
    if !Deferred(c, w) {
      if ChaptarrMatch(c, w).Some? {
        ChaptarrSpares(s, c.id, ChaptarrMatch(c, w).value, w, x);
      } else {
        var t := if w.chaptarr && w.haveBooks then Marked(s, c.id, ChaptarrStatus, "no_match", w) else s;
        MarkSpares(s, c.id, ChaptarrStatus, "no_match", w, x);
        if w.hardcover {
          AnswerSpares(t, c, w, x);
        }
      }
    }
  }

  /** Handling a candidate adds no pending book; a candidate it works on leaves. */
  lemma HandledShrinksPending(s: State, c: Candidate, w: World)
    ensures Pending(Handled(s, c, w)) <= Pending(s)
    ensures Works(c, w) ==> c.id !in Pending(Handled(s, c, w))
    ensures !Works(c, w) ==> Pending(Handled(s, c, w)) == Pending(s)
  {
    var t := Handled(s, c, w);
    forall x
      ensures x in Pending(t) ==> x in Pending(s) && !(Works(c, w) && x == c.id)
      ensures !Works(c, w) && x in Pending(s) ==> x in Pending(t)
    {
      HandledSpares(s, c, w, x);
    }
  }

  // ---------------------------------------------------------------------------
  // One round
  // ---------------------------------------------------------------------------

  /** No round adds a pending book, every candidate worked on leaves, and a round that
      works on none leaves the pending set as it is. */
  lemma {:induction false} RoundShrinksPending(s: State, batch: seq<Candidate>, w: World)
    ensures Pending(HandledAll(s, batch, w)) <= Pending(s)
    ensures forall c | c in batch && Works(c, w) :: c.id !in Pending(HandledAll(s, batch, w))
    ensures (forall c | c in batch :: !Works(c, w)) ==> Pending(HandledAll(s, batch, w)) == Pending(s)
    decreases |batch|
  {
    if batch != [] {
      var init, last := batch[..|batch| - 1], batch[|batch| - 1];
      RoundShrinksPending(s, init, w);
      HandledShrinksPending(HandledAll(s, init, w), last, w);
      forall c | c in batch ensures c in init || c == last {
        var i :| 0 <= i < |batch| && batch[i] == c;
        assert i < |init| ==> init[i] == c;
      }
    }
  }

  /** The pending count is a measure for the queue's loop: a round makes it smaller
      exactly when it processed something, which is when it does not sleep. */
  lemma RoundProgressIff(s: State, batch: seq<Candidate>, w: World)
    requires IsBatch(s, BATCH_SIZE, batch)
    ensures var after := Pending(HandledAll(s, batch, w));
            after < Pending(s) <==> exists c :: c in batch && Works(c, w)
  {
    RoundShrinksPending(s, batch, w);
    if c :| c in batch && Works(c, w) {
      assert c.id in Pending(s);
    }
  }

  // ---------------------------------------------------------------------------
  // Draining
  // ---------------------------------------------------------------------------

  predicate Ascending(batch: seq<Candidate>) {
    forall i, j | 0 <= i < j < |batch| :: batch[i].id < batch[j].id
  }

  lemma {:induction false} IdsCount(batch: seq<Candidate>)
    requires Ascending(batch)
    ensures |Ids(batch)| == |batch|
    decreases |batch|
  {
    if batch != [] {
      var init, last := batch[..|batch| - 1], batch[|batch| - 1];
      IdsCount(init);
      assert batch == init + [last];
      assert Ids(batch) == Ids(init) + {last.id};
      assert last.id !in Ids(init);
    }
  }

  /** What one round of the queue's loop does. */
  ghost predicate IsRound(s: State, batch: seq<Candidate>, w: World, now: int, t: State) {
    IsBatch(s, BATCH_SIZE, batch) && t == if Runs(w, now) then HandledAll(s, batch, w) else s
  }

  /** Rounds one after the other, while nothing else changes the tables or the world. */
  ghost predicate AreRounds(states: seq<State>, batches: seq<seq<Candidate>>, nows: seq<int>, w: World) {
    && |states| == |batches| + 1 && |nows| == |batches|
    && forall i | 0 <= i < |batches| :: IsRound(states[i], batches[i], w, nows[i], states[i + 1])
  }

  /** A round with Hardcover enabled and, with Chaptarr too, a fresh snapshot that is newer
      than the candidates. */
  ghost predicate OpenRound(s: State, t: State) {
    exists batch, w, now ::
      IsRound(s, batch, w, now, t) && w.hardcover && Runs(w, now) && forall c | c in batch :: !Deferred(c, w)
  }

  function Minus(n: nat, k: nat): nat {
    if n < k then 0 else n - k
  }

  lemma BatchCounts(s: State, batch: seq<Candidate>)
    requires IsBatch(s, BATCH_SIZE, batch)
    ensures Ids(batch) <= Pending(s)
    ensures |Pending(s) - Ids(batch)| == Minus(|Pending(s)|, BATCH_SIZE)
  {
    IdsCount(batch);
    forall id | id in Ids(batch) ensures id in Pending(s) {
      var c :| c in batch && c.id == id;
    }
    assert Pending(s) == Ids(batch) + (Pending(s) - Ids(batch));
    if |batch| < BATCH_SIZE {
      assert Pending(s) - Ids(batch) == {};
    }
  }

  lemma WorkedBatchLeaves(s: State, batch: seq<Candidate>, w: World)
    requires forall c | c in batch :: Works(c, w)
    ensures Pending(HandledAll(s, batch, w)) <= Pending(s) - Ids(batch)
  {
    RoundShrinksPending(s, batch, w);
  }

  lemma OpenRoundDrains(s: State, t: State)
    requires OpenRound(s, t)
    ensures |Pending(t)| <= Minus(|Pending(s)|, 200)
  {
    var batch, w, now :|
      IsRound(s, batch, w, now, t) && w.hardcover && Runs(w, now) && forall c | c in batch :: !Deferred(c, w);
    WorkedBatchLeaves(s, batch, w);
    BatchCounts(s, batch);
    SubsetSize(Pending(t), Pending(s) - Ids(batch));
  }

  lemma MinusAgain(first: nat, last: nat, next: nat, k: nat)
    requires last <= Minus(first, k * 200) && next <= Minus(last, 200)
    ensures next <= Minus(first, (k + 1) * 200)
  {
  }

  /** With Hardcover enabled and no candidate waiting for a snapshot, k rounds take
      k * 200 books off the pending set or empty it. */
  lemma {:induction false} RoundsDrain(states: seq<State>, k: nat)
    requires k < |states|
    requires forall i | 0 <= i < |states| - 1 :: OpenRound(states[i], states[i + 1])
    ensures |Pending(states[k])| <= Minus(|Pending(states[0])|, k * 200)
  {
    if k > 0 {
      RoundsDrain(states, k - 1);
      var first, last, next := |Pending(states[0])|, |Pending(states[k - 1])|, |Pending(states[k])|;
      assert OpenRound(states[k - 1], states[k - 1 + 1]);
      OpenRoundDrains(states[k - 1], states[k]);
      MinusAgain(first, last, next, k - 1);
    }
  }

  // ---------------------------------------------------------------------------
  // Precedence
  // ---------------------------------------------------------------------------

  function HardcoverStatusOf(s: State, id: int): (string, string) {
    if id in s.layers then (s.layers[id].hardcoverStatus, s.layers[id].source) else ("", "")
  }

  predicate MarkedByHardcover(s: State, t: State, id: int) {
    || (id in t.layers && t.layers[id].source == "hardcover" && !(id in s.layers && s.layers[id].source == "hardcover"))
    || HardcoverStatusOf(t, id).0 != HardcoverStatusOf(s, id).0
  }

  lemma ChaptarrLeavesNoMark(s: State, x: int, patch: Patch, w: World, id: int)
    ensures !MarkedByHardcover(s, ChaptarrApplied(s, x, patch, w), id)
  {
  }

  lemma AnswerMarksItsBook(s: State, c: Candidate, w: World, id: int)
    ensures MarkedByHardcover(s, HardcoverAnswered(s, c, w), id) ==> c.id == id
  {
  }

  lemma HandledPrecedence(s: State, c: Candidate, w: World, id: int)
    requires MarkedByHardcover(s, Handled(s, c, w), id)
    ensures c.id == id && Yielded(c, w)
  {
    if !Deferred(c, w) {
      if ChaptarrMatch(c, w).Some? {
        ChaptarrLeavesNoMark(s, c.id, ChaptarrMatch(c, w).value, w, id);
      } else {
        var t := if w.chaptarr && w.haveBooks then Marked(s, c.id, ChaptarrStatus, "no_match", w) else s;
        assert !MarkedByHardcover(s, t, id);
        if w.hardcover {
          AnswerMarksItsBook(t, c, w, id);
        }
      }
    }
  }

  /** Hardcover leaves its mark on a book only if Chaptarr has yielded it. */
  lemma {:induction false} HardcoverOnlyMarksYielded(s: State, batch: seq<Candidate>, w: World, id: int)
    requires MarkedByHardcover(s, HandledAll(s, batch, w), id)
    ensures exists c :: c in batch && c.id == id && Yielded(c, w)
    decreases |batch|
  {
    if batch != [] {
      var init, last := batch[..|batch| - 1], batch[|batch| - 1];
      var t := HandledAll(s, init, w);
      if MarkedByHardcover(s, t, id) {
        HardcoverOnlyMarksYielded(s, init, w, id);
        var c :| c in init && c.id == id && Yielded(c, w);
        assert c in batch;
      } else {
        HandledPrecedence(t, last, w, id);
        assert last in batch;
      }
    }
  }

  // ---------------------------------------------------------------------------
  // Once between resets
  // ---------------------------------------------------------------------------

  /** The queue between two candidates of a batch, while everyone else goes on writing. */
  datatype Queue = Queue(s: State, rest: seq<Candidate>)

  datatype Move =
    | List(batch: seq<Candidate>)
    | Handle(world: World)
    | Other(event: Event, fold: char -> char)
    | Add(id: int, book: Book)
    | Reset

  predicate QueueStep(q: Queue, m: Move, r: Queue) {
    match m
    case List(batch) => q.rest == [] && IsBatch(q.s, BATCH_SIZE, batch) && r == Queue(q.s, batch)
    case Handle(w) => q.rest != [] && r == Queue(Handled(q.s, q.rest[0], w), q.rest[1..])
    case Other(ev, fold) =>
      && (ev.SetStatus? && ev.column.Status? ==> ev.status != "")
      && r == Queue(After(q.s, ev, fold), q.rest)
    case Add(id, book) => id !in q.s.books && r == q.(s := q.s.(books := q.s.books[id := book]))
    case Reset => r == q.(s := q.s.(layers := map[]))
  }

  predicate Enriches(q: Queue, m: Move, id: int) {
    m.Handle? && q.rest != [] && q.rest[0].id == id && id in q.s.books && Works(q.rest[0], m.world)
  }

  ghost predicate IsQueueRun(qs: seq<Queue>, ms: seq<Move>) {
    && |qs| == |ms| + 1
    && qs[0].rest == []
    && forall i | 0 <= i < |ms| :: QueueStep(qs[i], ms[i], qs[i + 1])
  }

  predicate Settled(q: Queue, id: int) {
    StatusOf(q.s, id) != "" && id !in Ids(q.rest)
  }

  lemma EventKeepsStatus(s: State, ev: Event, fold: char -> char, id: int)
    requires StatusOf(s, id) != ""
    requires ev.SetStatus? && ev.column.Status? ==> ev.status != ""
    ensures StatusOf(After(s, ev, fold), id) != ""
  {
  }

  lemma TailIds(rest: seq<Candidate>)
    requires rest != []
    ensures Ids(rest[1..]) <= Ids(rest)
    ensures Ascending(rest) ==> Ascending(rest[1..]) && rest[0].id !in Ids(rest[1..])
  {
  }

  lemma StepStaysAscending(q: Queue, m: Move, r: Queue)
    requires Ascending(q.rest) && QueueStep(q, m, r)
    ensures Ascending(r.rest)
  {
  }

  lemma StepStaysSettled(q: Queue, m: Move, r: Queue, id: int)
    requires Settled(q, id) && QueueStep(q, m, r) && !m.Reset?
    ensures Settled(r, id)
  {
    match m
    case List(batch) =>
      forall c | c in batch ensures c.id != id {
        assert c.id in Pending(q.s);
      }
    case Handle(w) =>
      TailIds(q.rest);
      StatusStays(q.s, q.rest[0], w, id);
    case Other(ev, fold) => EventKeepsStatus(q.s, ev, fold, id);
    case Add(_, _) =>
  }

  lemma EnrichedIsSettled(q: Queue, m: Move, r: Queue, id: int)
    requires Ascending(q.rest) && QueueStep(q, m, r) && Enriches(q, m, id)
    ensures Settled(r, id)
  {
    TailIds(q.rest);
    HandledSpares(q.s, q.rest[0], m.world, id);
  }

  lemma EnrichesUnsettled(q: Queue, m: Move, id: int)
    requires Enriches(q, m, id)
    ensures !Settled(q, id)
  {
  }

  lemma {:induction false} RunStaysAscending(qs: seq<Queue>, ms: seq<Move>, n: nat)
    requires IsQueueRun(qs, ms) && n < |qs|
    ensures Ascending(qs[n].rest)
  {
    if n > 0 {
      RunStaysAscending(qs, ms, n - 1);
      StepStaysAscending(qs[n - 1], ms[n - 1], qs[n - 1 + 1]);
    }
  }

  lemma {:induction false} SettledUntilReset(qs: seq<Queue>, ms: seq<Move>, id: int, i: nat, j: nat)
    requires IsQueueRun(qs, ms) && i < j < |qs|
    requires Enriches(qs[i], ms[i], id)
    requires forall k | i < k < j :: !ms[k].Reset?
    ensures Settled(qs[j], id)
    decreases j
  {
    if j == i + 1 {
      RunStaysAscending(qs, ms, i);
      EnrichedIsSettled(qs[i], ms[i], qs[i + 1], id);
    } else {
      SettledUntilReset(qs, ms, id, i, j - 1);
      StepStaysSettled(qs[j - 1], ms[j - 1], qs[j - 1 + 1], id);
    }
  }

  /** However scans, edits and the queue interleave, the queue works on no book twice
      unless the enrichment data is reset in between. */
  lemma EnrichedOnceBetweenResets(qs: seq<Queue>, ms: seq<Move>, id: int, i: nat, j: nat)
    requires IsQueueRun(qs, ms) && i < j < |ms|
    requires Enriches(qs[i], ms[i], id) && Enriches(qs[j], ms[j], id)
    ensures exists k :: i < k < j && ms[k].Reset?
  {
    if forall k | i < k < j :: !ms[k].Reset? {
      SettledUntilReset(qs, ms, id, i, j);
      EnrichesUnsettled(qs[j], ms[j], id);
    }
  }
}
