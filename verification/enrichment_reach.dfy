/** Which pending books the enrichment queue reaches. A batch holds the lowest ids, and a
    book that no integration works on stays in it, so such books can block the queue. */
module EnrichmentReach {
  import opened Wrappers
  import opened Enrichment
  import opened EnrichmentQueue
  import opened EnrichmentProgress

  // ---------------------------------------------------------------------------
  // A row with an ISBN is settled
  // ---------------------------------------------------------------------------

  predicate HasIsbn(s: State, id: int) {
    id in s.layers && Text(s.layers[id].isbn) != ""
  }

  /** Whatever writes an ISBN also writes a status. */
  ghost predicate IsbnsAreSettled(s: State) {
    forall id | HasIsbn(s, id) :: StatusOf(s, id) != ""
  }

  lemma EventKeepsIsbnsSettled(s: State, ev: Event, fold: char -> char)
    requires IsbnsAreSettled(s) && (ev.SetStatus? && ev.column.Status? ==> ev.status != "")
    ensures IsbnsAreSettled(After(s, ev, fold))
  {
    forall id | HasIsbn(After(s, ev, fold), id) ensures StatusOf(After(s, ev, fold), id) != "" {
      if ev.SetStatus? && ev.id == id {
        assert HasIsbn(s, id);
      } else if id in s.layers && After(s, ev, fold).layers[id] == s.layers[id] {
        assert HasIsbn(s, id);
      }
    }
  }

  lemma MarkKeepsIsbnsSettled(s: State, id: int, column: Column, status: string, w: World)
    requires IsbnsAreSettled(s) && status != ""
    ensures IsbnsAreSettled(Marked(s, id, column, status, w))
  {
    EventKeepsIsbnsSettled(s, SetStatus(id, column, status), w.fold);
  }

  lemma DropKeepsIsbnsSettled(s: State, id: int, patch: Patch, w: World)
    requires IsbnsAreSettled(s)
    ensures IsbnsAreSettled(DuplicateMerged(s, id, patch, w))
  {
    var t := DuplicateMerged(s, id, patch, w);
    forall x | HasIsbn(t, x) ensures StatusOf(t, x) != "" {
      assert HasIsbn(s, x);
    }
  }

  lemma AnswerKeepsIsbnsSettled(s: State, c: Candidate, w: World)
    requires IsbnsAreSettled(s)
    ensures IsbnsAreSettled(HardcoverAnswered(s, c, w))
  {
    match w.search(c)
    case Failed =>
      MarkKeepsIsbnsSettled(s, c.id, Status, "error", w);
      MarkKeepsIsbnsSettled(Marked(s, c.id, Status, "error", w), c.id, HardcoverStatus, "error", w);
    case Unmatched =>
      MarkKeepsIsbnsSettled(s, c.id, Status, "no_match", w);
      MarkKeepsIsbnsSettled(Marked(s, c.id, Status, "no_match", w), c.id, HardcoverStatus, "no_match", w);
    case Found(patch) =>
      if c.id in s.books {
        var t := After(s, Apply(c.id, patch, Hardcover), w.fold);
        EventKeepsIsbnsSettled(s, Apply(c.id, patch, Hardcover), w.fold);
        MarkKeepsIsbnsSettled(t, c.id, Status, "done", w);
        DropKeepsIsbnsSettled(Marked(t, c.id, Status, "done", w), c.id, patch, w);
      } else {
        MarkKeepsIsbnsSettled(s, c.id, Status, "error", w);
      }
  }

  lemma HandlingKeepsIsbnsSettled(s: State, c: Candidate, w: World)
    requires IsbnsAreSettled(s)
    ensures IsbnsAreSettled(Handled(s, c, w))
  {
    if !Deferred(c, w) {
      if ChaptarrMatch(c, w).Some? {
        var patch := ChaptarrMatch(c, w).value;
        if c.id in s.books {
          EventKeepsIsbnsSettled(s, Apply(c.id, patch, Chaptarr), w.fold);
          DropKeepsIsbnsSettled(After(s, Apply(c.id, patch, Chaptarr), w.fold), c.id, patch, w);
        }
      } else {
        MarkKeepsIsbnsSettled(s, c.id, ChaptarrStatus, "no_match", w);
        var t := if w.chaptarr && w.haveBooks then Marked(s, c.id, ChaptarrStatus, "no_match", w) else s;
        AnswerKeepsIsbnsSettled(t, c, w);
      }
    }
  }

  /** However scans, edits, resets and the queue interleave, a row with an ISBN has a status. */
  lemma {:induction false} IsbnsStaySettled(qs: seq<Queue>, ms: seq<Move>, n: nat)
    requires IsQueueRun(qs, ms) && IsbnsAreSettled(qs[0].s) && n < |qs|
    ensures IsbnsAreSettled(qs[n].s)
  {
    if n > 0 {
      IsbnsStaySettled(qs, ms, n - 1);
      assert QueueStep(qs[n - 1], ms[n - 1], qs[n - 1 + 1]);
      match ms[n - 1]
      case List(_) =>
      case Handle(w) => HandlingKeepsIsbnsSettled(qs[n - 1].s, qs[n - 1].rest[0], w);
      case Other(ev, fold) => EventKeepsIsbnsSettled(qs[n - 1].s, ev, fold);
      case Add(id, book) =>
        forall x | HasIsbn(qs[n].s, x) ensures StatusOf(qs[n].s, x) != "" {
          assert HasIsbn(qs[n - 1].s, x);
        }
      case Reset =>
    }
  }

  // ---------------------------------------------------------------------------
  // What a round leaves alone
  // ---------------------------------------------------------------------------

  /** A merge of duplicate ISBNs drops a book whose row has an ISBN. */
  ghost predicate DropsDuplicates(w: World) {
    forall s, id :: w.dropped(s, id).Some? ==> HasIsbn(s, w.dropped(s, id).value)
  }

  lemma MergeSparesPending(s: State, id: int, patch: Patch, w: World, x: int)
    requires DropsDuplicates(w) && IsbnsAreSettled(s) && x in s.books && StatusOf(s, x) == ""
    ensures x in DuplicateMerged(s, id, patch, w).books && StatusOf(DuplicateMerged(s, id, patch, w), x) == ""
  {
    if w.dropped(s, id).Some? {
      assert HasIsbn(s, w.dropped(s, id).value);
    }
  }

  lemma MarkSparesOthers(s: State, id: int, column: Column, status: string, w: World, x: int)
    requires x in s.books && StatusOf(s, x) == "" && x != id
    ensures x in Marked(s, id, column, status, w).books && StatusOf(Marked(s, id, column, status, w), x) == ""
  {
  }

  lemma ApplySparesOthers(s: State, id: int, patch: Patch, source: Source, w: World, x: int)
    requires IsbnsAreSettled(s) && x in s.books && StatusOf(s, x) == "" && x != id
    ensures var t := After(s, Apply(id, patch, source), w.fold);
            IsbnsAreSettled(t) && x in t.books && StatusOf(t, x) == ""
  {
    EventKeepsIsbnsSettled(s, Apply(id, patch, source), w.fold);
  }

  lemma AnswerSparesOthers(s: State, c: Candidate, w: World, x: int)
    requires DropsDuplicates(w) && IsbnsAreSettled(s) && x in s.books && StatusOf(s, x) == "" && x != c.id
    ensures x in HardcoverAnswered(s, c, w).books && StatusOf(HardcoverAnswered(s, c, w), x) == ""
  {
    if w.search(c).Found? && c.id in s.books {
      var patch := w.search(c).patch;
      var t := After(s, Apply(c.id, patch, Hardcover), w.fold);
      ApplySparesOthers(s, c.id, patch, Hardcover, w, x);
      MarkKeepsIsbnsSettled(t, c.id, Status, "done", w);
      MarkSparesOthers(t, c.id, Status, "done", w, x);
      MergeSparesPending(Marked(t, c.id, Status, "done", w), c.id, patch, w, x);
    }
  }

  lemma HandlingSparesOthers(s: State, c: Candidate, w: World, x: int)
    requires DropsDuplicates(w) && IsbnsAreSettled(s) && x in s.books && StatusOf(s, x) == "" && x != c.id
    ensures x in Handled(s, c, w).books && StatusOf(Handled(s, c, w), x) == ""
  {
    if !Deferred(c, w) {
      if ChaptarrMatch(c, w).Some? {
        var patch := ChaptarrMatch(c, w).value;
        if c.id in s.books {
          ApplySparesOthers(s, c.id, patch, Chaptarr, w, x);
          MergeSparesPending(After(s, Apply(c.id, patch, Chaptarr), w.fold), c.id, patch, w, x);
        }
      } else {
        var t := if w.chaptarr && w.haveBooks then Marked(s, c.id, ChaptarrStatus, "no_match", w) else s;
        MarkSparesOthers(s, c.id, ChaptarrStatus, "no_match", w, x);
        MarkKeepsIsbnsSettled(s, c.id, ChaptarrStatus, "no_match", w);
        AnswerSparesOthers(t, c, w, x);
      }
    }
  }

  /** Handling a candidate leaves every other pending book pending, and the candidate too
      if nothing works on it. */
  lemma HandlingKeepsPending(s: State, c: Candidate, w: World, x: int)
    requires DropsDuplicates(w) && IsbnsAreSettled(s) && x in Pending(s)
    requires x == c.id ==> !Works(c, w)
    ensures x in Pending(Handled(s, c, w))
  {
    if x != c.id {
      HandlingSparesOthers(s, c, w, x);
    }
    HandledSpares(s, c, w, x);
  }

  lemma {:induction false} RoundKeepsPending(s: State, batch: seq<Candidate>, w: World, x: int)
    requires DropsDuplicates(w) && IsbnsAreSettled(s) && x in Pending(s)
    requires forall c | c in batch && c.id == x :: !Works(c, w)
    ensures IsbnsAreSettled(HandledAll(s, batch, w)) && x in Pending(HandledAll(s, batch, w))
    decreases |batch|
  {
    if batch != [] {
      var init, last := batch[..|batch| - 1], batch[|batch| - 1];
      RoundKeepsPending(s, init, w, x);
      HandlingKeepsIsbnsSettled(HandledAll(s, init, w), last, w);
      HandlingKeepsPending(HandledAll(s, init, w), last, w, x);
    }
  }

  lemma {:induction false} RoundKeepsRows(s: State, batch: seq<Candidate>, w: World, x: int)
    requires x in HandledAll(s, batch, w).books
    ensures x in s.books && HandledAll(s, batch, w).books[x] == s.books[x]
    decreases |batch|
  {
    if batch != [] {
      var init, last := batch[..|batch| - 1], batch[|batch| - 1];
      HandledSpares(HandledAll(s, init, w), last, w, x);
      RoundKeepsRows(s, init, w, x);
    }
  }

  // ---------------------------------------------------------------------------
  // Blocked and ready books
  // ---------------------------------------------------------------------------

  /** A pending book that the queue would work on if it came to it. */
  predicate Ready(s: State, w: World, id: int) {
    id in Pending(s) && Works(CandidateOf(s, id), w)
  }

  /** A pending book that no enabled integration works on. */
  predicate Stuck(s: State, w: World, id: int) {
    id in Pending(s) && !Works(CandidateOf(s, id), w)
  }

  function Blocking(s: State, w: World, id: int): set<int> {
    set x | x in Pending(s) && x < id && Stuck(s, w, x)
  }

  function Ahead(s: State, w: World, id: int): set<int> {
    set x | x in Pending(s) && x <= id && Ready(s, w, x)
  }

  lemma KeptBook(s: State, batch: seq<Candidate>, w: World, x: int)
    requires IsBatch(s, BATCH_SIZE, batch) && DropsDuplicates(w) && IsbnsAreSettled(s)
    ensures var t := HandledAll(s, batch, w);
            && (Stuck(t, w, x) <==> Stuck(s, w, x))
            && (Ready(t, w, x) <==> Ready(s, w, x) && x !in Ids(batch))
  {
    var t := HandledAll(s, batch, w);
    RoundShrinksPending(s, batch, w);
    if x in t.books {
      RoundKeepsRows(s, batch, w, x);
      assert x in s.books ==> CandidateOf(t, x) == CandidateOf(s, x);
    }
    if x in Pending(s) && (x in Ids(batch) ==> Stuck(s, w, x)) {
      RoundKeepsPending(s, batch, w, x);
    }
  }

  lemma RoundKeepsBlocking(s: State, batch: seq<Candidate>, w: World, id: int)
    requires IsBatch(s, BATCH_SIZE, batch) && DropsDuplicates(w) && IsbnsAreSettled(s)
    ensures Blocking(HandledAll(s, batch, w), w, id) == Blocking(s, w, id)
    ensures Ahead(HandledAll(s, batch, w), w, id) == Ahead(s, w, id) - Ids(batch)
  {
    var t := HandledAll(s, batch, w);
    forall x
      ensures Stuck(t, w, x) <==> Stuck(s, w, x)
      ensures Ready(t, w, x) <==> Ready(s, w, x) && x !in Ids(batch)
    {
      KeptBook(s, batch, w, x);
    }
  }

  lemma RoundKeepsIsbnsSettled(s: State, batch: seq<Candidate>, w: World)
    requires IsbnsAreSettled(s)
    ensures IsbnsAreSettled(HandledAll(s, batch, w))
    decreases |batch|
  {
    if batch != [] {
      RoundKeepsIsbnsSettled(s, batch[..|batch| - 1], w);
      HandlingKeepsIsbnsSettled(HandledAll(s, batch[..|batch| - 1], w), batch[|batch| - 1], w);
    }
  }

  /** A batch that passes over id is full of books with lower ids. */
  lemma PassedOver(s: State, batch: seq<Candidate>, w: World, id: int)
    requires IsBatch(s, BATCH_SIZE, batch) && id in Pending(s) && id !in Ids(batch)
    ensures |Ids(batch)| == BATCH_SIZE && Ids(batch) <= Ahead(s, w, id) + Blocking(s, w, id)
  {
    IdsCount(batch);
    forall x | x in Ids(batch) ensures x in Ahead(s, w, id) + Blocking(s, w, id) {
      var c :| c in batch && c.id == x;
    }
  }

  lemma RestOf(ahead: set<int>, blocking: set<int>, ids: set<int>)
    requires ids <= ahead + blocking
    ensures |ahead - ids| <= |ahead| + |blocking| - |ids|
  {
    assert ahead == (ahead - ids) + ahead * ids;
    assert ids == ahead * ids + (ids - ahead);
    SubsetSize(ids - ahead, blocking);
  }

  /** A round that passes over id takes at least this many ready books from ahead of it. */
  lemma PassingRoundShrinksAhead(s: State, batch: seq<Candidate>, w: World, id: int)
    requires IsBatch(s, BATCH_SIZE, batch) && DropsDuplicates(w) && IsbnsAreSettled(s)
    requires id in Pending(s) && id !in Ids(batch)
    ensures |Ahead(HandledAll(s, batch, w), w, id)| <= |Ahead(s, w, id)| + |Blocking(s, w, id)| - BATCH_SIZE
  {
    PassedOver(s, batch, w, id);
    RestOf(Ahead(s, w, id), Blocking(s, w, id), Ids(batch));
    RoundKeepsBlocking(s, batch, w, id);
  }

  /** No batch has room for 200 stuck books and one behind them. */
  lemma BlockedIsPassedOver(s: State, batch: seq<Candidate>, w: World, id: int)
    requires IsBatch(s, BATCH_SIZE, batch) && |Blocking(s, w, id)| >= BATCH_SIZE
    ensures id !in Ids(batch)
  {
    if id in Ids(batch) {
      var c :| c in batch && c.id == id;
      forall x | x in Blocking(s, w, id) ensures x in Ids(batch) {
      }
      IdsCount(batch);
      SubsetSize(Blocking(s, w, id) + {id}, Ids(batch));
    }
  }

  // ---------------------------------------------------------------------------
  // Rounds
  // ---------------------------------------------------------------------------

  /** Rounds that run, under one setting of everything outside the tables. */
  ghost predicate Rounds(states: seq<State>, batches: seq<seq<Candidate>>, nows: seq<int>, w: World) {
    && AreRounds(states, batches, nows, w)
    && (forall now | now in nows :: Runs(w, now))
    && DropsDuplicates(w) && IsbnsAreSettled(states[0])
  }

  ghost predicate InBatch(batches: seq<seq<Candidate>>, k: nat, id: int)
    requires k < |batches|
  {
    id in Ids(batches[k])
  }

  ghost predicate Reached(batches: seq<seq<Candidate>>, id: int) {
    exists k: nat :: k < |batches| && InBatch(batches, k, id)
  }

  lemma RoundOf(states: seq<State>, batches: seq<seq<Candidate>>, nows: seq<int>, w: World, k: nat)
    requires Rounds(states, batches, nows, w) && k < |batches|
    ensures IsBatch(states[k], BATCH_SIZE, batches[k]) && states[k + 1] == HandledAll(states[k], batches[k], w)
  {
    assert IsRound(states[k], batches[k], w, nows[k], states[k + 1]);
    assert nows[k] in nows;
  }

  lemma {:induction false} BlockingStays(states: seq<State>, batches: seq<seq<Candidate>>, nows: seq<int>, w: World,
                                         id: int, k: nat)
    requires Rounds(states, batches, nows, w) && k <= |batches|
    ensures IsbnsAreSettled(states[k]) && Blocking(states[k], w, id) == Blocking(states[0], w, id)
  {
    if k > 0 {
      BlockingStays(states, batches, nows, w, id, k - 1);
      RoundOf(states, batches, nows, w, k - 1);
      RoundKeepsIsbnsSettled(states[k - 1], batches[k - 1], w);
      RoundKeepsBlocking(states[k - 1], batches[k - 1], w, id);
    }
  }

  /** A ready book stays ready until it is in a batch, and then it is worked on. */
  lemma {:induction false} ReadyUntilReached(states: seq<State>, batches: seq<seq<Candidate>>, nows: seq<int>, w: World,
                                             id: int, k: nat)
    requires Rounds(states, batches, nows, w) && k <= |batches| && Ready(states[0], w, id)
    ensures Ready(states[k], w, id) <==> !Reached(batches[..k], id)
    ensures id in Pending(states[k]) ==> Ready(states[k], w, id)
  {
    if k > 0 {
      ReadyUntilReached(states, batches, nows, w, id, k - 1);
      BlockingStays(states, batches, nows, w, id, k - 1);
      RoundOf(states, batches, nows, w, k - 1);
      KeptBook(states[k - 1], batches[k - 1], w, id);
      RoundShrinksPending(states[k - 1], batches[k - 1], w);
      ReachedNext(batches, k, id);
    }
  }

  lemma ReachedNext(batches: seq<seq<Candidate>>, k: nat, id: int)
    requires 0 < k <= |batches|
    ensures Reached(batches[..k], id) <==> Reached(batches[..k - 1], id) || id in Ids(batches[k - 1])
  {
    if Reached(batches[..k], id) {
      var j: nat :| j < k && InBatch(batches[..k], j, id);
      assert j < k - 1 ==> InBatch(batches[..k - 1], j, id);
    }
    if Reached(batches[..k - 1], id) {
      var j: nat :| j < k - 1 && InBatch(batches[..k - 1], j, id);
      assert InBatch(batches[..k], j, id);
    }
    if id in Ids(batches[k - 1]) {
      assert InBatch(batches[..k], k - 1, id);
    }
  }

  /** While id is passed over, each round takes its share from ahead of it. */
  lemma {:induction false} AheadShrinks(states: seq<State>, batches: seq<seq<Candidate>>, nows: seq<int>, w: World,
                                        id: int, k: nat)
    requires Rounds(states, batches, nows, w) && k <= |batches| && Ready(states[0], w, id)
    requires !Reached(batches[..k], id)
    ensures |Ahead(states[k], w, id)| + k * (BATCH_SIZE - |Blocking(states[0], w, id)|) <= |Ahead(states[0], w, id)|
  {
    if k > 0 {
      ReachedNext(batches, k, id);
      AheadShrinks(states, batches, nows, w, id, k - 1);
      AheadStep(states, batches, nows, w, id, k - 1);
      OneMore(|Ahead(states[0], w, id)|, |Ahead(states[k - 1], w, id)|, |Ahead(states[k], w, id)|, k - 1,
              BATCH_SIZE - |Blocking(states[0], w, id)|);
    }
  }

  lemma AheadOfItself(s: State, w: World, id: int)
    requires Ready(s, w, id)
    ensures |Ahead(s, w, id)| > 0
  {
    assert id in Ahead(s, w, id);
  }

  lemma AheadStep(states: seq<State>, batches: seq<seq<Candidate>>, nows: seq<int>, w: World, id: int, k: nat)
    requires Rounds(states, batches, nows, w) && k < |batches| && Ready(states[0], w, id)
    requires !Reached(batches[..k], id) && id !in Ids(batches[k])
    ensures |Ahead(states[k + 1], w, id)| <= |Ahead(states[k], w, id)| - (BATCH_SIZE - |Blocking(states[0], w, id)|)
  {
    ReadyUntilReached(states, batches, nows, w, id, k);
    BlockingStays(states, batches, nows, w, id, k);
    RoundOf(states, batches, nows, w, k);
    PassingRoundShrinksAhead(states[k], batches[k], w, id);
  }

  lemma OneMore(first: int, last: int, next: int, k: nat, share: int)
    requires last + k * share <= first && next <= last - share
    ensures next + (k + 1) * share <= first
  {
  }

  lemma AtLeast(k: nat, share: int, n: nat)
    requires share > 0 && k >= n
    ensures k * share >= n
  {
  }

  /** A ready book with fewer than 200 stuck ones before it is in a batch after at most
      this many rounds. */
  lemma ReachedWithin(states: seq<State>, batches: seq<seq<Candidate>>, nows: seq<int>, w: World, id: int)
    requires Rounds(states, batches, nows, w) && Ready(states[0], w, id)
    requires |batches| * (200 - |Blocking(states[0], w, id)|) >= |Ahead(states[0], w, id)|
    ensures Reached(batches, id)
  {
    assert batches[..|batches|] == batches;
    if !Reached(batches, id) {
      AheadShrinks(states, batches, nows, w, id, |batches|);
      ReadyUntilReached(states, batches, nows, w, id, |batches|);
      AheadOfItself(states[|batches|], w, id);
    }
  }

  lemma BlockedIsNotReached(states: seq<State>, batches: seq<seq<Candidate>>, nows: seq<int>, w: World, id: int)
    requires Rounds(states, batches, nows, w) && |Blocking(states[0], w, id)| >= BATCH_SIZE
    ensures !Reached(batches, id)
  {
    forall k: nat | k < |batches| ensures !InBatch(batches, k, id) {
      BlockingStays(states, batches, nows, w, id, k);
      RoundOf(states, batches, nows, w, k);
      BlockedIsPassedOver(states[k], batches[k], w, id);
    }
  }

  /** The queue comes to a book it can work on, and works on it, if and only if fewer than
      200 pending books with lower ids are stuck; as many rounds as there are ready books
      up to it are enough. */
  lemma ReachedIff(states: seq<State>, batches: seq<seq<Candidate>>, nows: seq<int>, w: World, id: int)
    requires Rounds(states, batches, nows, w) && Ready(states[0], w, id)
    requires |batches| >= |Ahead(states[0], w, id)|
    ensures Reached(batches, id) <==> |Blocking(states[0], w, id)| < 200
    ensures id in Pending(states[|batches|]) <==> |Blocking(states[0], w, id)| >= 200
  {
    if |Blocking(states[0], w, id)| < BATCH_SIZE {
      AtLeast(|batches|, BATCH_SIZE - |Blocking(states[0], w, id)|, |Ahead(states[0], w, id)|);
      ReachedWithin(states, batches, nows, w, id);
    } else {
      BlockedIsNotReached(states, batches, nows, w, id);
    }
    assert batches[..|batches|] == batches;
    ReadyUntilReached(states, batches, nows, w, id, |batches|);
  }
}
