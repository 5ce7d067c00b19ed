/** The enrichment queue can starve: 200 stuck books at the head of the batch keep every
    later one from ever being looked at. */
module EnrichmentStarvation {
  import opened Wrappers
  import opened Enrichment
  import opened EnrichmentQueue
  import opened EnrichmentProgress
  import opened EnrichmentReach

  lemma {:induction false} IdleRoundKeepsBooks(s: State, batch: seq<Candidate>, w: World)
    requires forall c | c in batch :: !Works(c, w)
    ensures HandledAll(s, batch, w).books == s.books
    decreases |batch|
  {
    if batch != [] {
      var init, last := batch[..|batch| - 1], batch[|batch| - 1];
      IdleRoundKeepsBooks(s, init, w);
      HandledSpares(HandledAll(s, init, w), last, w, last.id);
    }
  }

  lemma NextBatchIsOld(s: State, a: seq<Candidate>, t: State, b: seq<Candidate>)
    requires IsBatch(s, BATCH_SIZE, a) && IsBatch(t, BATCH_SIZE, b)
    requires Pending(s) == Pending(t) && s.books == t.books
    ensures forall c | c in b :: c in a
  {
    IdsCount(a);
    IdsCount(b);
    forall c | c in b ensures c in a {
      assert c.id in Pending(s);
      if c.id !in Ids(a) {
        forall id | id in Ids(a) ensures id in Ids(b) {
          var d :| d in a && d.id == id;
          assert d.id < c.id;
        }
        SubsetSize(Ids(a) + {c.id}, Ids(b));
      } else {
        var d :| d in a && d.id == c.id;
      }
    }
  }

  /** A round that works on nothing keeps the books and the pending set. */
  lemma IdleRound(s: State, batch: seq<Candidate>, w: World, now: int, t: State)
    requires IsRound(s, batch, w, now, t) && forall c | c in batch :: !Works(c, w)
    ensures Pending(t) == Pending(s) && t.books == s.books
  {
    if Runs(w, now) {
      RoundShrinksPending(s, batch, w);
      IdleRoundKeepsBooks(s, batch, w);
    }
  }

  /** A round that works on nothing is repeated for ever: the same books stay pending, and
      no later batch holds a book that the first one did not. */
  lemma {:induction false} StarvedForGood(states: seq<State>, batches: seq<seq<Candidate>>, nows: seq<int>,
                                          w: World, k: nat)
    requires AreRounds(states, batches, nows, w) && k < |batches|
    requires forall c | c in batches[0] :: !Works(c, w)
    ensures Pending(states[k]) == Pending(states[0]) && states[k].books == states[0].books
    ensures forall c | c in batches[k] :: c in batches[0]
  {
    assert IsRound(states[0], batches[0], w, nows[0], states[0 + 1]);
    assert IsRound(states[k], batches[k], w, nows[k], states[k + 1]);
    if k > 0 {
      StarvedForGood(states, batches, nows, w, k - 1);
      IdleRound(states[k - 1], batches[k - 1], w, nows[k - 1], states[k]);
      NextBatchIsOld(states[0], batches[0], states[k], batches[k]);
    }
  }

  // ---------------------------------------------------------------------------
  // What blocks a book
  // ---------------------------------------------------------------------------

  /** Pending books before id that are not older than the snapshot. */
  function NewerThanSnapshot(s: State, w: World, id: int): set<int>
    requires w.refreshedAt.Some?
  {
    set x | x in Pending(s) && x < id && s.books[x].addedAt >= w.refreshedAt.value / 1_000_000_000
  }

  /** Pending books before id that the snapshot does not hold. */
  function NotInSnapshot(s: State, w: World, id: int): set<int> {
    set x | x in Pending(s) && x < id && w.matchByPath(s.books[x].filePath).None?
  }

  /** With Chaptarr alone, a book that is older than its snapshot and in it is reached if and
      only if fewer than 200 pending books with lower ids are newer than the snapshot or
      missing from it. */
  lemma ChaptarrAloneReachesIff(states: seq<State>, batches: seq<seq<Candidate>>, nows: seq<int>, w: World, id: int)
    requires Rounds(states, batches, nows, w) && Ready(states[0], w, id)
    requires w.chaptarr && !w.hardcover && w.refreshedAt.Some? && w.haveBooks
    requires |batches| >= |Ahead(states[0], w, id)|
    ensures Reached(batches, id) <==>
      |NewerThanSnapshot(states[0], w, id) + NotInSnapshot(states[0], w, id)| < 200
  {
    assert Blocking(states[0], w, id) == NewerThanSnapshot(states[0], w, id) + NotInSnapshot(states[0], w, id);
    ReachedIff(states, batches, nows, w, id);
  }

  /** With both integrations, only books newer than the snapshot are in the way. */
  lemma BothReachIff(states: seq<State>, batches: seq<seq<Candidate>>, nows: seq<int>, w: World, id: int)
    requires Rounds(states, batches, nows, w) && Ready(states[0], w, id)
    requires w.chaptarr && w.hardcover && w.refreshedAt.Some?
    requires |batches| >= |Ahead(states[0], w, id)|
    ensures Reached(batches, id) <==> |NewerThanSnapshot(states[0], w, id)| < 200
  {
    assert Blocking(states[0], w, id) == NewerThanSnapshot(states[0], w, id);
    ReachedIff(states, batches, nows, w, id);
  }

  /** With Hardcover alone every pending book is reached. */
  lemma HardcoverAloneReaches(states: seq<State>, batches: seq<seq<Candidate>>, nows: seq<int>, w: World, id: int)
    requires Rounds(states, batches, nows, w) && id in Pending(states[0])
    requires w.hardcover && !w.chaptarr && |batches| >= |Ahead(states[0], w, id)|
    ensures Reached(batches, id) && id !in Pending(states[|batches|])
  {
    assert Blocking(states[0], w, id) == {};
    ReachedIff(states, batches, nows, w, id);
  }

  // ---------------------------------------------------------------------------
  // A library of n books, of which Chaptarr knows the last
  // ---------------------------------------------------------------------------

  const NO_METADATA := Epub("T", None, None, None, None, None)

  function Path(i: nat): (path: string)
    ensures |path| == i
  {
    if i == 0 then "" else Path(i - 1) + "x"
  }

  function CrowdBook(i: nat): Book {
    Book(NO_METADATA, Path(i), 0, false)
  }

  function Crowd(n: nat): State {
    State(map i: nat | 1 <= i <= n :: CrowdBook(i), map[])
  }

  /** Chaptarr alone, with a snapshot that holds only the n-th book's path. */
  function KnowsOnly(n: nat): World {
    World(
      false, true, Some(NANOS), true,
      (path: string) => if path == Path(n) then Some(Patch("T", "", 0.0, "", "", [], "P", 1, "", 0.0)) else None,
      (c: Candidate) => Unmatched,
      (s: State, id: int) => None,
      (c: char) => c)
  }

  const EMPTY_QUEUE := Queue(State(map[], map[]), [])

  lemma RunGoesOn(qs: seq<Queue>, ms: seq<Move>, q: Queue, m: Move, r: Queue) returns (qs': seq<Queue>, ms': seq<Move>)
    requires IsQueueRun(qs, ms) && qs[|ms|] == q && QueueStep(q, m, r)
    ensures IsQueueRun(qs', ms') && qs'[0] == qs[0] && qs'[|ms'|] == r
  {
    qs', ms' := qs + [r], ms + [m];
  }

  /** From the empty tables the books can be added one by one; no two have the same path. */
  lemma {:induction false} CrowdIsReachable(n: nat) returns (qs: seq<Queue>, ms: seq<Move>)
    ensures IsQueueRun(qs, ms) && qs[0] == EMPTY_QUEUE && qs[|ms|] == Queue(Crowd(n), [])
    ensures var books := Crowd(n).books;
            forall i, j | i in books && j in books && books[i].filePath == books[j].filePath :: i == j
  {
    if n == 0 {
      assert Crowd(0).books == map[];
      qs, ms := [Queue(Crowd(0), [])], [];
    } else {
      qs, ms := CrowdIsReachable(n - 1);
      var q, r, m := Queue(Crowd(n - 1), []), Queue(Crowd(n), []), Add(n, CrowdBook(n));
      assert Crowd(n).books == Crowd(n - 1).books[n := CrowdBook(n)];
      qs, ms := RunGoesOn(qs, ms, q, m, r);
    }
  }

  lemma CrowdIsPending(n: nat, id: int)
    ensures id in Pending(Crowd(n)) <==> 1 <= id <= n
    ensures Ready(Crowd(n), KnowsOnly(n), id) <==> id == n >= 1
  {
    if 1 <= id <= n {
      assert Shown(NO_METADATA, None).series == "";
    }
  }

  function Range(n: nat): (ids: set<int>)
    ensures |ids| == n && forall id :: id in ids <==> 1 <= id <= n
  {
    if n == 0 then {} else Range(n - 1) + {n}
  }

  lemma CrowdBlocks(n: nat)
    requires n > 0
    ensures Blocking(Crowd(n), KnowsOnly(n), n) == Range(n - 1)
    ensures Ahead(Crowd(n), KnowsOnly(n), n) == {n}
  {
    forall id
      ensures id in Pending(Crowd(n)) <==> 1 <= id <= n
      ensures Ready(Crowd(n), KnowsOnly(n), id) <==> id == n
    {
      CrowdIsPending(n, id);
    }
  }

  /** Chaptarr knows the last of n books: that book is ever looked at if and only if there
      are at most 200. */
  lemma LastBookIsReachedIff(states: seq<State>, batches: seq<seq<Candidate>>, nows: seq<int>, n: nat)
    requires n > 0 && Rounds(states, batches, nows, KnowsOnly(n)) && states[0] == Crowd(n) && batches != []
    ensures Reached(batches, n) <==> n <= 200
    ensures n in Pending(states[|batches|]) <==> n > 200
  {
    CrowdBlocks(n);
    CrowdIsPending(n, n);
    ReachedIff(states, batches, nows, KnowsOnly(n), n);
  }

  // ---------------------------------------------------------------------------
  // Rounds can always go on
  // ---------------------------------------------------------------------------

  lemma {:induction false} BatchOf(s: State, rest: set<int>, batch: seq<Candidate>) returns (longer: seq<Candidate>)
    requires ListedSoFar(s, batch, rest) && |batch| <= BATCH_SIZE
    ensures IsBatch(s, BATCH_SIZE, longer)
    decreases |rest|
  {
    if rest == {} || |batch| == BATCH_SIZE {
      longer := batch;
    } else {
      var id := LeastOf(rest);
      BatchGrows(s, batch, rest, id);
      longer := BatchOf(s, rest - {id}, batch + [CandidateOf(s, id)]);
    }
  }

  lemma {:induction false} LeastOf(ids: set<int>) returns (least: int)
    requires ids != {}
    ensures least in ids && forall id | id in ids :: least <= id
    decreases |ids|
  {
    SomeElement(ids);
    var one :| one in ids;
    least := one;
    if ids != {one} {
      var other := LeastOf(ids - {one});
      least := if other < one then other else one;
      assert forall id | id in ids :: id == one || id in ids - {one};
    }
  }

  lemma RoundsGoOn(states: seq<State>, batches: seq<seq<Candidate>>, nows: seq<int>, w: World,
                   batch: seq<Candidate>, now: int, t: State)
    requires AreRounds(states, batches, nows, w) && IsRound(states[|batches|], batch, w, now, t)
    ensures AreRounds(states + [t], batches + [batch], nows + [now], w)
  {
  }

  /** From the empty tables the queue can come to this library, and then make any number of
      rounds. */
  lemma {:induction false} CrowdRounds(n: nat, k: nat)
    returns (states: seq<State>, batches: seq<seq<Candidate>>, nows: seq<int>)
    ensures exists qs, ms :: IsQueueRun(qs, ms) && qs[0] == EMPTY_QUEUE && qs[|ms|] == Queue(Crowd(n), [])
    ensures Rounds(states, batches, nows, KnowsOnly(n)) && |batches| == k && states[0] == Crowd(n)
  {
    var qs, ms := CrowdIsReachable(n);
    if k == 0 {
      states, batches, nows := [Crowd(n)], [], [];
    } else {
      states, batches, nows := CrowdRounds(n, k - 1);
      var s := states[k - 1];
      var batch := BatchOf(s, Pending(s), []);
      var t := HandledAll(s, batch, KnowsOnly(n));
      RoundsGoOn(states, batches, nows, KnowsOnly(n), batch, 0, t);
      states, batches, nows := states + [t], batches + [batch], nows + [0];
    }
  }
}
