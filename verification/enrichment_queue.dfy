/** The enrichment queue: batches of pending books, Chaptarr first, then Hardcover. */
module EnrichmentQueue {
  import opened Wrappers
  import opened Enrichment

  const BATCH_SIZE := 200
  const NANOS := 1_000_000_000
  const CACHE_TTL := 12 * 3600 * NANOS

  datatype Candidate = Candidate(id: int, title: string, filePath: string, addedAt: int)

  datatype Lookup = Failed | Unmatched | Found(patch: Patch)

  /** What a pass finds outside the tables: both integrations' settings, the Chaptarr
      snapshot, what the services answer for a candidate, and which book a merge of
      duplicate ISBNs drops. Instants are in nanoseconds, a book's addedAt in seconds. */
  datatype World = World(
    hardcover: bool, chaptarr: bool,
    refreshedAt: Option<int>, haveBooks: bool,
    matchByPath: string -> Option<Patch>,
    search: Candidate -> Lookup,
    dropped: (State, int) -> Option<int>,
    fold: char -> char)

  // ---------------------------------------------------------------------------
  // Pending books
  // ---------------------------------------------------------------------------

  function StatusOf(s: State, id: int): string {
    if id in s.layers then s.layers[id].status else ""
  }

  /** needsEnrichmentWhere. */
  predicate Needs(s: State, id: int) {
    && id in s.books
    && StatusOf(s, id) == ""
    && var shown := Shown(s.books[id].epub, LayerOf(s, id));
       || shown.series == "" || shown.publishedDate == "" || shown.description == "" || shown.genres == []
       || shown.publisher == "" || shown.pages == 0 || shown.isbn == "" || shown.rating == 0.0
       || !s.books[id].hasCover
  }

  function Pending(s: State): set<int> {
    set id | id in s.books && Needs(s, id)
  }

  function CandidateOf(s: State, id: int): Candidate
    requires id in s.books
  {
    Candidate(id, s.books[id].epub.title, s.books[id].filePath, s.books[id].addedAt)
  }

  /** The pending books with the lowest ids, in order, as many as the limit allows. */
  predicate IsBatch(s: State, limit: nat, batch: seq<Candidate>) {
    && |batch| <= limit
    && (forall i, j | 0 <= i < j < |batch| :: batch[i].id < batch[j].id)
    && (forall c | c in batch :: c.id in Pending(s) && c == CandidateOf(s, c.id))
    && forall id | id in Pending(s) && id !in Ids(batch) :: |batch| == limit && forall c | c in batch :: c.id < id
  }

  function Ids(batch: seq<Candidate>): set<int> {
    set c | c in batch :: c.id
  }

  // ---------------------------------------------------------------------------
  // One candidate
  // ---------------------------------------------------------------------------

  /** The file arrived after the snapshot and waits for the next one. */
  predicate Deferred(c: Candidate, w: World) {
    w.chaptarr && w.refreshedAt.Some? && !(c.addedAt < w.refreshedAt.value / NANOS)
  }

  function ChaptarrMatch(c: Candidate, w: World): Option<Patch> {
    if w.chaptarr && w.haveBooks then w.matchByPath(c.filePath) else None
  }

  function DuplicateMerged(s: State, id: int, patch: Patch, w: World): State {
    if patch.isbn != "" && w.dropped(s, id).Some? then s.(books := s.books - {w.dropped(s, id).value}) else s
  }

  function Marked(s: State, id: int, column: Column, status: string, w: World): State {
    After(s, SetStatus(id, column, status), w.fold)
  }

  function ChaptarrApplied(s: State, id: int, patch: Patch, w: World): State {
    if id in s.books then DuplicateMerged(After(s, Apply(id, patch, Chaptarr), w.fold), id, patch, w) else s
  }

  function HardcoverApplied(s: State, id: int, patch: Patch, w: World): State {
    if id in s.books then
      DuplicateMerged(Marked(After(s, Apply(id, patch, Hardcover), w.fold), id, Status, "done", w), id, patch, w)
    else Marked(s, id, Status, "error", w)
  }

  function HardcoverAnswered(s: State, c: Candidate, w: World): State {
    match w.search(c)
    case Failed => Marked(Marked(s, c.id, Status, "error", w), c.id, HardcoverStatus, "error", w)
    case Unmatched => Marked(Marked(s, c.id, Status, "no_match", w), c.id, HardcoverStatus, "no_match", w)
    case Found(patch) => HardcoverApplied(s, c.id, patch, w)
  }

  function Handled(s: State, c: Candidate, w: World): State {
    if Deferred(c, w) then s
    else if ChaptarrMatch(c, w).Some? then ChaptarrApplied(s, c.id, ChaptarrMatch(c, w).value, w)
    else
      var t := if w.chaptarr && w.haveBooks then Marked(s, c.id, ChaptarrStatus, "no_match", w) else s;
      if w.hardcover then HardcoverAnswered(t, c, w) else t
  }

  predicate Works(c: Candidate, w: World) {
    !Deferred(c, w) && (w.hardcover || ChaptarrMatch(c, w).Some?)
  }

  /** Chaptarr had its say: it is off, or its snapshot is newer than the book and, when it
      holds a catalogue, does not hold the book's path. */
  predicate Yielded(c: Candidate, w: World) {
    && w.hardcover
    && !Deferred(c, w)
    && (w.chaptarr && w.haveBooks ==> w.matchByPath(c.filePath).None?)
  }

  function HandledAll(s: State, batch: seq<Candidate>, w: World): State {
    if batch == [] then s
    else Handled(HandledAll(s, batch[..|batch| - 1], w), batch[|batch| - 1], w)
  }

  predicate Fresh(w: World, now: int) {
    w.refreshedAt.Some? && now < w.refreshedAt.value + CACHE_TTL
  }

  // ---------------------------------------------------------------------------
  // The queue
  // ---------------------------------------------------------------------------

  method Least(ids: set<int>) returns (least: int)
    requires ids != {}
    ensures least in ids && forall id | id in ids :: least <= id
  {
    SomeElement(ids);
    least :| least in ids;
    var rest := ids - {least};
    while rest != {}
      invariant rest <= ids && least in ids
      invariant forall id | id in ids && id !in rest :: least <= id
    {
      SomeElement(rest);
      var id :| id in rest;
      if id < least {
        least := id;
      }
      rest := rest - {id};
    }
  }

  /** The answer to the query, with the pending books in rest still to follow. */
  predicate ListedSoFar(s: State, batch: seq<Candidate>, rest: set<int>) {
    && rest <= Pending(s) && Ids(batch) == Pending(s) - rest
    && (forall i, j | 0 <= i < j < |batch| :: batch[i].id < batch[j].id)
    && (forall c | c in batch :: c.id in Pending(s) && c == CandidateOf(s, c.id))
    && forall c, id | c in batch && id in rest :: c.id < id
  }

  lemma BatchGrows(s: State, batch: seq<Candidate>, rest: set<int>, id: int)
    requires ListedSoFar(s, batch, rest) && id in rest && forall x | x in rest :: id <= x
    ensures ListedSoFar(s, batch + [CandidateOf(s, id)], rest - {id})
  {
    var longer := batch + [CandidateOf(s, id)];
    assert Ids(longer) == Ids(batch) + {id};
    assert forall c :: c in longer <==> c in batch || c == CandidateOf(s, id);
    forall i, j | 0 <= i < j < |longer| ensures longer[i].id < longer[j].id {
      assert i < |batch| && batch[i] in batch;
    }
  }

  method BooksNeedingEnrichment(db: Store, limit: nat) returns (batch: seq<Candidate>)
    ensures IsBatch(db.Now(), limit, batch)
  {
    batch := [];
    var s := db.Now();
    var rest := Pending(s);
    while |batch| < limit && rest != {}
      invariant |batch| <= limit && ListedSoFar(s, batch, rest)
      decreases rest
    {
      var id := Least(rest);
      BatchGrows(s, batch, rest, id);
      batch := batch + [CandidateOf(s, id)];
      rest := rest - {id};
    }
  }

  method MergeDuplicateISBN(db: Store, id: int, patch: Patch, w: World)
    modifies db`books
    ensures db.Now() == DuplicateMerged(old(db.Now()), id, patch, w)
  {
    if patch.isbn != "" && w.dropped(db.Now(), id).Some? {
      db.books := db.books - {w.dropped(db.Now(), id).value};
    }
  }

  method ProcessChaptarrMatch(db: Store, c: Candidate, w: World) returns (done: bool)
    modifies db
    ensures done == ChaptarrMatch(c, w).Some?
    ensures db.Now() ==
      if done then ChaptarrApplied(old(db.Now()), c.id, ChaptarrMatch(c, w).value, w) else old(db.Now())
  {
    if !w.chaptarr || !w.haveBooks {
      return false;
    }
    var found := w.matchByPath(c.filePath);
    if found.None? {
      return false;
    }
    var ok := db.ApplyEnrichment(c.id, found.value, Chaptarr, w.fold);
    if !ok {
      return true;
    }
    MergeDuplicateISBN(db, c.id, found.value, w);
    return true;
  }

  /** searched logs the candidate if Hardcover is asked about it. */
  method ProcessHardcoverMatch(db: Store, c: Candidate, w: World) returns (done: bool, ghost searched: seq<Candidate>)
    modifies db
    ensures done == w.hardcover && searched == if w.hardcover then [c] else []
    ensures db.Now() == if done then HardcoverAnswered(old(db.Now()), c, w) else old(db.Now())
  {
    if !w.hardcover {
      return false, [];
    }
    searched := [c];
    match w.search(c) {
      case Failed =>
        db.SetProviderStatus(c.id, Status, "error", w.fold);
        db.SetProviderStatus(c.id, HardcoverStatus, "error", w.fold);
      case Unmatched =>
        db.SetProviderStatus(c.id, Status, "no_match", w.fold);
        db.SetProviderStatus(c.id, HardcoverStatus, "no_match", w.fold);
      case Found(patch) =>
        var ok := db.ApplyEnrichment(c.id, patch, Hardcover, w.fold);
        if !ok {
          db.SetProviderStatus(c.id, Status, "error", w.fold);
          return true, searched;
        }
        db.SetProviderStatus(c.id, Status, "done", w.fold);
        MergeDuplicateISBN(db, c.id, patch, w);
    }
    return true, searched;
  }

  method ProcessCandidate(db: Store, c: Candidate, w: World) returns (processed: bool, ghost searched: seq<Candidate>)
    requires w.chaptarr ==> w.refreshedAt.Some?
    modifies db
    ensures db.Now() == Handled(old(db.Now()), c, w)
    ensures processed == Works(c, w) && searched == if Yielded(c, w) then [c] else []
  {
    searched := [];
    if w.chaptarr && !(c.addedAt < w.refreshedAt.value / NANOS) {
      return false, [];
    }
    processed := ProcessChaptarrMatch(db, c, w);
    if processed {
      return;
    }
    if w.chaptarr && w.haveBooks {
      db.SetProviderStatus(c.id, ChaptarrStatus, "no_match", w.fold);
    }
    processed, searched := ProcessHardcoverMatch(db, c, w);
  }

  predicate Runs(w: World, now: int) {
    (w.hardcover || w.chaptarr) && (w.chaptarr ==> Fresh(w, now))
  }

  /** The candidates Chaptarr has yielded, in order. */
  function YieldedOnes(batch: seq<Candidate>, w: World): seq<Candidate> {
    if batch == [] then []
    else YieldedOnes(batch[..|batch| - 1], w) + if Yielded(batch[|batch| - 1], w) then [batch[|batch| - 1]] else []
  }

  lemma {:induction false} YieldedOnesIff(batch: seq<Candidate>, w: World)
    ensures forall c :: c in YieldedOnes(batch, w) <==> c in batch && Yielded(c, w)
    decreases |batch|
  {
    if batch != [] {
      var init, last := batch[..|batch| - 1], batch[|batch| - 1];
      YieldedOnesIff(init, w);
      assert batch == init + [last];
    }
  }

  /** The first i candidates of a batch are handled. */
  ghost predicate HandledSoFar(s: State, batch: seq<Candidate>, i: nat, w: World, t: State, any_: bool,
                               searched: seq<Candidate>) {
    && i <= |batch| && t == HandledAll(s, batch[..i], w) && searched == YieldedOnes(batch[..i], w)
    && (any_ <==> exists j :: 0 <= j < i && Works(batch[j], w))
  }

  lemma NextCandidate(s: State, batch: seq<Candidate>, i: nat, w: World, t: State, any_: bool, searched: seq<Candidate>)
    requires i < |batch| && HandledSoFar(s, batch, i, w, t, any_, searched)
    ensures HandledSoFar(s, batch, i + 1, w, Handled(t, batch[i], w), any_ || Works(batch[i], w),
                         searched + if Yielded(batch[i], w) then [batch[i]] else [])
  {
    assert batch[..i + 1][..i] == batch[..i];
  }

  lemma AllHandled(s: State, batch: seq<Candidate>, w: World, t: State, any_: bool, searched: seq<Candidate>)
    requires HandledSoFar(s, batch, |batch|, w, t, any_, searched)
    ensures t == HandledAll(s, batch, w) && searched == YieldedOnes(batch, w)
    ensures any_ <==> exists c :: c in batch && Works(c, w)
  {
    assert batch[..|batch|] == batch;
  }

  method ProcessBatch(db: Store, batch: seq<Candidate>, w: World)
    returns (processedAny: bool, ghost searched: seq<Candidate>)
    requires w.chaptarr ==> w.refreshedAt.Some?
    modifies db
    ensures db.Now() == HandledAll(old(db.Now()), batch, w)
    ensures processedAny <==> exists c :: c in batch && Works(c, w)
    ensures searched == YieldedOnes(batch, w)
  {
    processedAny, searched := false, [];
    ghost var s := db.Now();
    var i := 0;
    while i < |batch|
      invariant i <= |batch| && HandledSoFar(s, batch, i, w, db.Now(), processedAny, searched)
    {
      NextCandidate(s, batch, i, w, db.Now(), processedAny, searched);
      var processed, asked := ProcessCandidate(db, batch[i], w);
      processedAny := processedAny || processed;
      searched := searched + asked;
      i := i + 1;
    }
    AllHandled(s, batch, w, db.Now(), processedAny, searched);
  }

  /** One round of the queue's endless loop. It sleeps when it processed nothing. Hardcover
      is asked about exactly the candidates that Chaptarr, with a fresh snapshot if it is
      enabled, has yielded. */
  method Round(db: Store, w: World, now: int)
    returns (batch: seq<Candidate>, processedAny: bool, ghost searched: seq<Candidate>)
    modifies db
    ensures batch == [] || IsBatch(old(db.Now()), BATCH_SIZE, batch)
    ensures Runs(w, now) ==> IsBatch(old(db.Now()), BATCH_SIZE, batch)
    ensures db.Now() == if Runs(w, now) then HandledAll(old(db.Now()), batch, w) else old(db.Now())
    ensures processedAny <==> Runs(w, now) && exists c :: c in batch && Works(c, w)
    ensures forall c :: c in searched <==> c in batch && Runs(w, now) && Yielded(c, w)
    ensures searched != [] && w.chaptarr ==> Fresh(w, now)
  {
    processedAny, batch, searched := false, [], [];
    if !w.hardcover && !w.chaptarr {
      return;
    }
    batch := BooksNeedingEnrichment(db, BATCH_SIZE);
    if batch == [] {
      return;
    }
    if w.chaptarr && (w.refreshedAt.None? || !(now < w.refreshedAt.value + CACHE_TTL)) {
      return;
    }
    processedAny, searched := ProcessBatch(db, batch, w);
    YieldedOnesIff(batch, w);
  }
}
