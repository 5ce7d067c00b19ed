/** Runs of the library index: any interleaving of the scan's, the watcher's, the
    enrichment queue's and the users' calls, each call one atomic step. */
module LibraryRuns {
  import opened LibraryTables
  import opened LibraryDedup

  datatype Call =
    | Upsert(key: Key, file: File, force: bool)
    | LoseCanonical(book: BookId, seen: set<Key>)
    | DropLocation(key: Key)
    | DeletePath(key: Key)
    | FoldBooks(roots: seq<string>, a: BookId, b: BookId)
    | FoldIsbn(roots: seq<string>, book: BookId)
    | Enrich(isbn: map<BookId, string>)
    | Shelve(membership: Membership)
    | Unshelve(membership: Membership)
    | Clear

  ghost predicate Step(s: Tables, call: Call, t: Tables) {
    match call
    case Upsert(k, f, force) => Upserted(s, k, f, force, t)
    case LoseCanonical(b, seen) => Removed(s, b, seen, t)
    case DropLocation(k) => t == s.(locs := s.locs - {k})
    case DeletePath(k) => DeletedByPath(s, k, t)
    case FoldBooks(roots, a, b) => PairFolded(s, roots, a, b, t)
    case FoldIsbn(roots, b) => IsbnFolded(s, roots, b, t)
    case Enrich(isbn) => t == s.(isbn := isbn)
    case Shelve(m) => t == s.(shelved := s.shelved + {m})
    case Unshelve(m) => t == s.(shelved := s.shelved - {m})
    case Clear => t == Tables(map[], map[], {}, map[], s.nextId)
  }

  /** The only key a call may remove from the index, beside Clear. */
  ghost predicate MayRemove(s: Tables, call: Call, k: Key) {
    match call
    case LoseCanonical(b, _) => IsRow(s, b, k)
    case DropLocation(x) => k == x && k in s.locs
    case DeletePath(x) => k == x
    case Clear => true
    case _ => false
  }

  ghost predicate MayAdd(call: Call, k: Key) {
    call.Upsert? && call.key == k
  }

  ghost predicate IsRun(run: seq<Tables>, calls: seq<Call>) {
    && |run| == |calls| + 1
    && run[0] == EMPTY
    && forall i | 0 <= i < |calls| :: Step(run[i], calls[i], run[i + 1])
  }

  lemma DropLocationDropsKey(s: Tables, k: Key, t: Tables)
    requires Valid(s) && t == s.(locs := s.locs - {k})
    ensures Valid(t)
    ensures forall c, x :: Owns(t, c, x) <==> Owns(s, c, x) && (x != k || k !in s.locs)
  {
  }

  lemma SameTablesSameOwners(s: Tables, t: Tables)
    requires s.books == t.books && s.locs == t.locs && s.nextId == t.nextId
    ensures Valid(t) <==> Valid(s)
    ensures forall c, x :: Owns(t, c, x) <==> Owns(s, c, x)
    ensures Keys(s) == Keys(t)
  {
  }

  lemma StepKeepsPartition(s: Tables, call: Call, t: Tables)
    requires Valid(s) && Step(s, call, t)
    ensures Valid(t)
    ensures forall k | k in Keys(s) && k !in Keys(t) :: MayRemove(s, call, k)
    ensures forall k | k in Keys(t) && k !in Keys(s) :: MayAdd(call, k)
  {
    match call
    case Upsert(k, f, force) => UpsertAddsItsKey(s, k, f, force, t);
    case LoseCanonical(b, seen) =>
      if b in s.books {
        RemoveDropsItsKey(s, b, seen, t);
        DroppedKey(s, s.books[b].key, t);
      } else {
        RemoveUnknownIsNoOp(s, b, seen, t);
      }
    case DropLocation(k) => DropLocationDropsKey(s, k, t);
    case DeletePath(k) => DeleteByPathDropsItsKey(s, k, t);
    case FoldBooks(roots, a, b) => FoldKeepsFiles(s, roots, a, b, t);
    case FoldIsbn(roots, b) =>
      if IsbnMatches(s, b) != {} {
        var c :| c in IsbnMatches(s, b) && PairFolded(s, roots, b, c, t);
        FoldKeepsFiles(s, roots, b, c, t);
      }
    case Enrich(_) => SameTablesSameOwners(s, t);
    case Shelve(_) => SameTablesSameOwners(s, t);
    case Unshelve(_) => SameTablesSameOwners(s, t);
    case Clear =>
  }

  lemma {:induction false} ReachableIsValid(run: seq<Tables>, calls: seq<Call>, n: nat)
    requires IsRun(run, calls) && n < |run|
    ensures Valid(run[n])
  {
    if n > 0 {
      ReachableIsValid(run, calls, n - 1);
      StepKeepsPartition(run[n - 1], calls[n - 1], run[n]);
    }
  }

  /** In every reachable state each file key is in exactly one of the two tables, has
      exactly one owner, and every location's owner exists; only an upsert of a key adds
      it, and only losing exactly that file removes it. */
  lemma ReachableIsPartition(run: seq<Tables>, calls: seq<Call>, n: nat)
    requires IsRun(run, calls) && n < |run|
    ensures forall k :: k in Keys(run[n]) <==> exists b :: Owns(run[n], b, k)
    ensures forall k, b, c | Owns(run[n], b, k) && Owns(run[n], c, k) :: b == c
    ensures n > 0 ==> forall k | k in Keys(run[n - 1]) && k !in Keys(run[n]) :: MayRemove(run[n - 1], calls[n - 1], k)
    ensures n > 0 ==> forall k | k in Keys(run[n]) && k !in Keys(run[n - 1]) :: MayAdd(calls[n - 1], k)
  {
    ReachableIsValid(run, calls, n);
    if n > 0 {
      ReachableIsValid(run, calls, n - 1);
      StepKeepsPartition(run[n - 1], calls[n - 1], run[n]);
    }
    KeysAreOwned(run[n]);
    forall k, b, c | Owns(run[n], b, k) && Owns(run[n], c, k) ensures b == c {
      ValidIsPartition(run[n], k);
    }
  }

  /** One step carries the shelves of every file that it leaves indexed. */
  lemma StepKeepsShelves(s: Tables, call: Call, t: Tables)
    requires Valid(s) && Step(s, call, t) && !call.Unshelve? && !call.Clear?
    ensures CarriesShelves(s, t, Keys(s) * Keys(t))
  {
    var kept := Keys(s) * Keys(t);
    match call
    case Upsert(k, f, force) =>
      UpsertAddsItsKey(s, k, f, force, t);
      if k in Keys(s) {
        CarriesIfOwnersKept(s, t, kept);
      } else {
        var b := UpsertNewKey(s, k, f, force, t);
        CarriesIfOwnersKept(s, t, kept);
      }
    case LoseCanonical(b, seen) =>
      if b in s.books {
        RemoveDropsItsKey(s, b, seen, t);
        DroppedKey(s, s.books[b].key, t);
      } else {
        RemoveUnknownIsNoOp(s, b, seen, t);
      }
      CarriesIfOwnersKept(s, t, kept);
    case DropLocation(k) =>
      DropLocationDropsKey(s, k, t);
      KeysAreOwned(t);
      CarriesIfOwnersKept(s, t, kept);
    case DeletePath(k) =>
      DeleteByPathDropsItsKey(s, k, t);
      CarriesIfOwnersKept(s, t, kept);
    case FoldBooks(roots, a, b) => FoldKeepsFiles(s, roots, a, b, t);
    case FoldIsbn(roots, b) =>
      if IsbnMatches(s, b) == {} {
        CarriesIfOwnersKept(s, t, kept);
      } else {
        var c :| c in IsbnMatches(s, b) && PairFolded(s, roots, b, c, t);
        FoldKeepsFiles(s, roots, b, c, t);
      }
    case Enrich(_) => CarriesIfOwnersKept(s, t, kept);
    case Shelve(m) =>
      forall b, k | k in kept && Owns(s, b, k)
        ensures exists c :: Owns(t, c, k) && ShelvesOf(s, b) <= ShelvesOf(t, c)
      {
        assert Owns(t, b, k) && ShelvesOf(s, b) <= ShelvesOf(t, b);
      }
  }

  lemma StepCarries(s: Tables, call: Call, t: Tables, keep: set<Key>)
    requires Valid(s) && Step(s, call, t) && !call.Unshelve? && !call.Clear?
    requires keep <= Keys(s) && keep <= Keys(t)
    ensures CarriesShelves(s, t, keep)
  {
    StepKeepsShelves(s, call, t);
    forall b, k | k in keep && Owns(s, b, k)
      ensures exists c :: Owns(t, c, k) && ShelvesOf(s, b) <= ShelvesOf(t, c)
    {
      assert k in Keys(s) * Keys(t);
    }
  }

  ghost predicate IndexedThroughout(run: seq<Tables>, keep: set<Key>, i: nat, j: nat)
    requires i <= j < |run|
  {
    forall x | i <= x <= j :: keep <= Keys(run[x])
  }

  lemma RunCarriesOn(run: seq<Tables>, calls: seq<Call>, i: nat, j: nat, keep: set<Key>)
    requires IsRun(run, calls) && i < j <= |calls| && !calls[j - 1].Unshelve? && !calls[j - 1].Clear?
    requires keep <= Keys(run[j - 1]) && keep <= Keys(run[j]) && CarriesShelves(run[i], run[j - 1], keep)
    ensures CarriesShelves(run[i], run[j], keep)
  {
    ReachableIsValid(run, calls, j - 1);
    StepCarries(run[j - 1], calls[j - 1], run[j], keep);
    CarriesCompose(run[i], run[j - 1], run[j], keep);
  }

  /** Over any run, a file that stays indexed stays on every shelf its book was on, until a
      user takes it off one or the library is cleared. */
  lemma {:induction false} RunKeepsShelves(run: seq<Tables>, calls: seq<Call>, i: nat, j: nat, keep: set<Key>)
    requires IsRun(run, calls) && i <= j < |run|
    requires IndexedThroughout(run, keep, i, j)
    requires forall x | i <= x < j :: !calls[x].Unshelve? && !calls[x].Clear?
    ensures CarriesShelves(run[i], run[j], keep)
    decreases j
  {
    if i == j {
      CarriesIfOwnersKept(run[i], run[j], keep);
    } else {
      RunKeepsShelves(run, calls, i, j - 1, keep);
      RunCarriesOn(run, calls, i, j, keep);
    }
  }

  /** Why upserts are taken as atomic: of two upserts of one new file, both past their
      lookups of the path, the second finds the first's new book by title and author, and
      puts the file into the other table as well. */
  lemma InterleavedUpsertsSplitAKey(s: Tables, k: Key, f: File, t: Tables)
    requires Valid(s) && k !in Keys(s) && TitleMatches(s, f.parsed) == {}
    requires f.parsed.Readable? && f.parsed.cols.title != "" && f.parsed.cols.author != ""
    requires Upserted(s, k, f, false, t)
    ensures TitleMatches(t, f.parsed) == {s.nextId}
    ensures forall l: LocRow | l.book == s.nextId :: !Valid(t.(locs := t.locs[k := l]))
  {
  }

  // ---------------------------------------------------------------------------
  // Moving a file while the watcher runs
  // ---------------------------------------------------------------------------

  /** The watcher sees a move as a removal of the old path and a creation of the new one,
      in either order. With the creation first, the book and its shelves survive. */
  lemma MoveCreateFirst(s: Tables, b: BookId, old_: Key, new_: Key, f: File, t: Tables, u: Tables)
    requires Valid(s) && IsRow(s, b, old_) && new_ !in Keys(s)
    requires TitleMatches(s, f.parsed) == {b}
    requires Upserted(s, new_, f, false, t) && DeletedByPath(t, old_, u)
    ensures Owns(u, b, new_) && ShelvesOf(u, b) == ShelvesOf(s, b)
  {
    UpsertAddsItsKey(s, new_, f, false, t);
    var c := UpsertNewKey(s, new_, f, false, t);
    assert c == b;
    assert Owns(s, b, old_);
    DeleteByPathDropsItsKey(t, old_, u);
  }

  lemma DeleteLastCopyThenCreate(s: Tables, b: BookId, old_: Key, new_: Key, f: File, t: Tables, u: Tables)
    requires Valid(s) && IsRow(s, b, old_) && LocsOf(s, b) == {} && new_ !in Keys(s)
    requires TitleMatches(s, f.parsed) == {b}
    requires DeletedByPath(s, old_, t) && Upserted(t, new_, f, false, u)
    ensures Owns(u, s.nextId, new_) && Valid(u) && u.shelved == s.shelved
  {
    DeleteByPathDropsItsKey(s, old_, t);
    assert t == s.(books := s.books - {b});
    assert TitleMatches(t, f.parsed) == {} by {
      assert forall c | c in TitleMatches(t, f.parsed) :: c in TitleMatches(s, f.parsed);
    }
    var c := UpsertNewKey(t, new_, f, false, u);
  }

  lemma PromotionKeepsTitles(s: Tables, b: BookId, k: Key, t: Tables, p: Parsed)
    requires b in s.books && k in s.locs
    requires t.books == s.books[b := s.books[b].(key := k, stat := s.locs[k].stat)]
    ensures TitleMatches(t, p) == TitleMatches(s, p)
  {
  }

  lemma DeleteCopyKeepsTitles(s: Tables, b: BookId, old_: Key, t: Tables, p: Parsed)
    requires Valid(s) && IsRow(s, b, old_) && LocsOf(s, b) != {} && DeletedByPath(s, old_, t)
    ensures Valid(t) && TitleMatches(t, p) == TitleMatches(s, p) && t.shelved == s.shelved
    ensures Keys(t) <= Keys(s)
  {
    var x :| IsRow(s, x, old_) && Removed(s, x, {}, t);
    assert x == b;
    var k :| Promotes(s, b, {}, k) && t == Promoted(s, b, k);
    PromotionDropsKey(s, b, k, t);
    PromotionKeepsTitles(s, b, k, t, p);
    DroppedKey(s, old_, t);
  }

  lemma DeleteCopyThenCreate(s: Tables, b: BookId, old_: Key, new_: Key, f: File, t: Tables, u: Tables)
    requires Valid(s) && IsRow(s, b, old_) && LocsOf(s, b) != {} && new_ !in Keys(s)
    requires TitleMatches(s, f.parsed) == {b}
    requires DeletedByPath(s, old_, t) && Upserted(t, new_, f, false, u)
    ensures Owns(u, b, new_) && Valid(u) && u.shelved == s.shelved
  {
    DeleteCopyKeepsTitles(s, b, old_, t, f.parsed);
    var c := UpsertNewKey(t, new_, f, false, u);
  }

  /** With the removal first, a book without a further copy is deleted and its file comes
      back as a new book. So the file keeps its shelves exactly when the book had another
      copy, or was on no shelf that the new id is not already (danglingly) on. */
  lemma MoveDeleteFirst(s: Tables, b: BookId, old_: Key, new_: Key, f: File, t: Tables, u: Tables)
    requires Valid(s) && IsRow(s, b, old_) && new_ !in Keys(s)
    requires TitleMatches(s, f.parsed) == {b}
    requires DeletedByPath(s, old_, t) && Upserted(t, new_, f, false, u)
    ensures (exists c :: Owns(u, c, new_) && ShelvesOf(s, b) <= ShelvesOf(u, c))
      <==> LocsOf(s, b) != {} || ShelvesOf(s, b) <= ShelvesOf(s, s.nextId)
  {
    if LocsOf(s, b) == {} {
      DeleteLastCopyThenCreate(s, b, old_, new_, f, t, u);
      assert ShelvesOf(u, s.nextId) == ShelvesOf(s, s.nextId);
    } else {
      DeleteCopyThenCreate(s, b, old_, new_, f, t, u);
      assert ShelvesOf(u, b) == ShelvesOf(s, b);
    }
    ValidIsPartition(u, new_);
  }
}
