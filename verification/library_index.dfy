/** The index as the object the server holds: its tables are fields, each operation updates
    them in place and is proved against its relation on tables. A query without ORDER BY
    answers in any order, so its result is picked with an assign-such-that statement. */
module LibraryIndex {
  import opened Wrappers
  import opened LibraryTables
  import opened LibraryDedup
  import opened LibraryScan
  import opened LibraryOrder
  import opened LibraryLoops

  ghost predicate OldestFirst(locs: map<Key, LocRow>, ks: seq<Key>) {
    && (forall i | 0 <= i < |ks| :: ks[i] in locs)
    && (forall i, j | 0 <= i < j < |ks| :: locs[ks[i]].addedAt <= locs[ks[j]].addedAt)
  }

  class DB {
    var books: map<BookId, BookRow>
    var locs: map<Key, LocRow>
    var shelved: set<Membership>
    var isbn: map<BookId, string>
    var nextId: BookId

    function T(): Tables
      reads this
    {
      Tables(books, locs, shelved, isbn, nextId)
    }

    constructor ()
      ensures T() == EMPTY && Valid(T())
    {
      books, locs, shelved, isbn, nextId := map[], map[], {}, map[], 1;
    }

    /** SELECT id FROM books WHERE library_root = ? AND file_path = ?; 0 for no row. */
    method FindRow(k: Key) returns (b: BookId)
      requires Valid(T())
      ensures b != 0 ==> IsRow(T(), b, k)
      ensures b == 0 ==> forall c :: !IsRow(T(), c, k)
    {
      if c :| c in books && books[c].key == k {
        b := c;
      } else {
        b := 0;
      }
    }

    /** findBookByTitleAuthor; 0 for no match. */
    method FindBookByTitleAuthor(cols: Columns) returns (b: BookId)
      requires Valid(T())
      ensures b != 0 ==> b in TitleMatches(T(), Readable(cols))
      ensures b == 0 ==> TitleMatches(T(), Readable(cols)) == {}
    {
      if cols.title == "" || cols.author == "" {
        return 0;
      }
      if c :| c in books && SameWork(books[c].cols, cols) {
        b := c;
      } else {
        assert forall c :: c !in TitleMatches(T(), Readable(cols));
        b := 0;
      }
    }

    method UpsertIfChanged(k: Key, f: File, force: bool)
      requires Valid(T())
      modifies this
      ensures Upserted(old(T()), k, f, force, T())
    {
      if k in locs {
        if !force && locs[k].stat == f.stat {
          return;
        }
        locs := locs[k := locs[k].(stat := f.stat)];
        return;
      }
      var id := FindRow(k);
      if id != 0 {
        RereadRow(id, f, force);
        return;
      }
      var now: int := *;
      if f.parsed.Readable? {
        var match_ := FindBookByTitleAuthor(f.parsed.cols);
        if match_ != 0 {
          locs := locs[k := LocRow(match_, f.stat, now)];
          return;
        }
      }
      books := books[nextId := BookRow(k, f.stat, ColumnsOf(k, f.parsed), now)];
      nextId := nextId + 1;
    }

    method RereadRow(b: BookId, f: File, force: bool)
      requires b in books
      modifies this
      ensures T() == Reread(old(T()), b, f, force)
    {
      if force || books[b].stat != f.stat {
        var row := books[b];
        books := books[b := row.(stat := f.stat, cols := ColumnsOf(row.key, f.parsed))];
      }
    }

    /** The locations of b, oldest first. */
    method LocationsByAge(b: BookId) returns (ks: seq<Key>)
      ensures forall k :: k in ks <==> k in LocsOf(T(), b)
      ensures OldestFirst(locs, ks)
    {
      var rest := set k | k in locs && locs[k].book == b;
      ks := [];
      while rest != {}
        invariant rest <= locs.Keys
        invariant forall k :: k in LocsOf(T(), b) <==> k in ks || k in rest
        invariant OldestFirst(locs, ks)
        invariant forall x, y | x in ks && y in rest :: locs[x].addedAt <= locs[y].addedAt
        decreases |rest|
      {
        var k := Oldest(rest);
        ks := ks + [k];
        rest := rest - {k};
      }
    }

    method Oldest(ks: set<Key>) returns (k: Key)
      requires ks != {} && ks <= locs.Keys
      ensures k in ks && forall l | l in ks :: locs[k].addedAt <= locs[l].addedAt
    {
      k :| k in ks;
      var rest := ks - {k};
      while rest != {}
        invariant rest <= ks && k in ks
        invariant forall l | l in ks - rest :: locs[k].addedAt <= locs[l].addedAt
        decreases |rest|
      {
        var l :| l in rest;
        if locs[l].addedAt < locs[k].addedAt {
          k := l;
        }
        rest := rest - {l};
      }
    }

    method RemoveCanonicalFile(b: BookId, seen: set<Key>)
      requires Valid(T())
      modifies this
      ensures Removed(old(T()), b, seen, T())
    {
      var known := LocationsByAge(b);
      var promote := -1;
      var i := 0;
      while i < |known|
        invariant 0 <= i <= |known|
        invariant promote == -1 && forall j | 0 <= j < i :: known[j] !in seen
      {
        if known[i] in seen {
          promote := i;
          break;
        }
        i := i + 1;
      }
      if promote == -1 && |known| > 0 {
        promote := 0;
      }
      if promote == -1 {
        assert LocsOf(T(), b) == {};
        books := books - {b};
        return;
      }
      var k := known[promote];
      assert Promotes(T(), b, seen, k) by {
        FirstIsPromotable(T(), b, seen, known, promote);
      }
      PromoteLocation(b, k);
    }

    /** The promotion transaction. */
    method PromoteLocation(b: BookId, k: Key)
      requires k in locs && Valid(T())
      modifies this
      ensures T() == Promoted(old(T()), b, k)
    {
      assert forall c :: !IsRow(T(), c, k);
      if b in books {
        books := books[b := books[b].(key := k, stat := locs[k].stat)];
      }
      locs := locs - {k};
    }

    method DeleteByPath(k: Key)
      requires Valid(T())
      modifies this
      ensures DeletedByPath(old(T()), k, T())
    {
      var b := FindRow(k);
      ghost var s := T();
      if b == 0 {
        assert forall c :: !IsRow(s, c, k);
        locs := locs - {k};
      } else {
        RemoveCanonicalFile(b, {});
        assert IsRow(s, b, k);
      }
    }

    method MergeBooks(keep: BookId, drop: BookId)
      modifies this
      ensures Merged(old(T()), keep, drop, T())
    {
      if keep == drop || drop !in books {
        return;
      }
      var row := books[drop];
      var now: int := *;
      if row.key !in locs {
        locs := locs[row.key := LocRow(keep, row.stat, now)];
      }
      locs := map l | l in locs :: locs[l].(book := Redirect(locs[l].book, drop, keep));
      shelved := set m | m in shelved :: Membership(m.shelf, RepOf(map[drop := keep], m.book));
      books := books - {drop};
    }

    method PruneMissing(seen: set<Key>)
      requires Valid(T())
      modifies this
      ensures Pruned(old(T()), seen, T())
    {
      ghost var w := T();
      PruneBooks(seen);
      ghost var s := T();
      locs := map k | k in locs && k in seen :: locs[k];
      PruneDone(w, seen, StaleBooks(w, seen), s, T());
    }

    method PruneBooks(seen: set<Key>)
      requires Valid(T())
      modifies this
      ensures PruneProgress(old(T()), seen, StaleBooks(old(T()), seen), T())
    {
      ghost var w := T();
      var stale := set b | b in books && books[b].key !in seen;
      ghost var all := StaleBooks(w, seen);
      ghost var done: set<BookId> := {};
      while stale != {}
        invariant stale <= all && done == all - stale
        invariant PruneProgress(w, seen, done, T()) && Valid(T())
        decreases |stale|
      {
        SomeElement(stale);
        var b :| b in stale;
        PruneBook(b, seen, w, done);
        OneMoreDone(all, stale, done, b);
        stale := stale - {b};
        done := done + {b};
      }
      assert done == all;
    }

    method PruneBook(b: BookId, seen: set<Key>, ghost w: Tables, ghost done: set<BookId>)
      requires Valid(w) && Valid(T()) && PruneProgress(w, seen, done, T()) && Stale(w, seen, b) && b !in done
      modifies this
      ensures Valid(T()) && PruneProgress(w, seen, done + {b}, T())
    {
      ghost var s := T();
      RemoveCanonicalFile(b, seen);
      PruneStep(w, seen, done, s, b, T());
    }

    /** The rootIndex map of pickCanonical. */
    method RootIndex(roots: seq<string>) returns (index: map<string, nat>)
      ensures forall r :: (if r in index then index[r] else |roots|) == RootRank(roots, r)
    {
      index := map[];
      var i := 0;
      while i < |roots|
        invariant 0 <= i <= |roots|
        invariant forall r :: (if r in index then index[r] else |roots|) == RankBefore(roots, i, r)
      {
        index := index[roots[i] := i];
        i := i + 1;
      }
    }

    /** Which of two rows survives; ok is false when a row is missing. */
    method PickCanonical(a: BookId, b: BookId, roots: seq<string>) returns (ok: bool, keep: BookId, drop: BookId)
      ensures ok <==> a in books && b in books
      ensures ok ==> keep == (if Precedes(T(), roots, a, b) then a else b)
      ensures ok ==> drop == (if Precedes(T(), roots, a, b) then b else a)
    {
      if a !in books || b !in books {
        return false, 0, 0;
      }
      var index := RootIndex(roots);
      var ra := if books[a].key.root in index then index[books[a].key.root] else |roots|;
      var rb := if books[b].key.root in index then index[books[b].key.root] else |roots|;
      var first :=
        if ra != rb then ra < rb
        else if books[a].addedAt != books[b].addedAt then books[a].addedAt < books[b].addedAt
        else a < b;
      if first {
        return true, a, b;
      }
      return true, b, a;
    }

    method MergeDuplicateISBN(b: BookId, roots: seq<string>)
      modifies this
      ensures IsbnFolded(old(T()), roots, b, T())
    {
      ghost var s := T();
      if b !in isbn || isbn[b] == "" {
        return;
      }
      if c :| c in isbn && isbn[c] == isbn[b] && c != b {
        assert c in IsbnMatches(s, b);
        var ok, keep, drop := PickCanonical(b, c, roots);
        if ok {
          MergeBooks(keep, drop);
        }
        assert PairFolded(s, roots, b, c, T());
      } else {
        assert forall c :: c !in IsbnMatches(s, b);
      }
    }

    /** The consolidation query. */
    method RowsByTitle() returns (all: seq<BookId>)
      ensures TitleListing(T(), all)
    {
      var rest := set b | b in books && Folded(books[b].cols.title) != "" && Folded(books[b].cols.author) != "";
      all := [];
      while rest != {}
        invariant rest <= books.Keys && ListedSoFar(T(), all, rest)
        decreases |rest|
      {
        var b := FirstRow(rest);
        ListRow(T(), all, rest, b);
        all := all + [b];
        rest := rest - {b};
      }
    }

    method FirstRow(ids: set<BookId>) returns (b: BookId)
      requires ids != {} && ids <= books.Keys
      ensures b in ids && forall c | c in ids :: RowLe(T(), b, c)
    {
      SomeElement(ids);
      b :| b in ids;
      RowLeOrders(T(), b, b, b);
      var rest := ids - {b};
      while rest != {}
        invariant rest <= ids && b in ids
        invariant forall c | c in ids - rest :: RowLe(T(), b, c)
        decreases |rest|
      {
        SomeElement(rest);
        var c :| c in rest;
        if !RowLe(T(), b, c) {
          forall d | d in ids - rest ensures RowLe(T(), c, d) {
            RowLeOrders(T(), b, c, d);
            RowLeOrders(T(), c, b, d);
          }
          RowLeOrders(T(), c, c, c);
          b := c;
        }
        rest := rest - {c};
      }
    }

    method ConsolidateDuplicateTitles(roots: seq<string>)
      requires Valid(T())
      modifies this
      ensures Consolidated(old(T()), roots, T())
    {
      var all := RowsByTitle();
      ghost var s := T();
      ghost var rep := map b | b in books :: b;
      IdentityFolds(s);
      var i := 0;
      while i < |all|
        invariant 0 <= i <= |all| && TitleListing(s, all) && rep.Keys == s.books.Keys
        invariant FoldedSoFar(s, rep, T())
        invariant GroupStart(s, all, i) && GroupsDone(s, roots, all, i, rep) && RestUntouched(s, all, i, rep)
      {
        ListedRowsSurvive(s, rep, T(), all, i);
        var j := GroupEnd(s, all, i);
        GroupEnds(s, all, i, j);
        FirstStandsForItself(s, roots, all, i, rep);
        ghost var keep;
        keep, rep := FoldGroup(s, rep, all, i, j, roots);
        GroupIsDone(s, roots, all, i, j, keep, rep);
        i := j;
      }
      ListingIsDone(s, roots, all, rep);
      QuotientStaysValid(s, rep, T());
    }

    /** The inner scan for the end of the group that starts at i. */
    method GroupEnd(ghost s: Tables, all: seq<BookId>, i: nat) returns (j: nat)
      requires i < |all| && RowsFrom(s, all, i, T())
      ensures i < j <= |all|
      ensures forall x | i <= x < j :: x == i || WorkAt(s, all, i, x)
      ensures j < |all| ==> !WorkAt(s, all, i, j)
    {
      assert RowAt(s, all, i, T());
      j := i + 1;
      while j < |all|
        invariant i < j <= |all|
        invariant forall x | i <= x < j :: x == i || WorkAt(s, all, i, x)
      {
        assert RowAt(s, all, j, T());
        if !SameWork(books[all[j]].cols, books[all[i]].cols) {
          return;
        }
        j := j + 1;
      }
    }

    method MergeNext(keep: BookId, next: BookId, roots: seq<string>) returns (k: BookId, ghost drop: BookId)
      requires keep in books && next in books
      modifies this
      ensures if Precedes(old(T()), roots, keep, next) then k == keep && drop == next else k == next && drop == keep
      ensures Merged(old(T()), k, drop, T())
    {
      var ok, survivor, loser := PickCanonical(keep, next, roots);
      MergeBooks(survivor, loser);
      k, drop := survivor, loser;
    }

    method FoldNext(ghost s: Tables, ghost rep: map<BookId, BookId>, all: seq<BookId>, i: nat, m: nat, keep: BookId,
                    roots: seq<string>)
      returns (k: BookId, ghost rep': map<BookId, BookId>)
      requires m < |all| && GroupState(s, roots, all, i, m, keep, rep, T()) && InGroup(s, all, i, m)
      modifies this
      ensures GroupState(s, roots, all, i, m + 1, k, rep', T())
    {
      ghost var before := T();
      SurvivorsOfStep(s, roots, rep, before, all, i, m, keep);
      ghost var drop;
      k, drop := MergeNext(keep, all[m], roots);
      GroupStep(s, roots, all, i, m, keep, rep, before, k, drop, T());
      rep' := RepAfterMerge(rep, k, drop);
    }

    /** Merges the rows all[i + 1..j] one by one into the survivor so far. */
    method FoldGroup(ghost s: Tables, ghost rep0: map<BookId, BookId>, all: seq<BookId>, i: nat, j: nat,
                     roots: seq<string>)
      returns (ghost keep: BookId, ghost rep: map<BookId, BookId>)
      requires i < j <= |all| && GroupState(s, roots, all, i, i + 1, all[i], rep0, T())
      requires forall x | i <= x < j :: InGroup(s, all, i, x)
      modifies this
      ensures GroupState(s, roots, all, i, j, keep, rep, T())
    {
      rep := rep0;
      var keepID := all[i];
      var m := i + 1;
      while m < j
        invariant i < m <= j && GroupState(s, roots, all, i, m, keepID, rep, T())
      {
        keepID, rep := FoldNext(s, rep, all, i, m, keepID, roots);
        m := m + 1;
      }
      keep := keepID;
    }

    /** UpsertPath: None when the file cannot be stat-ed. */
    method UpsertPath(k: Key, found: Option<File>) returns (ok: bool)
      requires Valid(T())
      modifies this
      ensures ok == found.Some?
      ensures Visited(old(T()), map[k := found], k, false, T())
    {
      if found.None? {
        return false;
      }
      UpsertIfChanged(k, found.value, false);
      return true;
    }

    /** The walk of scan, which meets the files in this order. */
    method Walk(order: seq<Key>, disk: Disk, force: bool) returns (seen: set<Key>, ghost walk: seq<Tables>)
      requires Valid(T()) && Covers(order, disk)
      modifies this
      ensures IsWalk(walk, disk, order, force) && walk[0] == old(T()) && walk[|order|] == T()
      ensures Valid(T()) && seen == disk.Keys
    {
      seen, walk := {}, [T()];
      var i := 0;
      while i < |order|
        invariant 0 <= i <= |order| && Valid(T())
        invariant WalkedTo(walk, disk, order, force, i) && walk[0] == old(T()) && walk[i] == T()
        invariant forall k :: k in seen <==> k in order[..i]
      {
        var k := order[i];
        assert order[..i + 1] == order[..i] + [k];
        seen := seen + {k};
        VisitFile(k, disk, force);
        WalkGrows(walk, disk, order, force, i, T());
        walk := walk + [T()];
        i := i + 1;
      }
      assert order[..|order|] == order;
    }

    /** A file that cannot be stat-ed is left as it is. */
    method VisitFile(k: Key, disk: Disk, force: bool)
      requires Valid(T()) && k in disk
      modifies this
      ensures Valid(T()) && Visited(old(T()), disk, k, force, T())
    {
      ghost var s := T();
      if disk[k].Some? {
        UpsertIfChanged(k, disk[k].value, force);
      }
      VisitAddsItsKey(s, disk, k, force, T());
    }

    method Scan(order: seq<Key>, disk: Disk, roots: seq<string>, force: bool) returns (ghost r: ScanRun)
      requires Valid(T()) && Covers(order, disk)
      modifies this
      ensures IsScan(r, old(T()), disk, order, roots, force) && r.final == T()
      ensures Valid(T())
    {
      var seen, walk := Walk(order, disk, force);
      PruneMissing(seen);
      ghost var pruned := T();
      PruneKeepsValid(walk[|order|], seen, pruned);
      ConsolidateDuplicateTitles(roots);
      r := ScanRun(walk, pruned, T());
      ConsolidationTheorem(pruned, roots, T());
    }
  }

  lemma FirstIsPromotable(s: Tables, b: BookId, seen: set<Key>, known: seq<Key>, n: int)
    requires 0 <= n < |known|
    requires forall k :: k in known <==> k in LocsOf(s, b)
    requires OldestFirst(s.locs, known)
    requires if known[n] in seen then forall j | 0 <= j < n :: known[j] !in seen
             else n == 0 && forall j | 0 <= j < |known| :: known[j] !in seen
    ensures Promotes(s, b, seen, known[n])
  {
  }
}
