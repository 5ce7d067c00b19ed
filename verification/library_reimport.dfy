/** When skipping unchanged files is sound: a scan that skips them and a forced reimport come
    to the same tables if and only if the rows of unchanged files hold what those files
    parse to. Promotion is what breaks that. */
module LibraryReimport {
  import opened Wrappers
  import opened LibraryTables
  import opened LibraryDedup
  import opened LibraryRuns
  import opened LibraryScan

  /** What a file with this path, size and mtime parses to. */
  type Content = (Key, Stat) -> Parsed

  ghost predicate FaithfulRow(row: BookRow, content: Content) {
    row.cols == ColumnsOf(row.key, content(row.key, row.stat))
  }

  /** Every canonical row holds the columns its recorded file parses to. */
  ghost predicate Faithful(s: Tables, content: Content) {
    forall b | b in s.books :: FaithfulRow(s.books[b], content)
  }

  ghost predicate Holds(disk: Disk, content: Content) {
    forall k | k in disk && disk[k].Some? :: disk[k].value.parsed == content(k, disk[k].value.stat)
  }

  /** Forcing makes no difference to an upsert exactly when the row of an unchanged
      canonical file already holds the columns the file parses to. */
  lemma ForceMattersIff(s: Tables, k: Key, f: File)
    requires Valid(s)
    ensures (forall t :: Upserted(s, k, f, true, t) <==> Upserted(s, k, f, false, t))
      <==> forall b | IsRow(s, b, k) && s.books[b].stat == f.stat :: s.books[b].cols == ColumnsOf(k, f.parsed)
  {
    if k in s.locs {
      assert s.locs[k := s.locs[k].(stat := s.locs[k].stat)] == s.locs;
      ValidIsPartition(s, k);
    } else if b :| IsRow(s, b, k) {
      assert forall c | IsRow(s, c, k) :: c == b;
      var t := Reread(s, b, f, false);
      assert Upserted(s, k, f, false, t);
      if s.books[b].stat == f.stat {
        var u := Reread(s, b, f, true);
        assert Upserted(s, k, f, true, u);
        assert u.books[b].cols == ColumnsOf(k, f.parsed);
        if s.books[b].cols == ColumnsOf(k, f.parsed) {
          assert u.books == s.books;
        } else {
          assert !Upserted(s, k, f, false, u);
        }
      }
    }
  }

  lemma UpsertKeepsFaithful(s: Tables, k: Key, f: File, force: bool, t: Tables, content: Content)
    requires Valid(s) && Faithful(s, content) && f.parsed == content(k, f.stat)
    requires Upserted(s, k, f, force, t)
    ensures Faithful(t, content)
  {
  }

  /** Promotion is the one step that breaks this: it copies path and stat of the promoted
      file but keeps the columns of the lost one. */
  lemma PromotionKeepsFaithfulIff(s: Tables, b: BookId, k: Key, t: Tables, content: Content)
    requires Valid(s) && Faithful(s, content) && b in s.books && k in LocsOf(s, b) && t == Promoted(s, b, k)
    ensures Faithful(t, content) <==> s.books[b].cols == ColumnsOf(k, content(k, s.locs[k].stat))
  {
    PromotionDropsKey(s, b, k, t);
    assert t.books[b].cols == s.books[b].cols;
    assert forall c | c in s.books && c != b :: t.books[c] == s.books[c];
  }

  ghost predicate Promoting(s: Tables, t: Tables) {
    exists b :: b in s.books && b in t.books && s.books[b].key != t.books[b].key
  }

  ghost predicate HonestCall(call: Call, content: Content) {
    call.Upsert? ==> call.file.parsed == content(call.key, call.file.stat)
  }

  lemma RemovalKeepsFaithful(s: Tables, b: BookId, seen: set<Key>, t: Tables, content: Content)
    requires Valid(s) && Faithful(s, content) && Removed(s, b, seen, t) && !Promoting(s, t)
    ensures Faithful(t, content)
  {
  }

  lemma FoldKeepsFaithful(s: Tables, roots: seq<string>, a: BookId, b: BookId, t: Tables, content: Content)
    requires Valid(s) && Faithful(s, content) && PairFolded(s, roots, a, b, t)
    ensures Faithful(t, content)
  {
  }

  lemma StepKeepsFaithful(s: Tables, call: Call, t: Tables, content: Content)
    requires Valid(s) && Faithful(s, content) && Step(s, call, t)
    requires HonestCall(call, content) && !Promoting(s, t)
    ensures Faithful(t, content)
  {
    match call
    case Upsert(k, f, force) => UpsertKeepsFaithful(s, k, f, force, t, content);
    case LoseCanonical(b, seen) => RemovalKeepsFaithful(s, b, seen, t, content);
    case DropLocation(_) =>
    case DeletePath(k) =>
      if exists b :: IsRow(s, b, k) {
        var b :| IsRow(s, b, k) && Removed(s, b, {}, t);
        RemovalKeepsFaithful(s, b, {}, t, content);
      }
    case FoldBooks(roots, a, b) => FoldKeepsFaithful(s, roots, a, b, t, content);
    case FoldIsbn(roots, b) =>
      if IsbnMatches(s, b) != {} {
        var c :| c in IsbnMatches(s, b) && PairFolded(s, roots, b, c, t);
        FoldKeepsFaithful(s, roots, b, c, t, content);
      }
    case Enrich(_) =>
    case Shelve(_) =>
    case Unshelve(_) =>
    case Clear =>
  }

  /** The i-th call reads its file honestly and promotes nothing. */
  ghost predicate HarmlessStep(run: seq<Tables>, calls: seq<Call>, content: Content, i: nat)
    requires i < |calls| && |run| == |calls| + 1
  {
    HonestCall(calls[i], content) && !Promoting(run[i], run[i + 1])
  }

  lemma RunStepKeepsFaithful(run: seq<Tables>, calls: seq<Call>, content: Content, i: nat)
    requires IsRun(run, calls) && i < |calls|
    requires Faithful(run[i], content) && HarmlessStep(run, calls, content, i)
    ensures Faithful(run[i + 1], content)
  {
    ReachableIsValid(run, calls, i);
    StepKeepsFaithful(run[i], calls[i], run[i + 1], content);
  }

  /** Any run in which no call promotes a location keeps every row faithful. */
  lemma {:induction false} RunsWithoutPromotionAreFaithful(run: seq<Tables>, calls: seq<Call>, content: Content, n: nat)
    requires IsRun(run, calls) && n < |run|
    requires forall i | 0 <= i < |calls| :: HarmlessStep(run, calls, content, i)
    ensures Faithful(run[n], content)
  {
    if n > 0 {
      RunsWithoutPromotionAreFaithful(run, calls, content, n - 1);
      RunStepKeepsFaithful(run, calls, content, n - 1);
    }
  }

  // ---------------------------------------------------------------------------
  // Whole scans
  // ---------------------------------------------------------------------------

  /** Every row whose file is on the disk with the recorded size and mtime holds what that
      file parses to. */
  ghost predicate UpToDate(s: Tables, disk: Disk) {
    forall b | b in s.books :: RowIsUpToDate(s.books[b], disk)
  }

  ghost predicate RowIsUpToDate(row: BookRow, disk: Disk) {
    row.key in disk && disk[row.key].Some? && disk[row.key].value.stat == row.stat ==>
      row.cols == ColumnsOf(row.key, disk[row.key].value.parsed)
  }

  /** The row of a visited file is as it was, or holds what the file parses to. */
  lemma VisitedRow(s: Tables, disk: Disk, k: Key, force: bool, t: Tables, b: BookId)
    requires Valid(s) && k in disk && Visited(s, disk, k, force, t) && IsRow(t, b, k)
    ensures (b in s.books && t.books[b] == s.books[b])
      || (disk[k].Some? && t.books[b].cols == ColumnsOf(k, disk[k].value.parsed))
  {
  }

  lemma VisitKeepsUpToDate(s: Tables, disk: Disk, k: Key, force: bool, t: Tables)
    requires Valid(s) && k in disk && Visited(s, disk, k, force, t) && UpToDate(s, disk)
    ensures UpToDate(t, disk)
  {
    VisitSparesOthers(s, disk, k, force, t);
    forall b | b in t.books ensures RowIsUpToDate(t.books[b], disk) {
      if t.books[b].key != k {
        assert RowIsUpToDate(s.books[b], disk);
      } else {
        VisitedRow(s, disk, k, force, t, b);
        assert b in s.books ==> RowIsUpToDate(s.books[b], disk);
      }
    }
  }

  lemma VisitIgnoresForce(s: Tables, disk: Disk, k: Key, force: bool, t: Tables)
    requires Valid(s) && k in disk && Visited(s, disk, k, force, t) && UpToDate(s, disk)
    ensures Visited(s, disk, k, !force, t)
  {
    if disk[k].Some? {
      forall b | IsRow(s, b, k) && s.books[b].stat == disk[k].value.stat
        ensures s.books[b].cols == ColumnsOf(k, disk[k].value.parsed)
      {
        assert RowIsUpToDate(s.books[b], disk);
      }
      ForceMattersIff(s, k, disk[k].value);
    }
  }

  /** A visit that can be taken either way has met a row that is up to date. */
  lemma VisitedBothWays(s: Tables, disk: Disk, k: Key, t: Tables, b: BookId)
    requires Valid(s) && k in disk && Visited(s, disk, k, true, t) && Visited(s, disk, k, false, t)
    requires IsRow(s, b, k)
    ensures RowIsUpToDate(s.books[b], disk)
  {
    if disk[k].Some? {
      var f := disk[k].value;
      assert forall c | IsRow(s, c, k) :: c == b;
      assert t == Reread(s, b, f, true) == Reread(s, b, f, false);
    }
  }

  lemma StepStaysUpToDate(walk: seq<Tables>, disk: Disk, order: seq<Key>, force: bool, n: nat)
    requires IsWalk(walk, disk, order, force) && n < |order| && Valid(walk[n]) && UpToDate(walk[n], disk)
    ensures UpToDate(walk[n + 1], disk)
  {
    VisitKeepsUpToDate(walk[n], disk, order[n], force, walk[n + 1]);
  }

  lemma {:induction false} WalkStaysUpToDate(walk: seq<Tables>, disk: Disk, order: seq<Key>, force: bool, n: nat)
    requires IsWalk(walk, disk, order, force) && n <= |order| && Valid(walk[0]) && UpToDate(walk[0], disk)
    ensures UpToDate(walk[n], disk)
  {
    if n > 0 {
      WalkStaysUpToDate(walk, disk, order, force, n - 1);
      WalkIndexes(walk, disk, order, force, n - 1);
      StepStaysUpToDate(walk, disk, order, force, n - 1);
    }
  }

  /** A row is not touched before its file is visited. */
  lemma {:induction false} RowWaitsForItsVisit(walk: seq<Tables>, disk: Disk, order: seq<Key>, force: bool, n: nat,
                                               b: BookId)
    requires IsWalk(walk, disk, order, force) && n <= |order| && Valid(walk[0])
    requires b in walk[0].books && walk[0].books[b].key !in order[..n]
    ensures b in walk[n].books && walk[n].books[b] == walk[0].books[b]
  {
    if n > 0 {
      assert order[..n] == order[..n - 1] + [order[n - 1]];
      RowWaitsForItsVisit(walk, disk, order, force, n - 1, b);
      WalkIndexes(walk, disk, order, force, n - 1);
      VisitSparesOthers(walk[n - 1], disk, order[n - 1], force, walk[n]);
    }
  }

  lemma WalkIgnoresForce(walk: seq<Tables>, disk: Disk, order: seq<Key>, force: bool)
    requires IsWalk(walk, disk, order, force) && Valid(walk[0]) && UpToDate(walk[0], disk)
    ensures IsWalk(walk, disk, order, !force)
  {
    forall i | 0 <= i < |order| ensures Visited(walk[i], disk, order[i], !force, walk[i + 1]) {
      WalkIndexes(walk, disk, order, force, i);
      WalkStaysUpToDate(walk, disk, order, force, i);
      VisitIgnoresForce(walk[i], disk, order[i], force, walk[i + 1]);
    }
  }

  lemma WalkedBothWays(walk: seq<Tables>, disk: Disk, order: seq<Key>, b: BookId)
    requires IsWalk(walk, disk, order, true) && IsWalk(walk, disk, order, false) && Covers(order, disk)
    requires Valid(walk[0]) && b in walk[0].books
    ensures RowIsUpToDate(walk[0].books[b], disk)
  {
    var k := walk[0].books[b].key;
    if k in disk {
      var n := FirstVisit(order, k);
      WalkIndexes(walk, disk, order, true, n);
      RowWaitsForItsVisit(walk, disk, order, true, n, b);
      VisitedBothWays(walk[n], disk, k, walk[n + 1], b);
    }
  }

  /** A scan that skips unchanged files and a forced reimport are the same if and only if
      every row whose file is unchanged holds what that file parses to. */
  lemma ForceMattersToScanIff(r: ScanRun, s: Tables, disk: Disk, order: seq<Key>, roots: seq<string>, force: bool)
    requires Valid(s) && IsScan(r, s, disk, order, roots, force)
    ensures IsScan(r, s, disk, order, roots, !force) <==> UpToDate(s, disk)
  {
    if UpToDate(s, disk) {
      WalkIgnoresForce(r.walk, disk, order, force);
    }
    if IsScan(r, s, disk, order, roots, !force) {
      forall b | b in s.books ensures RowIsUpToDate(s.books[b], disk) {
        WalkedBothWays(r.walk, disk, order, b);
      }
    }
  }

  /** When parsing is determined by path, size and mtime, that holds from every faithful
      state. */
  lemma ScanEqualsReimport(r: ScanRun, s: Tables, disk: Disk, order: seq<Key>, roots: seq<string>, content: Content)
    requires Valid(s) && Faithful(s, content) && Holds(disk, content)
    ensures IsScan(r, s, disk, order, roots, true) <==> IsScan(r, s, disk, order, roots, false)
  {
    forall b | b in s.books ensures RowIsUpToDate(s.books[b], disk) {
      assert FaithfulRow(s.books[b], content);
    }
    if force: bool :| IsScan(r, s, disk, order, roots, force) {
      ForceMattersToScanIff(r, s, disk, order, roots, force);
    }
  }
}
