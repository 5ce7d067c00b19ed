/** What a row holds after its file was read: each parsed value in its own column, or the
    file's name and the parse error. */
module LibraryMetadata {
  import opened Strings
  import opened LibraryTables
  import opened LibraryDedup
  import opened LibraryScan

  // ---------------------------------------------------------------------------
  // One upsert
  // ---------------------------------------------------------------------------

  /** name is the part of path after its last slash. */
  predicate LastElement(path: string, name: string) {
    && |name| <= |path| && path[|path| - |name|..] == name && '/' !in name
    && (|name| < |path| ==> path[|path| - |name| - 1] == '/')
  }

  lemma LastElementGrows(init: string, c: char, name: string)
    requires LastElement(init, name) && c != '/'
    ensures LastElement(init + [c], name + [c])
  {
    var path, longer := init + [c], name + [c];
    assert path[|path| - |longer|..] == init[|init| - |name|..] + [c];
    assert |name| < |init| ==> path[|path| - |longer| - 1] == init[|init| - |name| - 1];
  }

  lemma {:induction false} BaseNameIsLast(path: string)
    ensures LastElement(path, BaseName(path))
    decreases |path|
  {
    if path != "" && path[|path| - 1] != '/' {
      var init, c := path[..|path| - 1], path[|path| - 1];
      BaseNameIsLast(init);
      LastElementGrows(init, c, BaseName(init));
      assert path == init + [c];
    }
  }

  /** The row holds what this parse yields, column by column. */
  predicate HoldsParsed(row: BookRow, p: Parsed) {
    match p
    case Readable(c) =>
      && row.cols.title == c.title && row.cols.sortTitle == c.sortTitle
      && row.cols.author == c.author && row.cols.sortAuthor == c.sortAuthor
      && row.cols.series == c.series && row.cols.seriesIndex == c.seriesIndex
      && row.cols.description == c.description && row.cols.language == c.language
      && row.cols.publisher == c.publisher && row.cols.publishedDate == c.publishedDate
      && row.cols.identifier == c.identifier && row.cols.parseError == ""
    case Unreadable(message) =>
      && LastElement(row.key.rel, row.cols.title)
      && |row.cols.sortTitle| == |row.cols.title|
      && (forall i | 0 <= i < |row.cols.title| :: SameLetter(row.cols.title[i], row.cols.sortTitle[i]))
      && (forall c | c in row.cols.sortTitle :: !('A' <= c <= 'Z'))
      && row.cols.author == "" && row.cols.sortAuthor == "" && row.cols.series == "" && row.cols.seriesIndex == 0.0
      && row.cols.description == "" && row.cols.language == "" && row.cols.publisher == ""
      && row.cols.publishedDate == "" && row.cols.identifier == "" && row.cols.parseError == message
  }

  lemma WrittenRowHolds(k: Key, p: Parsed, row: BookRow)
    requires row.key == k && row.cols == ColumnsOf(k, p)
    ensures HoldsParsed(row, p)
  {
    BaseNameIsLast(k.rel);
    if p.Unreadable? {
      var title, sorted := row.cols.title, row.cols.sortTitle;
      forall i | 0 <= i < |title| ensures SameLetter(title[i], sorted[i]) && !('A' <= sorted[i] <= 'Z') {
        assert sorted[i] == AsciiLower(title[i]);
      }
    }
  }

  /** The upsert reads the file into b's row: the row is new, or the file has changed, or
      the upsert is forced. */
  ghost predicate Reads(s: Tables, f: File, force: bool, t: Tables, b: BookId) {
    b in t.books && (b !in s.books || force || s.books[b].stat != f.stat)
  }

  /** Whenever an upsert reads its file into a row, the row holds the file's metadata and
      its size and mtime; it keeps its path, and a row that was there its added_at. */
  lemma UpsertStoresMetadata(s: Tables, k: Key, f: File, force: bool, t: Tables, b: BookId)
    requires Valid(s) && Upserted(s, k, f, force, t) && IsRow(t, b, k)
    ensures Reads(s, f, force, t, b) ==> HoldsParsed(t.books[b], f.parsed)
    ensures t.books[b].stat == f.stat
    ensures b in s.books ==> t.books[b].addedAt == s.books[b].addedAt
    ensures b in s.books && !Reads(s, f, force, t, b) ==> t.books[b] == s.books[b]
  {
    if c :| k !in s.locs && IsRow(s, c, k) {
      var d :| IsRow(s, d, k) && t == Reread(s, d, f, force);
      assert d == b;
      if Reads(s, f, force, t, b) {
        WrittenRowHolds(k, f.parsed, t.books[b]);
      }
    } else if k !in s.locs {
      assert !IsRow(s, b, k);
      WrittenRowHolds(k, f.parsed, t.books[b]);
    }
  }

  /** A row's title and author read like these, blanks at the ends and case apart. */
  predicate SameTitle(row: BookRow, c: Columns) {
    Folded(row.cols.title) == Folded(c.title) && Folded(row.cols.author) == Folded(c.author)
  }

  /** A new file becomes a further copy of a book exactly when it can be read, has a title
      and an author, and some book has the same; else it becomes a book. */
  lemma NewFileJoinsIff(s: Tables, k: Key, f: File, force: bool, t: Tables)
    requires Valid(s) && k !in Keys(s) && Upserted(s, k, f, force, t)
    ensures k in t.locs <==>
      f.parsed.Readable? && f.parsed.cols.title != "" && f.parsed.cols.author != ""
      && exists b :: b in s.books && SameTitle(s.books[b], f.parsed.cols)
    ensures k in t.locs ==>
      t.books == s.books && t.locs[k].book in s.books && t.locs[k].stat == f.stat
      && SameTitle(s.books[t.locs[k].book], f.parsed.cols)
    ensures k !in t.locs ==> t.books.Keys == s.books.Keys + {s.nextId} && IsRow(t, s.nextId, k)
  {
    assert k !in s.locs && !exists b :: IsRow(s, b, k);
    if f.parsed.Readable? && f.parsed.cols.title != "" && f.parsed.cols.author != "" {
      forall b ensures b in TitleMatches(s, f.parsed) <==> b in s.books && SameTitle(s.books[b], f.parsed.cols) {
      }
    }
  }

  // ---------------------------------------------------------------------------
  // Which copy takes over
  // ---------------------------------------------------------------------------

  /** When a book loses its canonical file, the copy that takes its place is the oldest of
      those seen, or of all if none was seen. */
  lemma OldestCopyTakesOver(s: Tables, b: BookId, seen: set<Key>, t: Tables)
    requires Valid(s) && b in s.books && Removed(s, b, seen, t) && b in t.books
    ensures var k := t.books[b].key;
            && k in s.locs && s.locs[k].book == b && t.books[b].stat == s.locs[k].stat
            && (forall l | l in s.locs && s.locs[l].book == b && l in seen ::
                  k in seen && s.locs[k].addedAt <= s.locs[l].addedAt)
            && (k !in seen ==> forall l | l in s.locs && s.locs[l].book == b :: s.locs[k].addedAt <= s.locs[l].addedAt)
    ensures t.books[b].cols == s.books[b].cols && t.books[b].addedAt == s.books[b].addedAt
  {
    if LocsOf(s, b) != {} {
      var k :| Promotes(s, b, seen, k) && t == Promoted(s, b, k);
      PromotionDropsKey(s, b, k, t);
      assert forall l | l in s.locs && s.locs[l].book == b :: l in LocsOf(s, b);
    }
  }

  /** The same of every book that a scan's pruning leaves with another file. */
  lemma PruningPromotesOldest(w: Tables, seen: set<Key>, p: Tables, b: BookId)
    requires Valid(w) && Pruned(w, seen, p) && b in p.books && w.books[b].key !in seen
    ensures var k := p.books[b].key;
            && k in w.locs && w.locs[k].book == b && p.books[b].stat == w.locs[k].stat
            && (forall l | l in w.locs && w.locs[l].book == b && l in seen ::
                  k in seen && w.locs[k].addedAt <= w.locs[l].addedAt)
            && (k !in seen ==> forall l | l in w.locs && w.locs[l].book == b :: w.locs[k].addedAt <= w.locs[l].addedAt)
    ensures p.books[b].cols == w.books[b].cols
  {
    assert PrunedRow(w, seen, b, p.books[b]);
    assert forall l | l in w.locs && w.locs[l].book == b :: l in LocsOf(w, b);
  }

  // ---------------------------------------------------------------------------
  // A forced scan
  // ---------------------------------------------------------------------------

  /** Every row whose file has been visited holds what that file parses to. */
  ghost predicate VisitedRowsHold(t: Tables, disk: Disk, visited: seq<Key>) {
    forall b | b in t.books && t.books[b].key in visited :: RowHolds(t.books[b], disk)
  }

  ghost predicate RowHolds(row: BookRow, disk: Disk) {
    row.key in disk && (disk[row.key].Some? ==> HoldsParsed(row, disk[row.key].value.parsed))
  }

  lemma VisitStoresMetadata(s: Tables, disk: Disk, k: Key, t: Tables, b: BookId)
    requires Valid(s) && k in disk && Visited(s, disk, k, true, t) && IsRow(t, b, k)
    ensures RowHolds(t.books[b], disk)
  {
    if disk[k].Some? {
      UpsertStoresMetadata(s, k, disk[k].value, true, t, b);
    }
  }

  lemma StepKeepsRowsHeld(s: Tables, disk: Disk, k: Key, t: Tables, visited: seq<Key>)
    requires Valid(s) && k in disk && Visited(s, disk, k, true, t) && VisitedRowsHold(s, disk, visited)
    ensures VisitedRowsHold(t, disk, visited + [k])
  {
    VisitSparesOthers(s, disk, k, true, t);
    forall b | b in t.books && t.books[b].key in visited + [k] ensures RowHolds(t.books[b], disk) {
      if t.books[b].key == k {
        VisitStoresMetadata(s, disk, k, t, b);
      } else {
        assert t.books[b] == s.books[b] && s.books[b].key in visited;
      }
    }
  }

  lemma {:induction false} ForcedWalkHolds(walk: seq<Tables>, disk: Disk, order: seq<Key>, n: nat)
    requires IsWalk(walk, disk, order, true) && n <= |order| && Valid(walk[0])
    ensures VisitedRowsHold(walk[n], disk, order[..n])
  {
    if n > 0 {
      ForcedWalkHolds(walk, disk, order, n - 1);
      WalkIndexes(walk, disk, order, true, n - 1);
      assert order[..n] == order[..n - 1] + [order[n - 1]];
      assert Visited(walk[n - 1], disk, order[n - 1], true, walk[n - 1 + 1]);
      StepKeepsRowsHeld(walk[n - 1], disk, order[n - 1], walk[n], order[..n - 1]);
    }
  }

  lemma {:induction false} WalkKeepsRowKeys(walk: seq<Tables>, disk: Disk, order: seq<Key>, force: bool, n: nat,
                                            b: BookId)
    requires IsWalk(walk, disk, order, force) && n <= |order| && Valid(walk[0]) && b in walk[0].books
    ensures b in walk[n].books && walk[n].books[b].key == walk[0].books[b].key
  {
    if n > 0 {
      WalkKeepsRowKeys(walk, disk, order, force, n - 1, b);
      WalkIndexes(walk, disk, order, force, n - 1);
      VisitKeepsRowKey(walk[n - 1], disk, order[n - 1], force, walk[n], b);
    }
  }

  lemma VisitKeepsRowKey(s: Tables, disk: Disk, k: Key, force: bool, t: Tables, b: BookId)
    requires Valid(s) && k in disk && Visited(s, disk, k, force, t) && b in s.books
    ensures b in t.books && t.books[b].key == s.books[b].key
  {
  }

  lemma FinalRow(r: ScanRun, s: Tables, disk: Disk, order: seq<Key>, roots: seq<string>, force: bool, b: BookId)
    requires Valid(s) && IsScan(r, s, disk, order, roots, force) && b in r.final.books
    ensures b in r.walk[|order|].books && PrunedRow(r.walk[|order|], disk.Keys, b, r.final.books[b])
  {
    ScanStages(r, s, disk, order, roots, force);
    ConsolidationTheorem(r.pruned, roots, r.final);
    assert PrunedRow(r.walk[|order|], disk.Keys, b, r.pruned.books[b]);
  }

  lemma ForcedWalkEnds(walk: seq<Tables>, disk: Disk, order: seq<Key>, b: BookId)
    requires IsWalk(walk, disk, order, true) && Covers(order, disk) && Valid(walk[0]) && b in walk[|order|].books
    ensures walk[|order|].books[b].key in disk ==> RowHolds(walk[|order|].books[b], disk)
  {
    ForcedWalkHolds(walk, disk, order, |order|);
    assert order[..|order|] == order;
  }

  /** After a forced scan every row whose file is on the disk and can be read holds that
      file's metadata, except the rows that the scan gave another file: they still hold
      what they held. */
  lemma ForcedScanStoresMetadata(r: ScanRun, s: Tables, disk: Disk, order: seq<Key>, roots: seq<string>, b: BookId)
    requires Valid(s) && IsScan(r, s, disk, order, roots, true)
    requires b in r.final.books && r.final.books[b].key in disk
    ensures var row := r.final.books[b];
            if b in s.books && s.books[b].key != row.key then row.cols == s.books[b].cols
            else disk[row.key].Some? ==> HoldsParsed(row, disk[row.key].value.parsed)
  {
    FinalRow(r, s, disk, order, roots, true, b);
    ForcedWalkEnds(r.walk, disk, order, b);
    WalkSparesUnseen(r.walk, disk, order, true, |order|);
    if b in s.books {
      WalkKeepsRowKeys(r.walk, disk, order, true, |order|, b);
    }
  }
}
