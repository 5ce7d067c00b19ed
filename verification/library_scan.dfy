/** One full scan: the walk over the roots, pruning, consolidation; and what repeated
    scans of an unchanging library come to. */
module LibraryScan {
  import opened Wrappers
  import opened LibraryTables
  import opened LibraryDedup

  /** What the walk finds: every .epub with its file, or None when it could not be
      stat-ed. A key that stat fails for still counts as seen. */
  type Disk = map<Key, Option<File>>

  /** The states of one scan: after each visited file, after pruning, and at the end. */
  datatype ScanRun = ScanRun(walk: seq<Tables>, pruned: Tables, final: Tables)

  ghost predicate Visited(s: Tables, disk: Disk, k: Key, force: bool, t: Tables)
    requires k in disk
  {
    match disk[k]
    case None => t == s
    case Some(f) => Upserted(s, k, f, force, t)
  }

  /** The row a book is left with: a canonical file that was not seen is replaced by a
      promoted location, keeping the parsed columns. */
  ghost predicate PrunedRow(w: Tables, seen: set<Key>, b: BookId, row: BookRow)
    requires b in w.books
  {
    if w.books[b].key in seen then row == w.books[b]
    else Promotes(w, b, seen, row.key) && row == w.books[b].(key := row.key, stat := w.locs[row.key].stat)
  }

  /** pruneMissing: every book whose canonical file was not seen is promoted or deleted,
      then every location that was not seen goes. */
  ghost predicate Pruned(w: Tables, seen: set<Key>, p: Tables) {
    && (forall b :: b in p.books <==> b in w.books && (w.books[b].key in seen || LocsOf(w, b) != {}))
    && (forall b | b in p.books :: PrunedRow(w, seen, b, p.books[b]))
    && (forall k :: k in p.locs <==>
         k in w.locs && k in seen && !IsRow(p, w.locs[k].book, k))
    && (forall k | k in p.locs :: p.locs[k] == w.locs[k])
    && p.shelved == w.shelved && p.isbn == w.isbn && p.nextId == w.nextId
  }

  ghost predicate IsWalk(walk: seq<Tables>, disk: Disk, order: seq<Key>, force: bool) {
    && |walk| == |order| + 1
    && (forall k | k in order :: k in disk)
    && (forall i | 0 <= i < |order| :: Visited(walk[i], disk, order[i], force, walk[i + 1]))
  }

  /** The walk, n files in. */
  ghost predicate WalkedTo(walk: seq<Tables>, disk: Disk, order: seq<Key>, force: bool, n: nat) {
    && |walk| == n + 1 && n <= |order|
    && (forall k | k in order :: k in disk)
    && (forall i | 0 <= i < n :: Visited(walk[i], disk, order[i], force, walk[i + 1]))
  }

  lemma WalkGrows(walk: seq<Tables>, disk: Disk, order: seq<Key>, force: bool, n: nat, t: Tables)
    requires WalkedTo(walk, disk, order, force, n) && n < |order|
    requires Visited(walk[n], disk, order[n], force, t)
    ensures WalkedTo(walk + [t], disk, order, force, n + 1)
  {
  }

  ghost predicate Covers(order: seq<Key>, disk: Disk) {
    forall k :: k in disk <==> k in order
  }

  /** A scan of disk visiting its files in the given order. */
  ghost predicate IsScan(r: ScanRun, s: Tables, disk: Disk, order: seq<Key>, roots: seq<string>, force: bool) {
    && Covers(order, disk)
    && IsWalk(r.walk, disk, order, force)
    && r.walk[0] == s
    && Pruned(r.walk[|order|], disk.Keys, r.pruned)
    && Consolidated(r.pruned, roots, r.final)
  }

  // ---------------------------------------------------------------------------
  // The walk
  // ---------------------------------------------------------------------------

  /** The on-disk keys a walk leaves indexed: those it could stat or that were known. */
  ghost predicate Indexable(s: Tables, disk: Disk, k: Key) {
    k in disk && (disk[k].Some? || k in Keys(s))
  }

  /** The recorded size and mtime of k, wherever it is recorded. */
  ghost predicate HasStat(s: Tables, k: Key, st: Stat) {
    (k in s.locs && s.locs[k].stat == st) || (exists b :: IsRow(s, b, k) && s.books[b].stat == st)
  }

  lemma VisitAddsItsKey(s: Tables, disk: Disk, k: Key, force: bool, t: Tables)
    requires Valid(s) && k in disk && Visited(s, disk, k, force, t)
    ensures Valid(t) && t.shelved == s.shelved
    ensures Keys(t) == if disk[k].Some? then Keys(s) + {k} else Keys(s)
    ensures forall c, x | x in Keys(s) :: Owns(t, c, x) <==> Owns(s, c, x)
  {
    if disk[k].Some? {
      UpsertAddsItsKey(s, k, disk[k].value, force, t);
      if k !in Keys(s) {
        var b := UpsertNewKey(s, k, disk[k].value, force, t);
      }
    }
  }

  ghost predicate SparesOthers(s: Tables, k: Key, t: Tables) {
    && (forall b | b in s.books && s.books[b].key != k :: b in t.books && t.books[b] == s.books[b])
    && (forall b | b in t.books && t.books[b].key != k :: b in s.books && t.books[b] == s.books[b])
    && (forall l | l != k :: l in t.locs <==> l in s.locs)
    && forall l | l in s.locs && l != k :: t.locs[l] == s.locs[l]
  }

  lemma RowSparesOthers(s: Tables, b: BookId, row: BookRow, t: Tables)
    requires (b in s.books ==> s.books[b].key == row.key) && t.books == s.books[b := row] && t.locs == s.locs
    ensures SparesOthers(s, row.key, t)
  {
  }

  lemma LocationSparesOthers(s: Tables, k: Key, l: LocRow, t: Tables)
    requires t.books == s.books && t.locs == s.locs[k := l]
    ensures SparesOthers(s, k, t)
  {
  }

  /** Rows of files that the walk does not visit stay as they are. */
  lemma VisitSparesOthers(s: Tables, disk: Disk, k: Key, force: bool, t: Tables)
    requires Valid(s) && k in disk && Visited(s, disk, k, force, t)
    ensures SparesOthers(s, k, t)
  {
    if disk[k].Some? {
      var f := disk[k].value;
      if k in s.locs {
        LocationSparesOthers(s, k, t.locs[k], t);
      } else if exists b :: IsRow(s, b, k) {
        var b :| IsRow(s, b, k) && t == Reread(s, b, f, force);
        RowSparesOthers(s, b, t.books[b], t);
      } else if TitleMatches(s, f.parsed) != {} {
        LocationSparesOthers(s, k, t.locs[k], t);
      } else {
        RowSparesOthers(s, s.nextId, t.books[s.nextId], t);
      }
    }
  }

  lemma VisitRecordsStat(s: Tables, disk: Disk, k: Key, force: bool, t: Tables)
    requires Valid(s) && k in disk && disk[k].Some? && Visited(s, disk, k, force, t)
    ensures HasStat(t, k, disk[k].value.stat)
  {
    var f := disk[k].value;
    if k !in s.locs {
      if exists b :: IsRow(s, b, k) {
        var b :| IsRow(s, b, k) && t == Reread(s, b, f, force);
        assert IsRow(t, b, k);
      } else if TitleMatches(s, f.parsed) == {} {
        assert IsRow(t, s.nextId, k);
      }
    }
  }

  lemma {:induction false} WalkIndexes(walk: seq<Tables>, disk: Disk, order: seq<Key>, force: bool, n: nat)
    requires IsWalk(walk, disk, order, force) && n <= |order| && Valid(walk[0])
    ensures Valid(walk[n]) && walk[n].shelved == walk[0].shelved
    ensures forall k :: k in Keys(walk[n]) <==> k in Keys(walk[0]) || (k in order[..n] && disk[k].Some?)
    ensures forall c, x | x in Keys(walk[0]) :: Owns(walk[n], c, x) <==> Owns(walk[0], c, x)
  {
    if n > 0 {
      WalkIndexes(walk, disk, order, force, n - 1);
      VisitAddsItsKey(walk[n - 1], disk, order[n - 1], force, walk[n]);
      assert order[..n] == order[..n - 1] + [order[n - 1]];
    }
  }

  lemma {:induction false} WalkSparesUnseen(walk: seq<Tables>, disk: Disk, order: seq<Key>, force: bool, n: nat)
    requires IsWalk(walk, disk, order, force) && n <= |order| && Valid(walk[0])
    ensures forall b | b in walk[0].books && walk[0].books[b].key !in disk ::
      b in walk[n].books && walk[n].books[b] == walk[0].books[b]
    ensures forall b | b in walk[n].books && walk[n].books[b].key !in disk ::
      b in walk[0].books && walk[n].books[b] == walk[0].books[b]
  {
    if n > 0 {
      WalkSparesUnseen(walk, disk, order, force, n - 1);
      WalkIndexes(walk, disk, order, force, n - 1);
      assert order[n - 1] in order;
      VisitSparesOthers(walk[n - 1], disk, order[n - 1], force, walk[n]);
    }
  }

  lemma VisitKeepsStat(s: Tables, disk: Disk, k: Key, force: bool, t: Tables, x: Key, st: Stat)
    requires Valid(s) && k in disk && x != k && Visited(s, disk, k, force, t) && HasStat(s, x, st)
    ensures HasStat(t, x, st)
  {
    VisitSparesOthers(s, disk, k, force, t);
    if !(x in s.locs && s.locs[x].stat == st) {
      var b :| IsRow(s, b, x) && s.books[b].stat == st;
      assert IsRow(t, b, x);
    }
  }

  lemma StepRecordsStat(walk: seq<Tables>, disk: Disk, order: seq<Key>, force: bool, n: nat, k: Key)
    requires IsWalk(walk, disk, order, force) && n < |order| && Valid(walk[n]) && k in disk && disk[k].Some?
    requires order[n] == k || HasStat(walk[n], k, disk[k].value.stat)
    ensures HasStat(walk[n + 1], k, disk[k].value.stat)
  {
    if order[n] == k {
      VisitRecordsStat(walk[n], disk, k, force, walk[n + 1]);
    } else {
      VisitKeepsStat(walk[n], disk, order[n], force, walk[n + 1], k, disk[k].value.stat);
    }
  }

  /** A file visited so far has its current size and mtime on record. */
  lemma {:induction false} WalkRecordsStats(walk: seq<Tables>, disk: Disk, order: seq<Key>, force: bool, n: nat, i: nat)
    requires IsWalk(walk, disk, order, force) && Valid(walk[0])
    requires i < n <= |order| && disk[order[i]].Some?
    ensures HasStat(walk[n], order[i], disk[order[i]].value.stat)
  {
    WalkIndexes(walk, disk, order, force, n - 1);
    if i < n - 1 {
      WalkRecordsStats(walk, disk, order, force, n - 1, i);
    }
    StepRecordsStat(walk, disk, order, force, n - 1, order[i]);
  }

  // ---------------------------------------------------------------------------
  // Pruning
  // ---------------------------------------------------------------------------

  /** None of b's files was seen. */
  ghost predicate Vanished(w: Tables, seen: set<Key>, b: BookId) {
    b in w.books && forall k | Owns(w, b, k) :: k !in seen
  }

  lemma PrunedRowIsOwned(w: Tables, seen: set<Key>, p: Tables, b: BookId)
    requires Valid(w) && Pruned(w, seen, p) && b in p.books
    ensures Owns(w, b, p.books[b].key)
    ensures p.books[b].key in seen || Vanished(w, seen, b)
    ensures p.books[b].key !in p.locs
  {
  }

  lemma PruneKeepsValid(w: Tables, seen: set<Key>, p: Tables)
    requires Valid(w) && Pruned(w, seen, p)
    ensures Valid(p)
  {
    forall b, c | b in p.books && c in p.books && p.books[b].key == p.books[c].key
      ensures b == c
    {
      PrunedRowIsOwned(w, seen, p, b);
      PrunedRowIsOwned(w, seen, p, c);
      ValidIsPartition(w, p.books[b].key);
    }
    forall b | b in p.books ensures p.books[b].key !in p.locs {
      PrunedRowIsOwned(w, seen, p, b);
    }
    forall k | k in p.locs ensures p.locs[k].book in p.books {
      assert k in LocsOf(w, w.locs[k].book);
    }
  }

  /** Pruning removes unseen files only, and leaves an unseen one only as the canonical
      file of a book that lost all its files. */
  lemma PruneOwners(w: Tables, seen: set<Key>, p: Tables, c: BookId, x: Key)
    requires Valid(w) && Pruned(w, seen, p)
    ensures Owns(p, c, x) <==> Owns(w, c, x) && (x in seen || IsRow(p, c, x))
  {
    if Owns(p, c, x) {
      if IsRow(p, c, x) {
        PrunedRowIsOwned(w, seen, p, c);
      }
    }
    if Owns(w, c, x) && x in seen {
      if x in w.locs {
        assert x in LocsOf(w, c);
      }
    }
  }

  lemma PruneLeavesGhostsIff(w: Tables, seen: set<Key>, p: Tables, b: BookId)
    requires Valid(w) && Pruned(w, seen, p)
    ensures b in p.books && p.books[b].key !in seen <==> Vanished(w, seen, b) && LocsOf(w, b) != {}
  {
  }

  lemma PruneCarriesShelves(w: Tables, seen: set<Key>, p: Tables)
    requires Valid(w) && Pruned(w, seen, p)
    ensures CarriesShelves(w, p, seen)
  {
    forall b, k | k in seen && Owns(w, b, k) ensures Owns(p, b, k) {
      PruneOwners(w, seen, p, b, k);
    }
    CarriesIfOwnersKept(w, p, seen);
  }

  // ---------------------------------------------------------------------------
  // One scan
  // ---------------------------------------------------------------------------

  lemma ScanStages(r: ScanRun, s: Tables, disk: Disk, order: seq<Key>, roots: seq<string>, force: bool)
    requires Valid(s) && IsScan(r, s, disk, order, roots, force)
    ensures Valid(r.walk[|order|]) && Valid(r.pruned) && Valid(r.final)
    ensures r.walk[|order|].shelved == s.shelved
    ensures Keys(r.final) == Keys(r.pruned)
    ensures NoDuplicates(r.final)
    ensures CarriesShelves(r.pruned, r.final, Keys(r.pruned))
    ensures forall k :: k in Keys(r.walk[|order|]) <==> k in Keys(s) || (k in disk && disk[k].Some?)
    ensures forall c, x | x in Keys(s) :: Owns(r.walk[|order|], c, x) <==> Owns(s, c, x)
  {
    WalkIndexes(r.walk, disk, order, force, |order|);
    assert order[..|order|] == order;
    PruneKeepsValid(r.walk[|order|], disk.Keys, r.pruned);
    ConsolidationTheorem(r.pruned, roots, r.final);
  }

  /** After one scan every on-disk file that could be read is indexed. A file that is gone
      is still indexed only as the one key a book keeps when all its files vanished. */
  lemma ScanIndexesDisk(r: ScanRun, s: Tables, disk: Disk, order: seq<Key>, roots: seq<string>, force: bool, k: Key)
    requires Valid(s) && IsScan(r, s, disk, order, roots, force)
    ensures k in disk ==> (k in Keys(r.final) <==> Indexable(s, disk, k))
    ensures k !in disk ==> (k in Keys(r.final) <==>
      exists b :: IsRow(r.pruned, b, k) && Owns(s, b, k) && Vanished(r.walk[|order|], disk.Keys, b))
  {
    ScanStages(r, s, disk, order, roots, force);
    var w := r.walk[|order|];
    ValidIsPartition(w, k);
    ValidIsPartition(r.pruned, k);
    if k in disk {
      if b :| Owns(w, b, k) {
        PruneOwners(w, disk.Keys, r.pruned, b, k);
      }
      if b :| Owns(r.pruned, b, k) {
        PruneOwners(w, disk.Keys, r.pruned, b, k);
      }
    } else {
      if b :| Owns(r.pruned, b, k) {
        PruneOwners(w, disk.Keys, r.pruned, b, k);
        PrunedRowIsOwned(w, disk.Keys, r.pruned, b);
        assert Owns(s, b, k);
      }
      if b :| IsRow(r.pruned, b, k) {
        assert Owns(r.pruned, b, k);
      }
    }
  }

  /** At most one stale key per book. */
  lemma OneStaleKeyPerBook(r: ScanRun, s: Tables, disk: Disk, order: seq<Key>, roots: seq<string>, force: bool,
                           b: BookId, k1: Key, k2: Key)
    requires Valid(s) && IsScan(r, s, disk, order, roots, force)
    requires Owns(s, b, k1) && k1 in Keys(r.final) && k1 !in disk
    requires Owns(s, b, k2) && k2 in Keys(r.final) && k2 !in disk
    ensures k1 == k2
  {
    ScanIndexesDisk(r, s, disk, order, roots, force, k1);
    ScanIndexesDisk(r, s, disk, order, roots, force, k2);
    ValidIsPartition(s, k1);
    ValidIsPartition(s, k2);
  }

  /** One scan leaves exactly the on-disk files, if and only if no book that had several
      files lost all of them (counting files the walk has just attached). */
  lemma ScanIsExactIff(r: ScanRun, s: Tables, disk: Disk, order: seq<Key>, roots: seq<string>, force: bool)
    requires Valid(s) && IsScan(r, s, disk, order, roots, force)
    ensures Keys(r.final) <= disk.Keys
      <==> forall b | Vanished(r.walk[|order|], disk.Keys, b) :: LocsOf(r.walk[|order|], b) == {}
  {
    ScanStages(r, s, disk, order, roots, force);
    var w := r.walk[|order|];
    if b :| Vanished(w, disk.Keys, b) && LocsOf(w, b) != {} {
      PruneLeavesGhostsIff(w, disk.Keys, r.pruned, b);
      assert r.pruned.books[b].key in Keys(r.pruned);
    }
    if k :| k in Keys(r.final) && k !in disk {
      ScanIndexesDisk(r, s, disk, order, roots, force, k);
      var b :| IsRow(r.pruned, b, k) && Owns(s, b, k) && Vanished(w, disk.Keys, b);
      PruneLeavesGhostsIff(w, disk.Keys, r.pruned, b);
    }
  }

  /** A file indexed before and still on disk belongs, after the scan, to a book that is on
      every shelf its earlier book was on. */
  lemma ScanKeepsShelves(r: ScanRun, s: Tables, disk: Disk, order: seq<Key>, roots: seq<string>, force: bool)
    requires Valid(s) && IsScan(r, s, disk, order, roots, force)
    ensures CarriesShelves(s, r.final, disk.Keys)
  {
    ScanStages(r, s, disk, order, roots, force);
    var w := r.walk[|order|];
    KeysAreOwned(s);
    CarriesIfOwnersKept(s, w, disk.Keys);
    SettlingCarries(w, disk.Keys, r.pruned, roots, r.final);
    CarriesCompose(s, w, r.final, disk.Keys);
  }

  lemma SettlingCarries(w: Tables, seen: set<Key>, p: Tables, roots: seq<string>, t: Tables)
    requires Valid(w) && Pruned(w, seen, p) && Consolidated(p, roots, t)
    ensures CarriesShelves(w, t, seen)
  {
    PruneCarriesShelves(w, seen, p);
    PruneKeepsValid(w, seen, p);
    ConsolidationTheorem(p, roots, t);
    ConsolidationCarries(p, t, seen);
    CarriesCompose(w, p, t, seen);
  }

  lemma ConsolidationCarries(s: Tables, t: Tables, keep: set<Key>)
    requires Valid(s) && CarriesShelves(s, t, Keys(s))
    ensures CarriesShelves(s, t, keep)
  {
  }

  lemma AttachedHere(walk: seq<Tables>, disk: Disk, order: seq<Key>, force: bool, b: BookId, n: nat)
    requires IsWalk(walk, disk, order, force) && Valid(walk[0])
    requires n < |order| && order[n] !in Keys(walk[n]) && disk[order[n]].Some?
    requires TitleMatches(walk[n], disk[order[n]].value.parsed) == {b}
    ensures Valid(walk[n + 1]) && Owns(walk[n + 1], b, order[n]) && order[n] in Keys(walk[n + 1])
  {
    WalkIndexes(walk, disk, order, force, n);
    VisitAddsItsKey(walk[n], disk, order[n], force, walk[n + 1]);
    var c := UpsertNewKey(walk[n], order[n], disk[order[n]].value, force, walk[n + 1]);
  }

  lemma WalkAttaches(walk: seq<Tables>, disk: Disk, order: seq<Key>, force: bool, b: BookId, n: nat)
    requires IsWalk(walk, disk, order, force) && Valid(walk[0])
    requires n < |order| && order[n] !in Keys(walk[n]) && disk[order[n]].Some?
    requires TitleMatches(walk[n], disk[order[n]].value.parsed) == {b}
    ensures Owns(walk[|order|], b, order[n])
  {
    AttachedHere(walk, disk, order, force, b, n);
    TailIsWalk(walk, disk, order, force, n + 1);
    WalkIndexes(walk[n + 1..], disk, order[n + 1..], force, |order| - n - 1);
  }

  lemma WalkKeepsShelved(walk: seq<Tables>, disk: Disk, order: seq<Key>, force: bool)
    requires IsWalk(walk, disk, order, force) && Valid(walk[0])
    ensures Valid(walk[|order|]) && walk[|order|].shelved == walk[0].shelved
  {
    WalkIndexes(walk, disk, order, force, |order|);
  }

  lemma AttachedFileKeepsShelves(r: ScanRun, s: Tables, disk: Disk, order: seq<Key>, roots: seq<string>, force: bool,
                                 b: BookId, n: nat)
    requires Valid(s) && IsScan(r, s, disk, order, roots, force)
    requires b in s.books && s.books[b].key !in disk
    requires n < |order| && order[n] !in Keys(r.walk[n]) && disk[order[n]].Some?
    requires TitleMatches(r.walk[n], disk[order[n]].value.parsed) == {b}
    ensures exists c :: Owns(r.final, c, order[n]) && ShelvesOf(s, b) <= ShelvesOf(r.final, c)
  {
    var w := r.walk[|order|];
    WalkKeepsShelved(r.walk, disk, order, force);
    WalkAttaches(r.walk, disk, order, force, b, n);
    SettlingCarries(w, disk.Keys, r.pruned, roots, r.final);
    assert ShelvesOf(w, b) == ShelvesOf(s, b);
  }

  lemma FirstVisit(order: seq<Key>, k: Key) returns (n: nat)
    requires k in order
    ensures n < |order| && order[n] == k && k !in order[..n]
  {
    n := 0;
    while order[n] != k
      invariant n < |order| && k !in order[..n] && k in order[n..]
      decreases |order| - n
    {
      assert order[n..] == [order[n]] + order[n + 1..];
      assert order[..n + 1] == order[..n] + [order[n]];
      n := n + 1;
    }
  }

  /** b, whose canonical file is off the disk, is the only row of the work, and no canonical
      file on the disk is one. */
  ghost predicate OnlyRowOfWork(s: Tables, disk: Disk, cols: Columns, b: BookId) {
    && b in s.books && s.books[b].key !in disk
    && (forall c :: c in s.books && SameWork(s.books[c].cols, cols) <==> c == b)
    && forall c | c in s.books && s.books[c].key in disk && disk[s.books[c].key].Some? ::
         !SameWork(ColumnsOf(s.books[c].key, disk[s.books[c].key].value.parsed), cols)
  }

  lemma OnlyRowMatches(s: Tables, disk: Disk, cols: Columns, b: BookId, p: Parsed)
    requires Comparable(cols) && OnlyRowOfWork(s, disk, cols, b)
    requires p.Readable? && SameWork(p.cols, cols)
    ensures TitleMatches(s, p) == {b}
  {
    assert Folded("") == "";
    assert p.cols.title != "" && p.cols.author != "";
    forall c ensures c in TitleMatches(s, p) <==> c == b {
      assert c in s.books ==> (SameWork(s.books[c].cols, p.cols) <==> SameWork(s.books[c].cols, cols));
    }
  }

  lemma InsertedRowIsOther(s: Tables, disk: Disk, cols: Columns, b: BookId, k: Key, p: Parsed)
    requires Comparable(cols) && OnlyRowOfWork(s, disk, cols, b) && TitleMatches(s, p) == {}
    ensures !SameWork(ColumnsOf(k, p), cols)
  {
    assert Folded("") == "";
    if SameWork(ColumnsOf(k, p), cols) {
      OnlyRowMatches(s, disk, cols, b, p);
    }
  }

  /** Every file that the walk finds of this work goes to b. */
  lemma VisitKeepsOnlyRow(s: Tables, disk: Disk, k: Key, force: bool, t: Tables, cols: Columns, b: BookId)
    requires Valid(s) && k in disk && Visited(s, disk, k, force, t)
    requires Comparable(cols) && OnlyRowOfWork(s, disk, cols, b)
    ensures OnlyRowOfWork(t, disk, cols, b)
  {
    if disk[k].Some? && k !in s.locs && !(exists c :: IsRow(s, c, k)) {
      if TitleMatches(s, disk[k].value.parsed) == {} {
        InsertedRowIsOther(s, disk, cols, b, k, disk[k].value.parsed);
      }
    }
  }

  lemma StepKeepsOnlyRow(walk: seq<Tables>, disk: Disk, order: seq<Key>, force: bool, n: nat, cols: Columns, b: BookId)
    requires IsWalk(walk, disk, order, force) && n < |order| && Valid(walk[n])
    requires Comparable(cols) && OnlyRowOfWork(walk[n], disk, cols, b)
    ensures OnlyRowOfWork(walk[n + 1], disk, cols, b)
  {
    VisitKeepsOnlyRow(walk[n], disk, order[n], force, walk[n + 1], cols, b);
  }

  lemma {:induction false} WalkKeepsOnlyRow(walk: seq<Tables>, disk: Disk, order: seq<Key>, force: bool, n: nat,
                                            cols: Columns, b: BookId)
    requires IsWalk(walk, disk, order, force) && n <= |order| && Valid(walk[0])
    requires Comparable(cols) && OnlyRowOfWork(walk[0], disk, cols, b)
    ensures OnlyRowOfWork(walk[n], disk, cols, b)
  {
    if n > 0 {
      WalkKeepsOnlyRow(walk, disk, order, force, n - 1, cols, b);
      WalkIndexes(walk, disk, order, force, n - 1);
      StepKeepsOnlyRow(walk, disk, order, force, n - 1, cols, b);
    }
  }

  /** Moving a book's file between scans keeps its shelves: the new path is read before the
      old one is missed, so the book is promoted instead of deleted. The moved book has to
      be the only one of its title and author, before the walk and in what the walk reads. */
  lemma MovedFileKeepsShelves(r: ScanRun, s: Tables, disk: Disk, order: seq<Key>, roots: seq<string>, force: bool,
                              b: BookId, k: Key)
    requires Valid(s) && IsScan(r, s, disk, order, roots, force)
    requires k in disk && k !in Keys(s) && disk[k].Some? && disk[k].value.parsed.Readable?
    requires Comparable(disk[k].value.parsed.cols) && OnlyRowOfWork(s, disk, disk[k].value.parsed.cols, b)
    ensures exists c :: Owns(r.final, c, k) && ShelvesOf(s, b) <= ShelvesOf(r.final, c)
  {
    var p := disk[k].value.parsed;
    var n := FirstVisit(order, k);
    WalkIndexes(r.walk, disk, order, force, n);
    WalkKeepsOnlyRow(r.walk, disk, order, force, n, p.cols, b);
    OnlyRowMatches(r.walk[n], disk, p.cols, b, p);
    AttachedFileKeepsShelves(r, s, disk, order, roots, force, b, n);
  }

  lemma TailIsWalk(walk: seq<Tables>, disk: Disk, order: seq<Key>, force: bool, n: nat)
    requires IsWalk(walk, disk, order, force) && n <= |order|
    ensures IsWalk(walk[n..], disk, order[n..], force)
  {
  }
}
