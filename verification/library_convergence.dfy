/** Repeated scans of an unchanging library. */
module LibraryConvergence {
  import opened Wrappers
  import opened LibraryTables
  import opened LibraryDedup
  import opened LibraryScan

  // ---------------------------------------------------------------------------
  // Stale keys die out
  // ---------------------------------------------------------------------------

  /** Two rows of one title group whose canonical files are both gone. */
  ghost predicate LostTwins(s: Tables, disk: Disk, a: BookId, b: BookId) {
    && a in s.books && b in s.books && a != b
    && s.books[a].key !in disk && s.books[b].key !in disk
    && SameGroup(s, a, b)
  }

  lemma LostRowKeepsColumns(r: ScanRun, s: Tables, disk: Disk, order: seq<Key>, roots: seq<string>, force: bool,
                            b: BookId)
    requires Valid(s) && IsScan(r, s, disk, order, roots, force)
    requires b in r.pruned.books && r.pruned.books[b].key !in disk
    ensures b in s.books && s.books[b].key !in disk && s.books[b].cols == r.pruned.books[b].cols
  {
    var w := r.walk[|order|];
    WalkSparesUnseen(r.walk, disk, order, force, |order|);
    assert PrunedRow(w, disk.Keys, b, r.pruned.books[b]);
  }

  /** A stale key that a scan leaves as a book's file was that book's promoted file or that
      of a twin merged into it. */
  lemma StaleKeyOrigin(r: ScanRun, s: Tables, disk: Disk, order: seq<Key>, roots: seq<string>, force: bool,
                       c: BookId, k: Key)
    requires Valid(s) && IsScan(r, s, disk, order, roots, force)
    requires Owns(r.final, c, k) && k !in disk
    ensures exists b :: IsRow(r.pruned, b, k) && c in r.pruned.books && SameGroup(r.pruned, b, c)
  {
    ScanStages(r, s, disk, order, roots, force);
    ConsolidationTheorem(r.pruned, roots, r.final);
    ValidIsPartition(r.final, k);
    ValidIsPartition(r.pruned, k);
    var b :| Owns(r.pruned, b, k);
    PruneOwners(r.walk[|order|], disk.Keys, r.pruned, b, k);
    var d :| Owns(r.final, d, k) && d in r.pruned.books && SameGroup(r.pruned, b, d);
  }

  lemma SameGroupJoins(s: Tables, a: BookId, b: BookId, c: BookId)
    requires a in s.books && b in s.books && c in s.books
    requires SameGroup(s, a, c) && SameGroup(s, b, c)
    ensures SameGroup(s, a, b)
  {
  }

  lemma TwoStaleKeysAreTwins(r: ScanRun, s: Tables, disk: Disk, order: seq<Key>, roots: seq<string>, force: bool,
                             c: BookId, k: Key, l: Key)
    requires Valid(s) && IsScan(r, s, disk, order, roots, force)
    requires Owns(r.final, c, k) && k !in disk && Owns(r.final, c, l) && l !in disk && k != l
    ensures exists a, b :: LostTwins(s, disk, a, b)
  {
    StaleKeyOrigin(r, s, disk, order, roots, force, c, k);
    StaleKeyOrigin(r, s, disk, order, roots, force, c, l);
    var a :| IsRow(r.pruned, a, k) && c in r.pruned.books && SameGroup(r.pruned, a, c);
    var b :| IsRow(r.pruned, b, l) && SameGroup(r.pruned, b, c);
    SameGroupJoins(r.pruned, a, b, c);
    LostRowKeepsColumns(r, s, disk, order, roots, force, a);
    LostRowKeepsColumns(r, s, disk, order, roots, force, b);
    assert LostTwins(s, disk, a, b);
  }

  lemma ScanStaysValid(r: ScanRun, s: Tables, disk: Disk, order: seq<Key>, roots: seq<string>, force: bool)
    requires Valid(s) && IsScan(r, s, disk, order, roots, force)
    ensures Valid(r.final)
  {
    ScanStages(r, s, disk, order, roots, force);
  }

  /** A book that vanished by the second walk has no copy left to promote. */
  lemma SecondWalkHasNoCopies(r1: ScanRun, r2: ScanRun, s: Tables, disk: Disk, o1: seq<Key>, o2: seq<Key>,
                              roots: seq<string>, f1: bool, f2: bool)
    requires Valid(s) && IsScan(r1, s, disk, o1, roots, f1) && IsScan(r2, r1.final, disk, o2, roots, f2)
    requires !exists a, b :: LostTwins(s, disk, a, b)
    ensures var w := r2.walk[|o2|]; forall b | Vanished(w, disk.Keys, b) :: LocsOf(w, b) == {}
  {
    ScanStaysValid(r1, s, disk, o1, roots, f1);
    ScanStages(r2, r1.final, disk, o2, roots, f2);
    var w := r2.walk[|o2|];
    forall b | Vanished(w, disk.Keys, b) ensures LocsOf(w, b) == {} {
      if l :| l in LocsOf(w, b) {
        var k := w.books[b].key;
        assert Owns(w, b, k) && Owns(w, b, l);
        ValidIsPartition(w, k);
        ValidIsPartition(w, l);
        TwoStaleKeysAreTwins(r1, s, disk, o1, roots, f1, b, k, l);
      }
    }
  }

  /** Two scans leave exactly the on-disk files unless the start had two rows of the same
      title and author whose files are both gone. */
  lemma TwoScansConverge(r1: ScanRun, r2: ScanRun, s: Tables, disk: Disk, o1: seq<Key>, o2: seq<Key>,
                         roots: seq<string>, f1: bool, f2: bool)
    requires Valid(s) && IsScan(r1, s, disk, o1, roots, f1) && IsScan(r2, r1.final, disk, o2, roots, f2)
    requires !exists a, b :: LostTwins(s, disk, a, b)
    ensures Keys(r2.final) == set k | k in disk && Indexable(s, disk, k)
  {
    ScanStaysValid(r1, s, disk, o1, roots, f1);
    var t := r1.final;
    SecondWalkHasNoCopies(r1, r2, s, disk, o1, o2, roots, f1, f2);
    ScanIsExactIff(r2, t, disk, o2, roots, f2);
    forall k ensures k in Keys(r2.final) <==> k in disk && Indexable(s, disk, k) {
      ScanIndexesDisk(r1, s, disk, o1, roots, f1, k);
      ScanIndexesDisk(r2, t, disk, o2, roots, f2, k);
    }
  }

  /** Three scans, forced or not, visiting in any order, always suffice. */
  lemma ThreeScansConverge(r1: ScanRun, r2: ScanRun, r3: ScanRun, s: Tables, disk: Disk,
                           o1: seq<Key>, o2: seq<Key>, o3: seq<Key>, roots: seq<string>, f1: bool, f2: bool, f3: bool)
    requires Valid(s) && IsScan(r1, s, disk, o1, roots, f1)
    requires IsScan(r2, r1.final, disk, o2, roots, f2) && IsScan(r3, r2.final, disk, o3, roots, f3)
    ensures Keys(r3.final) == set k | k in disk && Indexable(s, disk, k)
  {
    ScanStages(r1, s, disk, o1, roots, f1);
    TwoScansConverge(r2, r3, r1.final, disk, o2, o3, roots, f2, f3);
    forall k | k in disk ensures Indexable(r1.final, disk, k) <==> Indexable(s, disk, k) {
      ScanIndexesDisk(r1, s, disk, o1, roots, f1, k);
    }
  }

  // ---------------------------------------------------------------------------
  // When a scan changes nothing
  // ---------------------------------------------------------------------------

  /** Nothing stale, everything current, no duplicate. */
  ghost predicate Settled(s: Tables, disk: Disk) {
    && Keys(s) <= disk.Keys
    && (forall k | k in disk && disk[k].Some? :: HasStat(s, k, disk[k].value.stat))
    && NoDuplicates(s)
  }

  lemma PruneKeepsStats(w: Tables, seen: set<Key>, p: Tables, k: Key, st: Stat)
    requires Valid(w) && Pruned(w, seen, p) && k in seen && HasStat(w, k, st)
    ensures HasStat(p, k, st)
  {
  }

  lemma ConsolidationKeepsStats(s: Tables, roots: seq<string>, t: Tables, k: Key, st: Stat)
    requires Valid(s) && Consolidated(s, roots, t) && HasStat(s, k, st)
    ensures HasStat(t, k, st)
  {
  }

  lemma ScanRecordsStats(r: ScanRun, s: Tables, disk: Disk, order: seq<Key>, roots: seq<string>, force: bool, k: Key)
    requires Valid(s) && IsScan(r, s, disk, order, roots, force) && k in disk && disk[k].Some?
    ensures HasStat(r.final, k, disk[k].value.stat)
  {
    ScanStages(r, s, disk, order, roots, force);
    var i := FirstVisit(order, k);
    WalkRecordsStats(r.walk, disk, order, force, |order|, i);
    PruneKeepsStats(r.walk[|order|], disk.Keys, r.pruned, k, disk[k].value.stat);
    ConsolidationKeepsStats(r.pruned, roots, r.final, k, disk[k].value.stat);
  }

  lemma VisitOfCurrentFileIsIdle(s: Tables, disk: Disk, k: Key, t: Tables)
    requires Valid(s) && k in disk && Visited(s, disk, k, false, t)
    requires disk[k].Some? ==> HasStat(s, k, disk[k].value.stat)
    ensures t == s
  {
  }

  lemma {:induction false} SettledWalkIsIdle(walk: seq<Tables>, disk: Disk, order: seq<Key>, n: nat)
    requires IsWalk(walk, disk, order, false) && n <= |order| && Valid(walk[0]) && Settled(walk[0], disk)
    ensures walk[n] == walk[0]
  {
    if n > 0 {
      SettledWalkIsIdle(walk, disk, order, n - 1);
      VisitOfCurrentFileIsIdle(walk[n - 1], disk, order[n - 1], walk[n]);
    }
  }

  lemma SettledPruneIsIdle(s: Tables, seen: set<Key>, p: Tables)
    requires Valid(s) && Keys(s) <= seen && Pruned(s, seen, p)
    ensures p == s
  {
    assert forall b | b in s.books :: s.books[b].key in Keys(s);
    forall b | b in s.books ensures b in p.books && p.books[b] == s.books[b] {
      assert b in p.books;
      assert PrunedRow(s, seen, b, p.books[b]);
    }
    assert forall b | b in p.books :: b in s.books;
    assert p.books == s.books;
    assert forall k | k in s.locs :: k in Keys(s) && !IsRow(p, s.locs[k].book, k);
    assert p.locs == s.locs;
  }

  /** An unforced scan changes no row exactly when the index is settled. */
  lemma ScanIsIdleIff(r: ScanRun, s: Tables, disk: Disk, order: seq<Key>, roots: seq<string>)
    requires Valid(s) && IsScan(r, s, disk, order, roots, false)
    ensures r.final == s <==> Settled(s, disk)
  {
    if Settled(s, disk) {
      SettledWalkIsIdle(r.walk, disk, order, |order|);
      SettledPruneIsIdle(s, disk.Keys, r.pruned);
      ConsolidationIdleIff(s, roots, r.final);
    }
    if r.final == s {
      ScanStages(r, s, disk, order, roots, false);
      forall k | k in disk && disk[k].Some? ensures HasStat(s, k, disk[k].value.stat) {
        ScanRecordsStats(r, s, disk, order, roots, false, k);
      }
      if k :| k in Keys(s) && k !in disk {
        StaleKeyMakesProgress(r, s, disk, order, roots, k);
        assert false;
      }
    }
  }

  /** A scan that leaves a stale key indexed has dropped another one. */
  lemma StaleKeyMakesProgress(r: ScanRun, s: Tables, disk: Disk, order: seq<Key>, roots: seq<string>, k: Key)
    requires Valid(s) && IsScan(r, s, disk, order, roots, false)
    requires k in Keys(s) && k !in disk
    ensures exists l :: l in Keys(s) && l !in Keys(r.final)
  {
    if k in Keys(r.final) {
      ScanIndexesDisk(r, s, disk, order, roots, false, k);
      var w := r.walk[|order|];
      var b :| IsRow(r.pruned, b, k) && Owns(s, b, k) && Vanished(w, disk.Keys, b);
      var l := w.books[b].key;
      assert PrunedRow(w, disk.Keys, b, r.pruned.books[b]);
      LostRowKeepsKey(r, s, disk, order, roots, b);
      if l in Keys(r.final) {
        OneStaleKeyPerBook(r, s, disk, order, roots, false, b, k, l);
        ScanStages(r, s, disk, order, roots, false);
      }
      KeysAreOwned(s);
    }
  }

  lemma LostRowKeepsKey(r: ScanRun, s: Tables, disk: Disk, order: seq<Key>, roots: seq<string>, b: BookId)
    requires Valid(s) && IsScan(r, s, disk, order, roots, false)
    requires Vanished(r.walk[|order|], disk.Keys, b)
    ensures Owns(s, b, r.walk[|order|].books[b].key) && r.walk[|order|].books[b].key !in disk
  {
    var w := r.walk[|order|];
    assert Owns(w, b, w.books[b].key);
    WalkSparesUnseen(r.walk, disk, order, false, |order|);
  }

  /** After three scans, forced or not, every further scan leaves the tables as they are. */
  lemma FourthScanIsIdle(r1: ScanRun, r2: ScanRun, r3: ScanRun, r4: ScanRun, s: Tables, disk: Disk,
                         o1: seq<Key>, o2: seq<Key>, o3: seq<Key>, o4: seq<Key>,
                         roots: seq<string>, f1: bool, f2: bool, f3: bool)
    requires Valid(s) && IsScan(r1, s, disk, o1, roots, f1) && IsScan(r2, r1.final, disk, o2, roots, f2)
    requires IsScan(r3, r2.final, disk, o3, roots, f3) && IsScan(r4, r3.final, disk, o4, roots, false)
    ensures r4.final == r3.final
  {
    ScanStages(r1, s, disk, o1, roots, f1);
    ScanStages(r2, r1.final, disk, o2, roots, f2);
    ScanStages(r3, r2.final, disk, o3, roots, f3);
    ThreeScansConverge(r1, r2, r3, s, disk, o1, o2, o3, roots, f1, f2, f3);
    forall k | k in disk && disk[k].Some? ensures HasStat(r3.final, k, disk[k].value.stat) {
      ScanRecordsStats(r3, r2.final, disk, o3, roots, f3, k);
    }
    ScanIsIdleIff(r4, r3.final, disk, o4, roots);
  }
}
