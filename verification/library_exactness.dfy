/** When one scan and when two leave exactly the on-disk files, judged from the tables
    before the scan. */
module LibraryExactness {
  import opened Wrappers
  import opened LibraryTables
  import opened LibraryDedup
  import opened LibraryScan
  import opened LibraryConvergence

  // ---------------------------------------------------------------------------
  // One scan
  // ---------------------------------------------------------------------------

  /** All files of a book with several are gone. */
  ghost predicate LostWithCopies(s: Tables, disk: Disk, b: BookId) {
    Vanished(s, disk.Keys, b) && LocsOf(s, b) != {}
  }

  /** Some file that is not indexed yet has b's title and author. */
  ghost predicate MayGainFile(s: Tables, disk: Disk, b: BookId)
    requires b in s.books
  {
    exists k :: k in disk && disk[k].Some? && k !in Keys(s) && IsWork(s.books[b].cols, disk[k].value.parsed)
  }

  predicate IsWork(cols: Columns, p: Parsed) {
    p.Readable? && p.cols.title != "" && p.cols.author != "" && SameWork(cols, p.cols)
  }

  /** The walk keeps every file's owner, and finds no file that is not on disk. */
  lemma WalkKeepsOwner(r: ScanRun, s: Tables, disk: Disk, order: seq<Key>, roots: seq<string>, force: bool,
                       b: BookId, x: Key)
    requires Valid(s) && IsScan(r, s, disk, order, roots, force)
    ensures Valid(r.walk[|order|])
    ensures Owns(s, b, x) ==> Owns(r.walk[|order|], b, x)
    ensures x !in disk ==> (Owns(s, b, x) <==> Owns(r.walk[|order|], b, x))
  {
    ScanStages(r, s, disk, order, roots, force);
    ValidIsPartition(s, x);
    ValidIsPartition(r.walk[|order|], x);
  }

  lemma OffDiskRowStays(r: ScanRun, s: Tables, disk: Disk, order: seq<Key>, roots: seq<string>, force: bool, b: BookId)
    requires Valid(s) && IsScan(r, s, disk, order, roots, force)
    ensures b in s.books && s.books[b].key !in disk
      ==> b in r.walk[|order|].books && r.walk[|order|].books[b] == s.books[b]
    ensures b in r.walk[|order|].books && r.walk[|order|].books[b].key !in disk ==>
      b in s.books && r.walk[|order|].books[b] == s.books[b]
  {
    WalkSparesUnseen(r.walk, disk, order, force, |order|);
  }

  /** A book that vanished by the end of the walk had vanished before it, and gained
      nothing. */
  lemma VanishedFromStart(r: ScanRun, s: Tables, disk: Disk, order: seq<Key>, roots: seq<string>, force: bool,
                          b: BookId)
    requires Valid(s) && IsScan(r, s, disk, order, roots, force)
    requires Vanished(r.walk[|order|], disk.Keys, b)
    ensures Vanished(s, disk.Keys, b) && LocsOf(r.walk[|order|], b) <= LocsOf(s, b)
  {
    var w := r.walk[|order|];
    assert Owns(w, b, w.books[b].key);
    OffDiskRowStays(r, s, disk, order, roots, force, b);
    forall k | Owns(s, b, k) ensures k !in disk.Keys {
      WalkKeepsOwner(r, s, disk, order, roots, force, b, k);
    }
    forall l | l in LocsOf(w, b) ensures l in LocsOf(s, b) {
      assert Owns(w, b, l);
      WalkKeepsOwner(r, s, disk, order, roots, force, b, l);
    }
  }

  lemma CopiesStay(r: ScanRun, s: Tables, disk: Disk, order: seq<Key>, roots: seq<string>, force: bool, b: BookId)
    requires Valid(s) && IsScan(r, s, disk, order, roots, force) && LostWithCopies(s, disk, b)
    ensures b in r.walk[|order|].books && LocsOf(r.walk[|order|], b) != {}
  {
    var w := r.walk[|order|];
    assert Owns(s, b, s.books[b].key);
    OffDiskRowStays(r, s, disk, order, roots, force, b);
    var l :| l in LocsOf(s, b);
    assert Owns(s, b, l);
    WalkKeepsOwner(r, s, disk, order, roots, force, b, l);
    assert l in LocsOf(w, b);
  }

  /** One scan leaves exactly the on-disk files if no book with copies has lost all. */
  lemma OneScanSuffices(r: ScanRun, s: Tables, disk: Disk, order: seq<Key>, roots: seq<string>, force: bool)
    requires Valid(s) && IsScan(r, s, disk, order, roots, force)
    requires forall b :: !LostWithCopies(s, disk, b)
    ensures Keys(r.final) <= disk.Keys
  {
    var w := r.walk[|order|];
    forall b | Vanished(w, disk.Keys, b) ensures LocsOf(w, b) == {} {
      VanishedFromStart(r, s, disk, order, roots, force, b);
      assert !LostWithCopies(s, disk, b);
    }
    ScanIsExactIff(r, s, disk, order, roots, force);
  }

  lemma VisitAttachesWork(s: Tables, disk: Disk, k: Key, force: bool, t: Tables, b: BookId)
    requires Valid(s) && k in disk && Visited(s, disk, k, force, t) && k !in Keys(s)
    requires b in s.books && Owns(t, b, k)
    ensures disk[k].Some? && IsWork(s.books[b].cols, disk[k].value.parsed)
  {
    VisitAddsItsKey(s, disk, k, force, t);
    KeysAreOwned(t);
    KeysAreOwned(s);
    var c := UpsertNewKey(s, k, disk[k].value, force, t);
    assert c == b;
  }

  /** A file that the walk gives to a book it found has that book's title and author. */
  lemma {:induction false} GainedFileIsWork(walk: seq<Tables>, disk: Disk, order: seq<Key>, force: bool, n: nat,
                                            b: BookId, x: Key)
    requires IsWalk(walk, disk, order, force) && n <= |order| && Valid(walk[0])
    requires b in walk[0].books && walk[0].books[b].key !in disk
    requires Owns(walk[n], b, x) && x !in Keys(walk[0])
    ensures x in disk && disk[x].Some? && IsWork(walk[0].books[b].cols, disk[x].value.parsed)
  {
    KeysAreOwned(walk[0]);
    if n > 0 {
      WalkIndexes(walk, disk, order, force, n - 1);
      WalkSparesUnseen(walk, disk, order, force, n - 1);
      GainedFileStep(walk, disk, order, force, n - 1, b, x);
      if x in Keys(walk[n - 1]) {
        GainedFileIsWork(walk, disk, order, force, n - 1, b, x);
      }
    }
  }

  lemma GainedFileStep(walk: seq<Tables>, disk: Disk, order: seq<Key>, force: bool, n: nat, b: BookId, x: Key)
    requires IsWalk(walk, disk, order, force) && n < |order| && Valid(walk[n])
    requires b in walk[n].books && Owns(walk[n + 1], b, x)
    ensures x in Keys(walk[n]) ==> Owns(walk[n], b, x)
    ensures x !in Keys(walk[n]) ==>
      x in disk && disk[x].Some? && IsWork(walk[n].books[b].cols, disk[x].value.parsed)
  {
    VisitAddsItsKey(walk[n], disk, order[n], force, walk[n + 1]);
    KeysAreOwned(walk[n + 1]);
    if x !in Keys(walk[n]) {
      VisitAttachesWork(walk[n], disk, x, force, walk[n + 1], b);
    }
  }

  /** A lost book with copies leaves a stale key unless a new file of its title and author
      turns up. */
  lemma LostBookNeedsNewFile(r: ScanRun, s: Tables, disk: Disk, order: seq<Key>, roots: seq<string>,
                             force: bool, b: BookId)
    requires Valid(s) && IsScan(r, s, disk, order, roots, force) && LostWithCopies(s, disk, b)
    requires Keys(r.final) <= disk.Keys
    ensures MayGainFile(s, disk, b)
  {
    var w := r.walk[|order|];
    ScanIsExactIff(r, s, disk, order, roots, force);
    CopiesStay(r, s, disk, order, roots, force, b);
    assert !Vanished(w, disk.Keys, b);
    var x :| Owns(w, b, x) && x in disk.Keys;
    ScanStages(r, s, disk, order, roots, force);
    assert Owns(s, b, s.books[b].key);
    if x in Keys(s) {
      assert Owns(s, b, x);
    }
    GainedFileIsWork(r.walk, disk, order, force, |order|, b, x);
  }

  /** Unless a new file may have come to a lost book's rescue, one scan leaves exactly the
      on-disk files if and only if no book with copies has lost all of them. */
  lemma OneScanIsExactIff(r: ScanRun, s: Tables, disk: Disk, order: seq<Key>, roots: seq<string>, force: bool)
    requires Valid(s) && IsScan(r, s, disk, order, roots, force)
    requires forall b | LostWithCopies(s, disk, b) :: !MayGainFile(s, disk, b)
    ensures Keys(r.final) <= disk.Keys <==> forall b :: !LostWithCopies(s, disk, b)
  {
    if forall b :: !LostWithCopies(s, disk, b) {
      OneScanSuffices(r, s, disk, order, roots, force);
    }
    if b :| LostWithCopies(s, disk, b) && Keys(r.final) <= disk.Keys {
      LostBookNeedsNewFile(r, s, disk, order, roots, force, b);
    }
  }

  /** When every file that can be read is indexed already, the scan finds no new file and
      the condition is exact. */
  lemma KnownFilesScanIsExactIff(r: ScanRun, s: Tables, disk: Disk, order: seq<Key>, roots: seq<string>, force: bool)
    requires Valid(s) && IsScan(r, s, disk, order, roots, force)
    requires forall k | k in disk && disk[k].Some? :: k in Keys(s)
    ensures Keys(r.final) <= disk.Keys <==> forall b :: !LostWithCopies(s, disk, b)
  {
    OneScanIsExactIff(r, s, disk, order, roots, force);
  }

  // ---------------------------------------------------------------------------
  // Two scans
  // ---------------------------------------------------------------------------

  /** After one scan every file that can be read is known, so the second is exact if and
      only if no book with copies is lost in the tables between the two. */
  lemma SecondScanIsExactIff(r1: ScanRun, r2: ScanRun, s: Tables, disk: Disk, o1: seq<Key>, o2: seq<Key>,
                             roots: seq<string>, f1: bool, f2: bool)
    requires Valid(s) && IsScan(r1, s, disk, o1, roots, f1) && IsScan(r2, r1.final, disk, o2, roots, f2)
    ensures Keys(r2.final) <= disk.Keys <==> forall b :: !LostWithCopies(r1.final, disk, b)
  {
    ScanStaysValid(r1, s, disk, o1, roots, f1);
    forall k | k in disk && disk[k].Some? ensures k in Keys(r1.final) {
      ScanIndexesDisk(r1, s, disk, o1, roots, f1, k);
    }
    KnownFilesScanIsExactIff(r2, r1.final, disk, o2, roots, f2);
  }

  /** Two rows of one title group, all of whose canonical files are off the disk. */
  ghost predicate LostGroup(p: Tables, disk: Disk, a: BookId, b: BookId) {
    && a in p.books && b in p.books && a != b && SameGroup(p, a, b)
    && forall c | c in p.books && SameGroup(p, a, c) :: p.books[c].key !in disk
  }

  lemma ConsolidatedOwner(p: Tables, roots: seq<string>, t: Tables, a: BookId, x: Key) returns (d: BookId)
    requires Valid(p) && Consolidated(p, roots, t) && Owns(p, a, x)
    ensures Owns(t, d, x) && d in p.books && SameGroup(p, a, d)
  {
    ConsolidationTheorem(p, roots, t);
    d :| Owns(t, d, x) && d in p.books && SameGroup(p, a, d);
  }

  lemma OneSurvivor(p: Tables, roots: seq<string>, t: Tables, c: BookId, d: BookId)
    requires Valid(p) && Consolidated(p, roots, t) && c in t.books && d in t.books
    requires c in p.books && d in p.books && SameGroup(p, c, d)
    ensures c == d
  {
    ConsolidationTheorem(p, roots, t);
    assert SameGroup(t, c, d);
  }

  lemma SurvivorOfFile(p: Tables, roots: seq<string>, t: Tables, a: BookId, x: Key, c: BookId)
    requires Valid(p) && Consolidated(p, roots, t) && Owns(p, a, x) && c in t.books
    requires c in p.books && SameGroup(p, a, c)
    ensures Owns(t, c, x)
  {
    var d := ConsolidatedOwner(p, roots, t, a, x);
    SameGroupJoins(p, c, d, a);
    OneSurvivor(p, roots, t, c, d);
  }

  lemma ConsolidationKeepsKeys(p: Tables, roots: seq<string>, t: Tables)
    requires Valid(p) && Consolidated(p, roots, t)
    ensures Valid(t) && Keys(t) == Keys(p)
  {
    ConsolidationTheorem(p, roots, t);
  }

  lemma OriginOfFile(p: Tables, roots: seq<string>, t: Tables, c: BookId, x: Key) returns (a: BookId)
    requires Valid(p) && Consolidated(p, roots, t) && Owns(t, c, x)
    ensures Owns(p, a, x) && c in p.books && SameGroup(p, a, c)
  {
    ConsolidationKeepsKeys(p, roots, t);
    ValidIsPartition(t, x);
    ValidIsPartition(p, x);
    a :| Owns(p, a, x);
    var d := ConsolidatedOwner(p, roots, t, a, x);
  }

  lemma LostRowHasOneFile(r: ScanRun, s: Tables, disk: Disk, order: seq<Key>, roots: seq<string>, force: bool,
                          c: BookId, x: Key)
    requires Valid(s) && IsScan(r, s, disk, order, roots, force)
    requires c in r.pruned.books && r.pruned.books[c].key !in disk && Owns(r.pruned, c, x)
    ensures x !in disk && x == r.pruned.books[c].key
  {
    var w := r.walk[|order|];
    ScanStages(r, s, disk, order, roots, force);
    PrunedRowIsOwned(w, disk.Keys, r.pruned, c);
    PruneOwners(w, disk.Keys, r.pruned, c, x);
  }

  lemma LostBookIsLostGroup(r: ScanRun, s: Tables, disk: Disk, order: seq<Key>, roots: seq<string>, force: bool,
                            c: BookId)
    returns (a: BookId, b: BookId)
    requires Valid(s) && IsScan(r, s, disk, order, roots, force) && LostWithCopies(r.final, disk, c)
    ensures LostGroup(r.pruned, disk, a, b)
  {
    var p, t := r.pruned, r.final;
    ScanStages(r, s, disk, order, roots, force);
    var k := t.books[c].key;
    var l :| l in LocsOf(t, c);
    assert Owns(t, c, k) && Owns(t, c, l);
    StaleKeyOrigin(r, s, disk, order, roots, force, c, k);
    StaleKeyOrigin(r, s, disk, order, roots, force, c, l);
    a :| IsRow(p, a, k) && c in p.books && SameGroup(p, a, c);
    b :| IsRow(p, b, l) && SameGroup(p, b, c);
    SameGroupJoins(p, a, b, c);
    forall d | d in p.books && SameGroup(p, a, d) ensures p.books[d].key !in disk {
      assert Owns(p, d, p.books[d].key) && SameGroup(p, d, c);
      SurvivorOfFile(p, roots, t, d, p.books[d].key, c);
    }
  }

  lemma TwoFilesMakeACopy(t: Tables, c: BookId, ka: Key, kb: Key)
    requires Owns(t, c, ka) && Owns(t, c, kb) && ka != kb
    ensures LocsOf(t, c) != {}
  {
    assert ka in LocsOf(t, c) || kb in LocsOf(t, c);
  }

  lemma LostGroupOwner(p: Tables, roots: seq<string>, t: Tables, disk: Disk, a: BookId, b: BookId) returns (c: BookId)
    requires Valid(p) && Consolidated(p, roots, t) && LostGroup(p, disk, a, b)
    ensures c in t.books && LocsOf(t, c) != {} && c in p.books && SameGroup(p, a, c)
  {
    var ka, kb := p.books[a].key, p.books[b].key;
    assert Owns(p, a, ka) && Owns(p, b, kb);
    c := ConsolidatedOwner(p, roots, t, a, ka);
    SurvivorOfFile(p, roots, t, b, kb, c);
    TwoFilesMakeACopy(t, c, ka, kb);
  }

  lemma LostGroupIsLostBook(r: ScanRun, s: Tables, disk: Disk, order: seq<Key>, roots: seq<string>, force: bool,
                            a: BookId, b: BookId)
    returns (c: BookId)
    requires Valid(s) && IsScan(r, s, disk, order, roots, force) && LostGroup(r.pruned, disk, a, b)
    ensures LostWithCopies(r.final, disk, c)
  {
    var p, t := r.pruned, r.final;
    PruneKeepsValidOf(r, s, disk, order, roots, force);
    c := LostGroupOwner(p, roots, t, disk, a, b);
    forall x | Owns(t, c, x) ensures x !in disk.Keys {
      var d := OriginOfFile(p, roots, t, c, x);
      SameGroupJoins(p, a, d, c);
      LostRowHasOneFile(r, s, disk, order, roots, force, d, x);
    }
  }

  lemma PruneKeepsValidOf(r: ScanRun, s: Tables, disk: Disk, order: seq<Key>, roots: seq<string>, force: bool)
    requires Valid(s) && IsScan(r, s, disk, order, roots, force)
    ensures Valid(r.pruned)
  {
    ScanStages(r, s, disk, order, roots, force);
  }

  /** Two scans leave exactly the on-disk files if and only if pruning in the first one
      left no title group of several rows with every file off the disk. */
  lemma TwoScansAreExactIff(r1: ScanRun, r2: ScanRun, s: Tables, disk: Disk, o1: seq<Key>, o2: seq<Key>,
                            roots: seq<string>, f1: bool, f2: bool)
    requires Valid(s) && IsScan(r1, s, disk, o1, roots, f1) && IsScan(r2, r1.final, disk, o2, roots, f2)
    ensures Keys(r2.final) <= disk.Keys <==> !exists a, b :: LostGroup(r1.pruned, disk, a, b)
  {
    SecondScanIsExactIff(r1, r2, s, disk, o1, o2, roots, f1, f2);
    if c :| LostWithCopies(r1.final, disk, c) {
      var a, b := LostBookIsLostGroup(r1, s, disk, o1, roots, f1, c);
    }
    if a, b :| LostGroup(r1.pruned, disk, a, b) {
      var c := LostGroupIsLostBook(r1, s, disk, o1, roots, f1, a, b);
    }
  }

  lemma LostRowHadCopies(r: ScanRun, s: Tables, disk: Disk, order: seq<Key>, roots: seq<string>, force: bool, b: BookId)
    requires Valid(s) && IsScan(r, s, disk, order, roots, force)
    requires b in r.pruned.books && r.pruned.books[b].key !in disk
    ensures LostWithCopies(s, disk, b) && s.books[b].cols == r.pruned.books[b].cols
  {
    var w := r.walk[|order|];
    WalkKeepsOwner(r, s, disk, order, roots, force, b, r.pruned.books[b].key);
    PruneLeavesGhostsIff(w, disk.Keys, r.pruned, b);
    VanishedFromStart(r, s, disk, order, roots, force, b);
    LostRowKeepsColumns(r, s, disk, order, roots, force, b);
  }

  /** Judged from the start: two scans leave exactly the on-disk files unless two books of
      one title and author have each lost several files. */
  lemma TwoScansSuffice(r1: ScanRun, r2: ScanRun, s: Tables, disk: Disk, o1: seq<Key>, o2: seq<Key>,
                        roots: seq<string>, f1: bool, f2: bool)
    requires Valid(s) && IsScan(r1, s, disk, o1, roots, f1) && IsScan(r2, r1.final, disk, o2, roots, f2)
    requires forall a, b | a != b && LostWithCopies(s, disk, a) && LostWithCopies(s, disk, b) :: !SameGroup(s, a, b)
    ensures Keys(r2.final) == set k | k in disk && Indexable(s, disk, k)
  {
    if a, b :| LostGroup(r1.pruned, disk, a, b) {
      assert SameGroup(r1.pruned, a, a);
      LostRowHadCopies(r1, s, disk, o1, roots, f1, a);
      LostRowHadCopies(r1, s, disk, o1, roots, f1, b);
      assert SameGroup(s, a, b);
    }
    TwoScansAreExactIff(r1, r2, s, disk, o1, o2, roots, f1, f2);
    ScanStaysValid(r1, s, disk, o1, roots, f1);
    forall k ensures k in Keys(r2.final) <==> k in disk && Indexable(s, disk, k) {
      ScanIndexesDisk(r1, s, disk, o1, roots, f1, k);
      ScanIndexesDisk(r2, r1.final, disk, o2, roots, f2, k);
    }
  }
}
