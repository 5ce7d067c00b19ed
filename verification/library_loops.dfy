/** What the loops of pruneMissing and ConsolidateDuplicateTitles have done so far. */
module LibraryLoops {
  import opened LibraryTables
  import opened LibraryDedup
  import opened LibraryScan
  import opened LibraryOrder

  // ---------------------------------------------------------------------------
  // pruneMissing
  // ---------------------------------------------------------------------------

  /** w with the books in done handled by removeCanonicalFile. */
  ghost predicate PruneProgress(w: Tables, seen: set<Key>, done: set<BookId>, s: Tables) {
    && (forall b :: b in s.books <==> b in w.books && (b !in done || LocsOf(w, b) != {}))
    && (forall b | b in s.books :: if b in done then PrunedRow(w, seen, b, s.books[b]) else s.books[b] == w.books[b])
    && (forall k :: k in s.locs <==> k in w.locs && !(w.locs[k].book in done && IsRow(s, w.locs[k].book, k)))
    && (forall k | k in s.locs :: s.locs[k] == w.locs[k])
    && s.shelved == w.shelved && s.isbn == w.isbn && s.nextId == w.nextId
  }

  ghost predicate Stale(w: Tables, seen: set<Key>, b: BookId) {
    b in w.books && w.books[b].key !in seen
  }

  ghost function StaleBooks(w: Tables, seen: set<Key>): (r: set<BookId>)
    ensures forall b :: b in r <==> Stale(w, seen, b)
  {
    set b | b in w.books && w.books[b].key !in seen
  }

  lemma PruneStepDeletes(w: Tables, seen: set<Key>, done: set<BookId>, s: Tables, b: BookId, t: Tables)
    requires Valid(w) && PruneProgress(w, seen, done, s)
    requires Stale(w, seen, b) && b !in done && LocsOf(w, b) == {} && t == s.(books := s.books - {b})
    ensures PruneProgress(w, seen, done + {b}, t)
  {
    assert forall k | k in w.locs && w.locs[k].book == b :: k in LocsOf(w, b);
  }

  lemma PromotedLocs(w: Tables, seen: set<Key>, done: set<BookId>, s: Tables, b: BookId, k: Key, t: Tables)
    requires Valid(w) && PruneProgress(w, seen, done, s)
    requires Stale(w, seen, b) && b !in done && k in LocsOf(w, b)
    requires t == s.(books := s.books[b := s.books[b].(key := k, stat := s.locs[k].stat)], locs := s.locs - {k})
    ensures forall l :: l in t.locs <==> l in w.locs && !(w.locs[l].book in done + {b} && IsRow(t, w.locs[l].book, l))
  {
    forall l ensures l in t.locs <==> l in w.locs && !(w.locs[l].book in done + {b} && IsRow(t, w.locs[l].book, l)) {
      if l in w.locs {
        var c := w.locs[l].book;
        assert c != b ==> (IsRow(t, c, l) <==> IsRow(s, c, l));
      }
    }
  }

  lemma PruneStepPromotes(w: Tables, seen: set<Key>, done: set<BookId>, s: Tables, b: BookId, k: Key, t: Tables)
    requires Valid(w) && PruneProgress(w, seen, done, s)
    requires Stale(w, seen, b) && b !in done && Promotes(w, b, seen, k)
    requires t == s.(books := s.books[b := s.books[b].(key := k, stat := s.locs[k].stat)], locs := s.locs - {k})
    ensures PruneProgress(w, seen, done + {b}, t)
  {
    assert PrunedRow(w, seen, b, t.books[b]);
    PromotedLocs(w, seen, done, s, b, k, t);
  }

  lemma UntouchedLocations(w: Tables, seen: set<Key>, done: set<BookId>, s: Tables, b: BookId)
    requires PruneProgress(w, seen, done, s) && b !in done
    ensures LocsOf(s, b) == LocsOf(w, b)
    ensures forall k :: Promotes(s, b, seen, k) <==> Promotes(w, b, seen, k)
  {
  }

  lemma PruneStep(w: Tables, seen: set<Key>, done: set<BookId>, s: Tables, b: BookId, t: Tables)
    requires Valid(w) && Valid(s) && PruneProgress(w, seen, done, s)
    requires Stale(w, seen, b) && b !in done && Removed(s, b, seen, t)
    ensures PruneProgress(w, seen, done + {b}, t) && Valid(t)
  {
    UntouchedLocations(w, seen, done, s, b);
    assert b in s.books;
    RemoveDropsItsKey(s, b, seen, t);
    if LocsOf(s, b) == {} {
      PruneStepDeletes(w, seen, done, s, b, t);
    } else {
      var k :| Promotes(s, b, seen, k) && t == Promoted(s, b, k);
      PromotionDropsKey(s, b, k, t);
      PruneStepPromotes(w, seen, done, s, b, k, t);
    }
  }

  lemma OneMoreDone(all: set<BookId>, stale: set<BookId>, done: set<BookId>, b: BookId)
    requires stale <= all && done == all - stale && b in stale
    ensures done + {b} == all - (stale - {b})
  {
  }

  lemma PruneDone(w: Tables, seen: set<Key>, done: set<BookId>, s: Tables, p: Tables)
    requires Valid(w) && PruneProgress(w, seen, done, s)
    requires forall b :: b in done <==> Stale(w, seen, b)
    requires p.books == s.books && p.shelved == s.shelved && p.isbn == s.isbn && p.nextId == s.nextId
    requires forall k :: k in p.locs <==> k in s.locs && k in seen
    requires forall k | k in p.locs :: p.locs[k] == s.locs[k]
    ensures Pruned(w, seen, p)
  {
  }

  // ---------------------------------------------------------------------------
  // ConsolidateDuplicateTitles
  // ---------------------------------------------------------------------------

  lemma PrecedesOrders(s: Tables, roots: seq<string>, a: BookId, b: BookId, c: BookId)
    requires a in s.books && b in s.books && c in s.books
    ensures a == b || Precedes(s, roots, a, b) || Precedes(s, roots, b, a)
    ensures Precedes(s, roots, a, b) && Precedes(s, roots, b, c) ==> Precedes(s, roots, a, c)
  {
  }

  /** No row before i of the listing shares a group with one from i on. */
  ghost predicate GroupStart(s: Tables, all: seq<BookId>, i: nat)
    requires Listed(s, all) && i <= |all|
  {
    forall x, y | 0 <= x < i <= y < |all| :: !SameGroup(s, all[x], all[y])
  }

  /** The groups before i point at their least member. */
  ghost predicate GroupsDone(s: Tables, roots: seq<string>, all: seq<BookId>, i: nat, rep: map<BookId, BookId>)
    requires Listed(s, all) && i <= |all| && rep.Keys == s.books.Keys
  {
    forall x | 0 <= x < i :: IsLeast(s, roots, all[x], rep[all[x]])
  }

  /** The rows from i to m - 1, all of one group, point at keep, the least of them. */
  ghost predicate GroupFolded(s: Tables, roots: seq<string>, all: seq<BookId>, i: nat, m: nat, keep: BookId,
                              rep: map<BookId, BookId>)
    requires Listed(s, all) && i < m <= |all| && rep.Keys == s.books.Keys
  {
    && (exists x :: i <= x < m && all[x] == keep)
    && (forall x | i <= x < m :: SameGroup(s, all[i], all[x]))
    && (forall x | i <= x < m :: rep[all[x]] == keep)
    && (forall x | i <= x < m :: all[x] == keep || Precedes(s, roots, keep, all[x]))
  }

  /** Rows from m on, and rows the listing leaves out, still stand for themselves. */
  ghost predicate RestUntouched(s: Tables, all: seq<BookId>, m: nat, rep: map<BookId, BookId>)
    requires m <= |all| && rep.Keys == s.books.Keys
  {
    forall b | b in s.books && b !in all[..m] :: rep[b] == b
  }

  function RepAfterMerge(rep: map<BookId, BookId>, keep: BookId, drop: BookId): map<BookId, BookId> {
    map b | b in rep :: Redirect(rep[b], drop, keep)
  }

  lemma RepAfterMergeComposes(rep: map<BookId, BookId>, t: Tables, keep: BookId, drop: BookId)
    requires forall b | b in rep :: rep[b] in t.books
    ensures ComposeReps(rep, MergeRep(t, keep, drop)) == RepAfterMerge(rep, keep, drop)
  {
  }

  lemma MergeFoldsFurther(s: Tables, rep: map<BookId, BookId>, t: Tables, keep: BookId, drop: BookId, u: Tables)
    requires FoldedSoFar(s, rep, t)
    requires keep in t.books && drop in t.books && keep != drop && Merged(t, keep, drop, u)
    ensures FoldedSoFar(s, RepAfterMerge(rep, keep, drop), u)
  {
    QuotientStaysValid(s, rep, t);
    MergeIsQuotient(t, keep, drop, u);
    QuotientsCompose(s, rep, t, MergeRep(t, keep, drop), u);
    RepAfterMergeComposes(rep, t, keep, drop);
  }

  lemma DoneGroupsKeepTheirLeast(s: Tables, roots: seq<string>, all: seq<BookId>, i: nat, m: nat,
                                 rep: map<BookId, BookId>, keep: BookId, drop: BookId)
    requires Listed(s, all) && i <= m < |all| && GroupStart(s, all, i) && rep.Keys == s.books.Keys
    requires GroupsDone(s, roots, all, i, rep)
    requires exists y :: i <= y <= m && all[y] == drop
    ensures GroupsDone(s, roots, all, i, RepAfterMerge(rep, keep, drop))
  {
  }

  lemma FoldedRowMoves(s: Tables, roots: seq<string>, all: seq<BookId>, i: nat, m: nat, keep: BookId,
                       rep: map<BookId, BookId>, k: BookId, drop: BookId, x: nat)
    requires Listed(s, all) && i <= x < m < |all| && rep.Keys == s.books.Keys
    requires GroupFolded(s, roots, all, i, m, keep, rep) && keep in s.books
    requires if Precedes(s, roots, keep, all[m]) then k == keep && drop == all[m] else k == all[m] && drop == keep
    ensures RepAfterMerge(rep, k, drop)[all[x]] == k && (all[x] == k || Precedes(s, roots, k, all[x]))
  {
    assert all[x] in all && rep[all[x]] == keep;
    PrecedesOrders(s, roots, k, keep, all[x]);
    PrecedesOrders(s, roots, keep, all[m], keep);
  }

  lemma NextRowMoves(s: Tables, roots: seq<string>, all: seq<BookId>, m: nat, keep: BookId,
                     rep: map<BookId, BookId>, k: BookId, drop: BookId)
    requires Listed(s, all) && m < |all| && rep.Keys == s.books.Keys && RestUntouched(s, all, m, rep)
    requires keep in s.books && keep != all[m]
    requires if Precedes(s, roots, keep, all[m]) then k == keep && drop == all[m] else k == all[m] && drop == keep
    ensures RepAfterMerge(rep, k, drop)[all[m]] == k && (all[m] == k || Precedes(s, roots, k, all[m]))
  {
    assert all[m] !in all[..m] && all[m] in all;
    assert rep[all[m]] == all[m];
  }

  lemma GroupGrows(s: Tables, roots: seq<string>, all: seq<BookId>, i: nat, m: nat, keep: BookId,
                   rep: map<BookId, BookId>, k: BookId, drop: BookId)
    requires Listed(s, all) && i < m < |all| && rep.Keys == s.books.Keys
    requires GroupFolded(s, roots, all, i, m, keep, rep) && RestUntouched(s, all, m, rep)
    requires SameGroup(s, all[i], all[m])
    requires keep in s.books && keep != all[m]
    requires if Precedes(s, roots, keep, all[m]) then k == keep && drop == all[m] else k == all[m] && drop == keep
    ensures GroupFolded(s, roots, all, i, m + 1, k, RepAfterMerge(rep, k, drop))
  {
    var r := RepAfterMerge(rep, k, drop);
    var z :| i <= z < m && all[z] == keep;
    assert (if k == keep then all[z] else all[m]) == k;
    forall x | i <= x < m + 1
      ensures SameGroup(s, all[i], all[x]) && r[all[x]] == k && (all[x] == k || Precedes(s, roots, k, all[x]))
    {
      if x < m {
        FoldedRowMoves(s, roots, all, i, m, keep, rep, k, drop, x);
      } else {
        NextRowMoves(s, roots, all, m, keep, rep, k, drop);
      }
    }
  }

  lemma RestStaysUntouched(s: Tables, all: seq<BookId>, m: nat, rep: map<BookId, BookId>, k: BookId, drop: BookId)
    requires m < |all| && rep.Keys == s.books.Keys && RestUntouched(s, all, m, rep)
    requires drop in all[..m + 1]
    ensures RestUntouched(s, all, m + 1, RepAfterMerge(rep, k, drop))
  {
  }

  /** When the group ends, its representative is its least member. */
  lemma GroupIsDone(s: Tables, roots: seq<string>, all: seq<BookId>, i: nat, j: nat, keep: BookId,
                    rep: map<BookId, BookId>)
    requires TitleListing(s, all) && i < j <= |all| && rep.Keys == s.books.Keys
    requires GroupStart(s, all, i) && GroupsDone(s, roots, all, i, rep)
    requires GroupFolded(s, roots, all, i, j, keep, rep)
    requires j < |all| ==> !InGroup(s, all, i, j)
    ensures GroupStart(s, all, j) && GroupsDone(s, roots, all, j, rep)
  {
    forall x, y | 0 <= x < j <= y < |all| ensures !SameGroup(s, all[x], all[y]) {
      if i <= x && SameGroup(s, all[x], all[y]) {
        assert SameGroup(s, all[i], all[x]);
        assert SameGroup(s, all[i], all[y]);
        GroupsAreContiguous(s, all, i, j, y);
      }
    }
    forall x | i <= x < j ensures IsLeast(s, roots, all[x], rep[all[x]]) {
      LeastInGroup(s, roots, all, i, j, keep, rep, x);
    }
  }

  lemma LeastInGroup(s: Tables, roots: seq<string>, all: seq<BookId>, i: nat, j: nat, keep: BookId,
                     rep: map<BookId, BookId>, x: nat)
    requires TitleListing(s, all) && i <= x < j <= |all| && rep.Keys == s.books.Keys
    requires GroupStart(s, all, i) && GroupStart(s, all, j)
    requires GroupFolded(s, roots, all, i, j, keep, rep)
    ensures IsLeast(s, roots, all[x], rep[all[x]])
  {
  }

  /** When the listing is done, every book points at the least of its group. */
  lemma ListingIsDone(s: Tables, roots: seq<string>, all: seq<BookId>, rep: map<BookId, BookId>)
    requires TitleListing(s, all) && rep.Keys == s.books.Keys
    requires GroupsDone(s, roots, all, |all|, rep) && RestUntouched(s, all, |all|, rep)
    ensures LeastOfGroups(s, roots, rep)
  {
    forall b | b in s.books ensures LeastAt(s, roots, rep, b) {
      if b in all {
        var x :| 0 <= x < |all| && all[x] == b;
      } else {
        assert rep[b] == b;
      }
    }
  }

  ghost predicate FoldedSoFar(s: Tables, rep: map<BookId, BookId>, t: Tables) {
    Valid(s) && Representatives(s, rep) && Quotient(s, rep, t)
  }

  lemma IdentityFolds(s: Tables)
    requires Valid(s)
    ensures FoldedSoFar(s, map b | b in s.books :: b, s)
  {
  }

  /** The x-th listed row is still in t as it was in s. */
  ghost predicate RowAt(s: Tables, all: seq<BookId>, x: nat, t: Tables)
    requires x < |all|
  {
    all[x] in s.books && all[x] in t.books && t.books[all[x]] == s.books[all[x]]
  }

  ghost predicate RowsFrom(s: Tables, all: seq<BookId>, i: nat, t: Tables) {
    forall x | i <= x < |all| :: RowAt(s, all, x, t)
  }

  /** The x-th listed row is the same work as the i-th. */
  ghost predicate WorkAt(s: Tables, all: seq<BookId>, i: nat, x: nat)
    requires i < |all| && x < |all|
  {
    all[i] in s.books && all[x] in s.books && SameWork(s.books[all[x]].cols, s.books[all[i]].cols)
  }

  ghost predicate InGroup(s: Tables, all: seq<BookId>, i: nat, x: nat)
    requires i < |all| && x < |all|
  {
    all[i] in s.books && all[x] in s.books && SameGroup(s, all[i], all[x])
  }

  lemma ListedRowsSurvive(s: Tables, rep: map<BookId, BookId>, t: Tables, all: seq<BookId>, i: nat)
    requires Listed(s, all) && i <= |all| && rep.Keys == s.books.Keys
    requires FoldedSoFar(s, rep, t) && RestUntouched(s, all, i, rep)
    ensures RowsFrom(s, all, i, t)
  {
    forall x | i <= x < |all| ensures RowAt(s, all, x, t) {
      var b := all[x];
      assert b in all;
      assert b in s.books && b !in all[..i];
      assert rep[b] == b;
    }
  }

  lemma GroupEnds(s: Tables, all: seq<BookId>, i: nat, j: nat)
    requires TitleListing(s, all) && i < j <= |all|
    requires forall x | i <= x < j :: x == i || WorkAt(s, all, i, x)
    requires j < |all| ==> !WorkAt(s, all, i, j)
    ensures forall x | i <= x < j :: InGroup(s, all, i, x)
    ensures j < |all| ==> !InGroup(s, all, i, j)
  {
    assert all[i] in all;
    forall x | i <= x < j ensures InGroup(s, all, i, x) {
      if x != i {
        assert WorkAt(s, all, i, x);
        ListedGroupIff(s, all, i, x);
      }
    }
    if j < |all| {
      ListedGroupIff(s, all, i, j);
    }
  }

  lemma FirstStandsForItself(s: Tables, roots: seq<string>, all: seq<BookId>, i: nat, rep: map<BookId, BookId>)
    requires Listed(s, all) && i < |all| && rep.Keys == s.books.Keys && RestUntouched(s, all, i, rep)
    ensures GroupFolded(s, roots, all, i, i + 1, all[i], rep) && RestUntouched(s, all, i + 1, rep)
  {
  }

  /** At each inner step the survivor so far and the next row are both still there, with
      the rows they had at the start. */
  lemma SurvivorsOfStep(s: Tables, roots: seq<string>, rep: map<BookId, BookId>, t: Tables, all: seq<BookId>,
                        i: nat, m: nat, keep: BookId)
    requires Listed(s, all) && i < m < |all| && rep.Keys == s.books.Keys
    requires FoldedSoFar(s, rep, t) && RestUntouched(s, all, m, rep)
    requires GroupFolded(s, roots, all, i, m, keep, rep)
    ensures keep in t.books && all[m] in t.books && keep != all[m]
    ensures Precedes(t, roots, keep, all[m]) <==> Precedes(s, roots, keep, all[m])
  {
  }

  /** The state of the inner loop: rows i to m - 1 of the listing are folded into keep. */
  ghost predicate GroupState(s: Tables, roots: seq<string>, all: seq<BookId>, i: nat, m: nat, keep: BookId,
                             rep: map<BookId, BookId>, t: Tables) {
    && Listed(s, all) && i < m <= |all| && rep.Keys == s.books.Keys
    && FoldedSoFar(s, rep, t)
    && GroupStart(s, all, i) && GroupsDone(s, roots, all, i, rep) && RestUntouched(s, all, m, rep)
    && GroupFolded(s, roots, all, i, m, keep, rep)
  }

  lemma GroupStep(s: Tables, roots: seq<string>, all: seq<BookId>, i: nat, m: nat, keep: BookId,
                  rep: map<BookId, BookId>, t: Tables, k: BookId, drop: BookId, u: Tables)
    requires GroupState(s, roots, all, i, m, keep, rep, t) && m < |all| && SameGroup(s, all[i], all[m])
    requires keep in t.books && all[m] in t.books && keep != all[m]
    requires if Precedes(t, roots, keep, all[m]) then k == keep && drop == all[m] else k == all[m] && drop == keep
    requires Merged(t, k, drop, u)
    ensures GroupState(s, roots, all, i, m + 1, k, RepAfterMerge(rep, k, drop), u)
  {
    SurvivorsOfStep(s, roots, rep, t, all, i, m, keep);
    MergeFoldsFurther(s, rep, t, k, drop, u);
    DropIsListed(s, roots, all, i, m, keep, rep, drop);
    DoneGroupsKeepTheirLeast(s, roots, all, i, m, rep, k, drop);
    GroupGrows(s, roots, all, i, m, keep, rep, k, drop);
    RestStaysUntouched(s, all, m, rep, k, drop);
  }

  lemma DropIsListed(s: Tables, roots: seq<string>, all: seq<BookId>, i: nat, m: nat, keep: BookId,
                     rep: map<BookId, BookId>, drop: BookId)
    requires Listed(s, all) && i < m < |all| && rep.Keys == s.books.Keys
    requires GroupFolded(s, roots, all, i, m, keep, rep) && (drop == keep || drop == all[m])
    ensures drop in all[..m + 1] && exists y :: i <= y <= m && all[y] == drop
  {
  }
}
