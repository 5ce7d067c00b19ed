/** Which of two rows survives a merge, and what consolidating duplicate titles does. */
module LibraryDedup {
  import Wrappers
  import opened LibraryTables

  /** Position of r in the configured roots; a root listed twice has its last position,
      an unknown root ranks behind all. */
  function RootRank(roots: seq<string>, r: string): nat {
    RankBefore(roots, |roots|, r)
  }

  function RankBefore(roots: seq<string>, n: nat, r: string): nat
    requires n <= |roots|
  {
    if n == 0 then |roots|
    else if roots[n - 1] == r then n - 1
    else RankBefore(roots, n - 1, r)
  }

  /** The survivor order: root rank, then added_at, then id. */
  predicate Precedes(s: Tables, roots: seq<string>, a: BookId, b: BookId)
    requires a in s.books && b in s.books
  {
    var ra, rb := RootRank(roots, s.books[a].key.root), RootRank(roots, s.books[b].key.root);
    if ra != rb then ra < rb
    else if s.books[a].addedAt != s.books[b].addedAt then s.books[a].addedAt < s.books[b].addedAt
    else a < b
  }

  // ---------------------------------------------------------------------------
  // One merge
  // ---------------------------------------------------------------------------

  /** MergeBooks leaves the tables valid exactly when it has nothing to do or the book it
      keeps exists: it does not check that itself. */
  lemma MergeNeedsItsKeeper(s: Tables, keep: BookId, drop: BookId, t: Tables)
    requires Valid(s) && Merged(s, keep, drop, t)
    ensures Valid(t) <==> keep == drop || drop !in s.books || keep in s.books
  {
  }

  /** pickCanonical followed by MergeBooks. pickCanonical fails when a row is missing. */
  ghost predicate PairFolded(s: Tables, roots: seq<string>, a: BookId, b: BookId, t: Tables) {
    if a !in s.books || b !in s.books then t == s
    else if Precedes(s, roots, a, b) then Merged(s, a, b, t)
    else Merged(s, b, a, t)
  }

  lemma FoldKeepsFiles(s: Tables, roots: seq<string>, a: BookId, b: BookId, t: Tables)
    requires Valid(s) && PairFolded(s, roots, a, b, t)
    ensures Valid(t) && Keys(t) == Keys(s) && CarriesShelves(s, t, Keys(s))
    ensures t.books.Keys <= s.books.Keys
  {
    if a in s.books && b in s.books && a != b {
      var keep, drop := if Precedes(s, roots, a, b) then a else b, if Precedes(s, roots, a, b) then b else a;
      MergeIsQuotient(s, keep, drop, t);
      QuotientUnitesClasses(s, MergeRep(s, keep, drop), t);
      QuotientKeepsKeys(s, MergeRep(s, keep, drop), t);
    } else {
      CarriesIfOwnersKept(s, t, Keys(s));
    }
  }

  /** The rows MergeDuplicateISBN may pick as the duplicate. book_enrichment rows outlive
      their book, so the answer may be a book that is gone. */
  ghost function IsbnMatches(s: Tables, b: BookId): set<BookId> {
    if b !in s.isbn || s.isbn[b] == "" then {}
    else set c | c in s.isbn && s.isbn[c] == s.isbn[b] && c != b
  }

  ghost predicate IsbnFolded(s: Tables, roots: seq<string>, b: BookId, t: Tables) {
    if IsbnMatches(s, b) == {} then t == s
    else exists c :: c in IsbnMatches(s, b) && PairFolded(s, roots, b, c, t)
  }

  /** An enrichment row left behind by a merged or deleted book can be the one row the
      query returns; the merge is then skipped although a live duplicate exists. It is
      certain to happen exactly when every answer the query may give is a live book. */
  lemma IsbnMergeIsCertainIff(s: Tables, roots: seq<string>, b: BookId)
    requires Valid(s) && b in s.books && IsbnMatches(s, b) != {}
    ensures (forall t | IsbnFolded(s, roots, b, t) :: |t.books| == |s.books| - 1)
      <==> IsbnMatches(s, b) <= s.books.Keys
  {
  }

  // ---------------------------------------------------------------------------
  // Consolidation
  // ---------------------------------------------------------------------------

  /** Rows that consolidation puts into one group. */
  predicate SameGroup(s: Tables, a: BookId, b: BookId)
    requires a in s.books && b in s.books
  {
    a == b || (Comparable(s.books[a].cols) && SameWork(s.books[a].cols, s.books[b].cols))
  }

  /** r is the least member of b's group. */
  ghost predicate IsLeast(s: Tables, roots: seq<string>, b: BookId, r: BookId)
    requires b in s.books
  {
    && r in s.books
    && SameGroup(s, b, r)
    && forall c | c in s.books && SameGroup(s, b, c) :: c == r || Precedes(s, roots, r, c)
  }

  ghost predicate LeastAt(s: Tables, roots: seq<string>, rep: map<BookId, BookId>, b: BookId)
    requires b in s.books
  {
    b in rep && IsLeast(s, roots, b, rep[b])
  }

  /** rep sends every book to the least member of its group. */
  ghost predicate LeastOfGroups(s: Tables, roots: seq<string>, rep: map<BookId, BookId>) {
    && rep.Keys == s.books.Keys
    && forall b {:trigger LeastAt(s, roots, rep, b)} | b in s.books :: LeastAt(s, roots, rep, b)
  }

  lemma LeastIsUnique(s: Tables, roots: seq<string>, b: BookId, r1: BookId, r2: BookId)
    requires b in s.books && IsLeast(s, roots, b, r1) && IsLeast(s, roots, b, r2)
    ensures r1 == r2
  {
    assert SameGroup(s, b, r1) && SameGroup(s, b, r2);
  }

  lemma SurvivorOf(s: Tables, roots: seq<string>, rep: map<BookId, BookId>, b: BookId)
    requires LeastOfGroups(s, roots, rep) && b in s.books
    ensures IsLeast(s, roots, b, rep[b])
  {
    assert LeastAt(s, roots, rep, b);
  }

  /** ConsolidateDuplicateTitles: every group is folded into its least member. */
  ghost predicate Consolidated(s: Tables, roots: seq<string>, t: Tables) {
    exists rep :: LeastOfGroups(s, roots, rep) && Representatives(s, rep) && Quotient(s, rep, t)
  }

  ghost predicate NoDuplicates(s: Tables) {
    forall b, c | b in s.books && c in s.books && SameGroup(s, b, c) :: b == c
  }

  lemma SurvivorsAgree(s: Tables, roots: seq<string>, r1: map<BookId, BookId>, r2: map<BookId, BookId>, b: BookId)
    requires LeastOfGroups(s, roots, r1) && LeastOfGroups(s, roots, r2) && b in s.books
    ensures r1[b] == r2[b]
  {
    SurvivorOf(s, roots, r1, b);
    SurvivorOf(s, roots, r2, b);
    LeastIsUnique(s, roots, b, r1[b], r2[b]);
  }

  /** The survivors do not depend on the order in which duplicates are visited. */
  lemma SurvivorsAreUnique(s: Tables, roots: seq<string>, r1: map<BookId, BookId>, r2: map<BookId, BookId>)
    requires LeastOfGroups(s, roots, r1) && LeastOfGroups(s, roots, r2)
    ensures r1 == r2
  {
    forall b | b in r1.Keys ensures r1[b] == r2[b] {
      SurvivorsAgree(s, roots, r1, r2, b);
    }
    Wrappers.SameMaps(r1, r2);
  }

  lemma SurvivorsAreLeast(s: Tables, roots: seq<string>, rep: map<BookId, BookId>)
    requires LeastOfGroups(s, roots, rep)
    ensures forall b | b in s.books :: rep[b] == b <==> IsLeast(s, roots, b, b)
  {
    forall b | b in s.books ensures rep[b] == b <==> IsLeast(s, roots, b, b) {
      SurvivorOf(s, roots, rep, b);
      if IsLeast(s, roots, b, b) {
        LeastIsUnique(s, roots, b, b, rep[b]);
      }
    }
  }

  lemma FoldedByLeast(s: Tables, roots: seq<string>, rep: map<BookId, BookId>, t: Tables)
    requires Valid(s) && LeastOfGroups(s, roots, rep) && Representatives(s, rep) && Quotient(s, rep, t)
    ensures forall b :: b in t.books <==> b in s.books && IsLeast(s, roots, b, b)
    ensures forall b | b in t.books :: t.books[b] == s.books[b]
  {
    SurvivorsAreLeast(s, roots, rep);
  }

  lemma LeastRowsDiffer(s: Tables, roots: seq<string>, t: Tables)
    requires forall b :: b in t.books <==> b in s.books && IsLeast(s, roots, b, b)
    requires forall b | b in t.books :: t.books[b] == s.books[b]
    ensures NoDuplicates(t)
  {
    forall b, c | b in t.books && c in t.books && SameGroup(t, b, c) ensures b == c {
      assert SameGroup(s, b, c);
    }
  }

  lemma KeyStaysInGroup(s: Tables, roots: seq<string>, rep: map<BookId, BookId>, t: Tables, b: BookId, k: Key)
    requires Valid(s) && LeastOfGroups(s, roots, rep) && Representatives(s, rep) && Quotient(s, rep, t)
    requires Owns(s, b, k)
    ensures b in s.books && rep[b] in s.books && SameGroup(s, b, rep[b]) && Owns(t, rep[b], k)
  {
    QuotientUnitesClasses(s, rep, t);
    SurvivorOf(s, roots, rep, b);
  }

  /** After consolidation no two books share a non-blank normalised title and author,
      every group has left its least member, and files and shelves are conserved. */
  lemma ConsolidationTheorem(s: Tables, roots: seq<string>, t: Tables)
    requires Valid(s) && Consolidated(s, roots, t)
    ensures Valid(t) && NoDuplicates(t)
    ensures Keys(t) == Keys(s) && CarriesShelves(s, t, Keys(s))
    ensures forall b :: b in t.books <==> b in s.books && IsLeast(s, roots, b, b)
    ensures forall b | b in t.books :: t.books[b] == s.books[b]
    ensures forall b, k | Owns(s, b, k) :: exists c :: Owns(t, c, k) && c in s.books && SameGroup(s, b, c)
  {
    var rep :| LeastOfGroups(s, roots, rep) && Representatives(s, rep) && Quotient(s, rep, t);
    QuotientStaysValid(s, rep, t);
    QuotientKeepsKeys(s, rep, t);
    FoldedByLeast(s, roots, rep, t);
    LeastRowsDiffer(s, roots, t);
    forall b, k | Owns(s, b, k)
      ensures exists c :: Owns(t, c, k) && c in s.books && SameGroup(s, b, c)
    {
      KeyStaysInGroup(s, roots, rep, t, b, k);
    }
  }

  lemma IdentityQuotient(s: Tables, rep: map<BookId, BookId>, t: Tables)
    requires Representatives(s, rep) && Quotient(s, rep, t)
    requires forall b | b in s.books :: rep[b] == b
    ensures t == s
  {
    assert forall b | b in s.books :: b in t.books && t.books[b] == s.books[b];
    assert forall b | b in t.books :: b in s.books;
    assert t.books == s.books;
    assert t.locs.Keys == s.locs.Keys;
    assert t.locs == s.locs;
    forall m | m in s.shelved ensures Membership(m.shelf, RepOf(rep, m.book)) == m {}
  }

  /** Consolidation changes nothing exactly when there is no duplicate. */
  lemma ConsolidationIdleIff(s: Tables, roots: seq<string>, t: Tables)
    requires Valid(s) && Consolidated(s, roots, t)
    ensures t == s <==> NoDuplicates(s)
  {
    var rep :| LeastOfGroups(s, roots, rep) && Representatives(s, rep) && Quotient(s, rep, t);
    if NoDuplicates(s) {
      forall b | b in s.books ensures rep[b] == b {
        assert LeastAt(s, roots, rep, b);
      }
      IdentityQuotient(s, rep, t);
    } else {
      ConsolidationTheorem(s, roots, t);
    }
  }
}
