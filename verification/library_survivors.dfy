/** What merging comes to for someone who looks at the rows: which titles and authors count
    as the same, which row of a work survives, and when an ISBN merges two books. */
module LibrarySurvivors {
  import opened Strings
  import opened LibraryTables
  import opened LibraryDedup

  // ---------------------------------------------------------------------------
  // Titles and authors
  // ---------------------------------------------------------------------------

  predicate Blanks(p: string) {
    forall i | 0 <= i < |p| :: p[i] == ' '
  }

  /** No blank at either end. */
  predicate Bare(x: string) {
    x != "" ==> x[0] != ' ' && x[|x| - 1] != ' '
  }

  lemma {:induction false} TrimLeftPadded(p: string, x: string)
    requires Blanks(p) && (x != "" ==> x[0] != ' ')
    ensures LibraryTables.TrimLeft(p + x) == x
  {
    if p == "" {
      assert p + x == x;
    } else {
      assert (p + x)[1..] == p[1..] + x;
      TrimLeftPadded(p[1..], x);
    }
  }

  lemma {:induction false} TrimRightPadded(x: string, q: string)
    requires Blanks(q) && (x != "" ==> x[|x| - 1] != ' ')
    ensures LibraryTables.TrimRight(x + q) == x
    decreases |q|
  {
    if q == "" {
      assert x + q == x;
    } else {
      assert (x + q)[..|x + q| - 1] == x + q[..|q| - 1];
      TrimRightPadded(x, q[..|q| - 1]);
    }
  }

  lemma FoldedOfPadded(p: string, x: string, q: string)
    requires Blanks(p) && Blanks(q) && Bare(x)
    ensures Folded(p + x + q) == Lower(x)
  {
    if x == "" {
      assert p + x + q == (p + q) + "";
      TrimLeftPadded(p + q, "");
    } else {
      assert p + x + q == p + (x + q);
      TrimLeftPadded(p, x + q);
      TrimRightPadded(x, q);
    }
  }

  /** Titles and authors are the same if, blanks at the ends apart, they agree letter by
      letter up to the case of A to Z. */
  lemma FoldedAgreeIff(p: string, x: string, q: string, p': string, y: string, q': string)
    requires Blanks(p) && Blanks(q) && Blanks(p') && Blanks(q') && Bare(x) && Bare(y)
    ensures Folded(p + x + q) == Folded(p' + y + q')
      <==> |x| == |y| && forall i | 0 <= i < |x| :: SameLetter(x[i], y[i])
  {
    FoldedOfPadded(p, x, q);
    FoldedOfPadded(p', y, q');
    if |x| == |y| {
      assert Lower(x) == Lower(y) <==> forall i | 0 <= i < |x| :: Lower(x)[i] == Lower(y)[i];
      forall i | 0 <= i < |x| ensures Lower(x)[i] == Lower(y)[i] <==> SameLetter(x[i], y[i]) {
        LowerAgreesIff(x[i], y[i]);
      }
    }
  }

  // ---------------------------------------------------------------------------
  // The survivor order
  // ---------------------------------------------------------------------------

  /** The root's position among the configured ones, the last one if it is listed twice. */
  predicate LastAt(roots: seq<string>, r: string, i: nat) {
    i < |roots| && roots[i] == r && forall j | i < j < |roots| :: roots[j] != r
  }

  ghost predicate EarlierRoot(roots: seq<string>, r: string, q: string) {
    exists i: nat, j: nat :: i < j && LastAt(roots, r, i) && LastAt(roots, q, j)
  }

  /** Row a survives b: an earlier configured root, a configured root against an unknown
      one, else the earlier added_at, else the lower id. */
  ghost predicate Wins(s: Tables, roots: seq<string>, a: BookId, b: BookId)
    requires a in s.books && b in s.books
  {
    var x, y := s.books[a], s.books[b];
    || EarlierRoot(roots, x.key.root, y.key.root)
    || (x.key.root in roots && y.key.root !in roots)
    || (&& (x.key.root == y.key.root || (x.key.root !in roots && y.key.root !in roots))
        && (x.addedAt < y.addedAt || (x.addedAt == y.addedAt && a < b)))
  }

  lemma {:induction false} RankIsPosition(roots: seq<string>, n: nat, r: string)
    requires n <= |roots|
    ensures r !in roots[..n] ==> RankBefore(roots, n, r) == |roots|
    ensures forall i: nat | LastAt(roots[..n], r, i) :: RankBefore(roots, n, r) == i
    ensures r in roots[..n] ==> LastAt(roots[..n], r, RankBefore(roots, n, r))
    decreases n
  {
    if n > 0 {
      RankIsPosition(roots, n - 1, r);
      assert roots[..n] == roots[..n - 1] + [roots[n - 1]];
      if roots[n - 1] != r {
        forall i: nat | LastAt(roots[..n], r, i) ensures LastAt(roots[..n - 1], r, i) {
          assert forall j | i < j < n - 1 :: roots[..n - 1][j] == roots[..n][j];
        }
      } else {
        forall i: nat | LastAt(roots[..n], r, i) ensures i == n - 1 {
          assert roots[..n][n - 1] == r;
        }
      }
    }
  }

  lemma RankOf(roots: seq<string>, r: string)
    ensures r !in roots ==> RootRank(roots, r) == |roots|
    ensures r in roots ==> LastAt(roots, r, RootRank(roots, r))
    ensures forall i: nat | LastAt(roots, r, i) :: RootRank(roots, r) == i
  {
    assert roots[..|roots|] == roots;
    RankIsPosition(roots, |roots|, r);
  }

  lemma PrecedesIfWins(s: Tables, roots: seq<string>, a: BookId, b: BookId)
    requires a in s.books && b in s.books
    ensures Precedes(s, roots, a, b) <==> Wins(s, roots, a, b)
  {
    var ra, rb := s.books[a].key.root, s.books[b].key.root;
    RankOf(roots, ra);
    RankOf(roots, rb);
    if ra in roots && rb in roots && RootRank(roots, ra) < RootRank(roots, rb) {
      assert LastAt(roots, ra, RootRank(roots, ra)) && LastAt(roots, rb, RootRank(roots, rb));
    }
  }

  /** Of two rows that are to be merged, exactly one wins, and it is the one that stays. */
  lemma WinnerStays(s: Tables, roots: seq<string>, a: BookId, b: BookId, t: Tables)
    requires a in s.books && b in s.books && a != b && PairFolded(s, roots, a, b, t)
    ensures Wins(s, roots, a, b) <==> !Wins(s, roots, b, a)
    ensures t.books == if Wins(s, roots, a, b) then s.books - {b} else s.books - {a}
  {
    PrecedesIfWins(s, roots, a, b);
    PrecedesIfWins(s, roots, b, a);
  }

  /** The row in the root that is configured first stays, whatever the rows' ages and ids. */
  lemma EarlierRootStays(s: Tables, roots: seq<string>, i: nat, j: nat, a: BookId, b: BookId, t: Tables)
    requires i < j < |roots| && forall x, y | 0 <= x < y < |roots| :: roots[x] != roots[y]
    requires a in s.books && b in s.books && s.books[a].key.root == roots[i] && s.books[b].key.root == roots[j]
    requires PairFolded(s, roots, a, b, t) || PairFolded(s, roots, b, a, t)
    ensures t.books == s.books - {b}
  {
    assert LastAt(roots, roots[i], i) && LastAt(roots, roots[j], j);
    assert Wins(s, roots, a, b);
    if PairFolded(s, roots, a, b, t) {
      WinnerStays(s, roots, a, b, t);
    } else {
      WinnerStays(s, roots, b, a, t);
    }
  }

  // ---------------------------------------------------------------------------
  // Consolidation
  // ---------------------------------------------------------------------------

  /** Titles and authors read the same, and neither is blank. */
  predicate OneWork(x: Columns, y: Columns) {
    && Folded(x.title) == Folded(y.title) != ""
    && Folded(x.author) == Folded(y.author) != ""
  }

  lemma GroupIsWork(s: Tables, b: BookId, c: BookId)
    requires b in s.books && c in s.books
    ensures SameGroup(s, b, c) <==> c == b || OneWork(s.books[b].cols, s.books[c].cols)
  {
  }

  /** b wins against c if they are different rows of one work. */
  ghost predicate Holds(s: Tables, roots: seq<string>, b: BookId, c: BookId)
    requires b in s.books && c in s.books
  {
    c != b && OneWork(s.books[b].cols, s.books[c].cols) ==> Wins(s, roots, b, c)
  }

  lemma LeastIffWins(s: Tables, roots: seq<string>, b: BookId)
    requires b in s.books
    ensures IsLeast(s, roots, b, b) <==> forall c | c in s.books :: Holds(s, roots, b, c)
  {
    forall c | c in s.books
      ensures Holds(s, roots, b, c) <==> (SameGroup(s, b, c) ==> c == b || Precedes(s, roots, b, c))
    {
      GroupIsWork(s, b, c);
      PrecedesIfWins(s, roots, b, c);
    }
  }

  /** A row survives consolidation if and only if it wins against every other row of its
      title and author; rows without either are never merged. */
  lemma SurvivesIff(s: Tables, roots: seq<string>, t: Tables, b: BookId)
    requires Valid(s) && Consolidated(s, roots, t) && b in s.books
    ensures b in t.books <==> forall c | c in s.books :: Holds(s, roots, b, c)
    ensures b in t.books ==> t.books[b] == s.books[b]
  {
    ConsolidationTheorem(s, roots, t);
    LeastIffWins(s, roots, b);
  }

  /** A file of a merged row goes to the row of the same title and author that wins. */
  lemma FilesGoToTheirWork(s: Tables, roots: seq<string>, t: Tables, b: BookId, k: Key, c: BookId)
    requires Valid(s) && Consolidated(s, roots, t) && Owns(s, b, k) && Owns(t, c, k)
    ensures c in s.books && (c == b || OneWork(s.books[b].cols, s.books[c].cols))
  {
    ConsolidationTheorem(s, roots, t);
    var d :| Owns(t, d, k) && d in s.books && SameGroup(s, b, d);
    ValidIsPartition(t, k);
  }

  // ---------------------------------------------------------------------------
  // Merging by ISBN
  // ---------------------------------------------------------------------------

  /** Another enrichment row has b's ISBN. */
  predicate SharesIsbn(s: Tables, b: BookId, c: BookId) {
    b in s.isbn && c in s.isbn && c != b && s.isbn[b] == s.isbn[c] != ""
  }

  ghost predicate MergedWith(s: Tables, roots: seq<string>, b: BookId, c: BookId, t: Tables)
    requires b in s.books
  {
    && c in s.books && SharesIsbn(s, b, c)
    && t.books == if Wins(s, roots, b, c) then s.books - {c} else s.books - {b}
  }

  /** A merge by ISBN joins b with a live book of the same non-empty ISBN, and of the two
      the winner stays; it may do nothing only if no row shares the ISBN or one that does
      has lost its book. */
  lemma IsbnMergeMeans(s: Tables, roots: seq<string>, b: BookId, t: Tables)
    requires b in s.books && IsbnFolded(s, roots, b, t)
    ensures t != s ==> exists c :: MergedWith(s, roots, b, c, t)
    ensures t == s ==> (forall c :: !SharesIsbn(s, b, c)) || exists c :: SharesIsbn(s, b, c) && c !in s.books
  {
    if IsbnMatches(s, b) != {} {
      var c :| c in IsbnMatches(s, b) && PairFolded(s, roots, b, c, t);
      assert SharesIsbn(s, b, c);
      if c in s.books {
        WinnerStays(s, roots, b, c, t);
        assert t.books != s.books && MergedWith(s, roots, b, c, t);
      }
    } else {
      assert forall c :: SharesIsbn(s, b, c) ==> c in IsbnMatches(s, b);
    }
  }
}
