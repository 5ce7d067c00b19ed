/** The order ConsolidateDuplicateTitles reads rows in: ORDER BY LOWER(TRIM(title)),
    LOWER(TRIM(author)), id, with SQLite's binary comparison of text. */
module LibraryOrder {
  import opened LibraryTables
  import opened LibraryDedup

  predicate TextLe(a: string, b: string) {
    a == "" || (b != "" && (a[0] < b[0] || (a[0] == b[0] && TextLe(a[1..], b[1..]))))
  }

  lemma {:induction false} TextLeOrders(a: string, b: string, c: string)
    ensures TextLe(a, b) || TextLe(b, a)
    ensures TextLe(a, b) && TextLe(b, a) ==> a == b
    ensures TextLe(a, b) && TextLe(b, c) ==> TextLe(a, c)
  {
    if a != "" && b != "" {
      if a[0] == b[0] {
        TextLeOrders(a[1..], b[1..], if c == "" then "" else c[1..]);
        assert a == [a[0]] + a[1..] && b == [b[0]] + b[1..];
      }
    }
  }

  datatype TitleKey = TitleKey(title: string, author: string)

  function TitleKeyOf(cols: Columns): TitleKey {
    TitleKey(Folded(cols.title), Folded(cols.author))
  }

  predicate KeyLe(a: TitleKey, b: TitleKey) {
    TextLe(a.title, b.title) && (a.title == b.title ==> TextLe(a.author, b.author))
  }

  lemma KeyLeOrders(a: TitleKey, b: TitleKey, c: TitleKey)
    ensures KeyLe(a, b) || KeyLe(b, a)
    ensures KeyLe(a, b) && KeyLe(b, a) ==> a == b
    ensures KeyLe(a, b) && KeyLe(b, c) ==> KeyLe(a, c)
  {
    TextLeOrders(a.title, b.title, c.title);
    TextLeOrders(b.title, c.title, a.title);
    TextLeOrders(c.title, a.title, b.title);
    TextLeOrders(a.author, b.author, c.author);
  }

  predicate RowLe(s: Tables, a: BookId, b: BookId)
    requires a in s.books && b in s.books
  {
    var ka, kb := TitleKeyOf(s.books[a].cols), TitleKeyOf(s.books[b].cols);
    KeyLe(ka, kb) && (ka == kb ==> a <= b)
  }

  lemma RowLeOrders(s: Tables, a: BookId, b: BookId, c: BookId)
    requires a in s.books && b in s.books && c in s.books
    ensures RowLe(s, a, b) || RowLe(s, b, a)
    ensures RowLe(s, a, b) && RowLe(s, b, a) ==> a == b
    ensures RowLe(s, a, b) && RowLe(s, b, c) ==> RowLe(s, a, c)
  {
    var ka, kb, kc := TitleKeyOf(s.books[a].cols), TitleKeyOf(s.books[b].cols), TitleKeyOf(s.books[c].cols);
    KeyLeOrders(ka, kb, kc);
    KeyLeOrders(kb, kc, ka);
    KeyLeOrders(kc, ka, kb);
  }

  ghost predicate InOrder(s: Tables, all: seq<BookId>) {
    && (forall b | b in all :: b in s.books)
    && forall i, j | 0 <= i < j < |all| :: RowLe(s, all[i], all[j])
  }

  /** Different rows, each of them in the table. */
  ghost predicate Listed(s: Tables, all: seq<BookId>) {
    && (forall b | b in all :: b in s.books)
    && forall i, j | 0 <= i < j < |all| :: all[i] != all[j]
  }

  /** The answer of the consolidation query: every comparable row once, in order. */
  ghost predicate TitleListing(s: Tables, all: seq<BookId>) {
    && Listed(s, all)
    && (forall b :: b in all <==> b in s.books && Comparable(s.books[b].cols))
    && InOrder(s, all)
  }

  /** The query's answer, with the rows in rest still to follow. */
  ghost predicate ListedSoFar(s: Tables, all: seq<BookId>, rest: set<BookId>) {
    && (forall b :: b in all || b in rest <==> b in s.books && Comparable(s.books[b].cols))
    && (forall b | b in all :: b !in rest)
    && (forall i, j | 0 <= i < j < |all| :: all[i] != all[j])
    && InOrder(s, all)
    && forall x, y | x in all && y in rest :: y in s.books && RowLe(s, x, y)
  }

  lemma ListRow(s: Tables, all: seq<BookId>, rest: set<BookId>, b: BookId)
    requires ListedSoFar(s, all, rest)
    requires b in rest && b in s.books && forall c | c in rest :: c in s.books && RowLe(s, b, c)
    ensures ListedSoFar(s, all + [b], rest - {b})
  {
  }

  /** Among listed rows the work decides the group. */
  lemma ListedGroupIff(s: Tables, all: seq<BookId>, i: nat, j: nat)
    requires TitleListing(s, all) && i < |all| && j < |all| && i != j
    ensures all[i] in s.books && all[j] in s.books
    ensures SameGroup(s, all[i], all[j]) <==> SameWork(s.books[all[j]].cols, s.books[all[i]].cols)
  {
    assert all[i] in all && all[j] in all;
    assert all[i] != all[j];
  }

  /** Rows of one group are next to each other. */
  lemma GroupsAreContiguous(s: Tables, all: seq<BookId>, i: nat, j: nat, k: nat)
    requires TitleListing(s, all) && i <= j <= k < |all|
    requires SameGroup(s, all[i], all[k])
    ensures SameGroup(s, all[i], all[j])
  {
    if i < j < k {
      var a, b, c := TitleKeyOf(s.books[all[i]].cols), TitleKeyOf(s.books[all[j]].cols),
        TitleKeyOf(s.books[all[k]].cols);
      assert RowLe(s, all[i], all[j]) && RowLe(s, all[j], all[k]);
      KeyLeOrders(a, b, c);
      KeyLeOrders(b, c, a);
    }
  }
}
