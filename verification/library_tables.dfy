/** The tables of the library index and the calls that move file keys between them.

    `books` holds one canonical file per book, `book_locations` every further copy. Each
    call below is one atomic step; the source runs it as one transaction, or as a few
    statements that this model takes together. Values the source leaves open (a clock
    reading, `LIMIT 1` without an order, ties of `added_at`) are left open here: a call
    is a relation between the tables before and after it.
 */
module LibraryTables {
  import Strings

  type BookId = int
  type ShelfId = int

  /** A file within a library root. */
  datatype Key = Key(root: string, rel: string)

  datatype Stat = Stat(size: int, mtime: int)

  /** The columns of a books row that come from parsing its file. NULL is "". */
  datatype Columns = Columns(
    title: string, sortTitle: string, author: string, sortAuthor: string,
    series: string, seriesIndex: real, description: string, language: string,
    publisher: string, publishedDate: string, identifier: string, parseError: string)

  datatype BookRow = BookRow(key: Key, stat: Stat, cols: Columns, addedAt: int)

  datatype LocRow = LocRow(book: BookId, stat: Stat, addedAt: int)

  datatype Membership = Membership(shelf: ShelfId, book: BookId)

  datatype Tables = Tables(
    books: map<BookId, BookRow>,
    locs: map<Key, LocRow>,
    shelved: set<Membership>,
    isbn: map<BookId, string>,
    nextId: BookId)

  /** What parsing a file yields: metadata columns, or the text of the parse error. */
  datatype Parsed = Unreadable(message: string) | Readable(cols: Columns)

  datatype File = File(stat: Stat, parsed: Parsed)

  // ---------------------------------------------------------------------------
  // Column values
  // ---------------------------------------------------------------------------

  /** SQLite's LOWER and, for file names, the ASCII part of Go's ToLower. */
  function Lower(s: string): (r: string)
    ensures |r| == |s|
  {
    Strings.Fold(s, Strings.AsciiLower)
  }

  function TrimLeft(s: string): string {
    if s != "" && s[0] == ' ' then TrimLeft(s[1..]) else s
  }

  function TrimRight(s: string): string {
    if s != "" && s[|s| - 1] == ' ' then TrimRight(s[..|s| - 1]) else s
  }

  /** LOWER(TRIM(s)), the form titles and authors are compared in. */
  function Folded(s: string): string {
    Lower(TrimRight(TrimLeft(s)))
  }

  /** The last path element. */
  function BaseName(path: string): string {
    if path == "" then ""
    else if path[|path| - 1] == '/' then ""
    else BaseName(path[..|path| - 1]) + [path[|path| - 1]]
  }

  /** The columns written for a file: its metadata, or its name and the parse error. */
  function ColumnsOf(k: Key, p: Parsed): Columns {
    match p
    case Readable(cols) => cols.(parseError := "")
    case Unreadable(message) =>
      var title := BaseName(k.rel);
      Columns(title, Lower(title), "", "", "", 0.0, "", "", "", "", "", message)
  }

  predicate SameWork(a: Columns, b: Columns) {
    Folded(a.title) == Folded(b.title) && Folded(a.author) == Folded(b.author)
  }

  /** Rows that the consolidation query returns: neither part of the title key is blank. */
  predicate Comparable(a: Columns) {
    Folded(a.title) != "" && Folded(a.author) != ""
  }

  // ---------------------------------------------------------------------------
  // The partition of file keys
  // ---------------------------------------------------------------------------

  ghost function Keys(s: Tables): set<Key> {
    s.locs.Keys + set b | b in s.books :: s.books[b].key
  }

  /** Key k is a file of book b, as its canonical file or as a further location. */
  ghost predicate Owns(s: Tables, b: BookId, k: Key) {
    b in s.books && (s.books[b].key == k || (k in s.locs && s.locs[k].book == b))
  }

  ghost predicate IsRow(s: Tables, b: BookId, k: Key) {
    b in s.books && s.books[b].key == k
  }

  ghost function LocsOf(s: Tables, b: BookId): set<Key> {
    set k | k in s.locs && s.locs[k].book == b
  }

  ghost function ShelvesOf(s: Tables, b: BookId): set<ShelfId> {
    set m | m in s.shelved && m.book == b :: m.shelf
  }

  /** UNIQUE(library_root, file_path) on books, no key in both tables, no dangling
      location, and AUTOINCREMENT ids. */
  ghost predicate Valid(s: Tables) {
    && (forall b | b in s.books :: 0 < b < s.nextId)
    && (forall b, c | b in s.books && c in s.books && s.books[b].key == s.books[c].key :: b == c)
    && (forall b | b in s.books :: s.books[b].key !in s.locs)
    && (forall k | k in s.locs :: s.locs[k].book in s.books)
    && 0 < s.nextId
  }

  const EMPTY := Tables(map[], map[], {}, map[], 1)

  lemma ValidIsPartition(s: Tables, k: Key)
    requires Valid(s)
    ensures k in Keys(s) <==> exists b :: Owns(s, b, k)
    ensures forall b, c | Owns(s, b, k) && Owns(s, c, k) :: b == c
    ensures !(k in s.locs && exists b :: IsRow(s, b, k))
  {
    if k in s.locs {
      assert Owns(s, s.locs[k].book, k);
    } else if k in Keys(s) {
      var b :| b in s.books && s.books[b].key == k;
      assert Owns(s, b, k);
    }
  }

  // ---------------------------------------------------------------------------
  // Calls
  // ---------------------------------------------------------------------------

  /** The rows findBookByTitleAuthor may answer with; it answers any one of them. */
  ghost function TitleMatches(s: Tables, p: Parsed): set<BookId> {
    match p
    case Unreadable(_) => {}
    case Readable(cols) =>
      if cols.title == "" || cols.author == "" then {}
      else set b | b in s.books && SameWork(s.books[b].cols, cols)
  }

  /** upsertIfChanged: refresh a known location, re-read a known canonical file, attach a
      new file to the book of the same title and author, or insert a new book. */
  ghost predicate Upserted(s: Tables, k: Key, f: File, force: bool, t: Tables) {
    if k in s.locs then
      t == if !force && s.locs[k].stat == f.stat then s
           else s.(locs := s.locs[k := s.locs[k].(stat := f.stat)])
    else if exists b :: IsRow(s, b, k) then
      exists b :: IsRow(s, b, k) && t == Reread(s, b, f, force)
    else if TitleMatches(s, f.parsed) != {} then
      && k in t.locs
      && t.locs[k].book in TitleMatches(s, f.parsed)
      && t.locs[k].stat == f.stat
      && t == s.(locs := s.locs[k := t.locs[k]])
    else
      && s.nextId in t.books
      && t.books[s.nextId] == BookRow(k, f.stat, ColumnsOf(k, f.parsed), t.books[s.nextId].addedAt)
      && t == s.(books := s.books[s.nextId := t.books[s.nextId]], nextId := s.nextId + 1)
  }

  function Reread(s: Tables, b: BookId, f: File, force: bool): Tables
    requires b in s.books
  {
    var row := s.books[b];
    if !force && row.stat == f.stat then s
    else s.(books := s.books[b := row.(stat := f.stat, cols := ColumnsOf(row.key, f.parsed))])
  }

  /** The location removeCanonicalFile promotes: the oldest one seen by the scan, or the
      oldest one of all when the scan saw none. */
  ghost predicate Promotes(s: Tables, b: BookId, seen: set<Key>, k: Key) {
    && k in LocsOf(s, b)
    && (k in seen || LocsOf(s, b) !! seen)
    && forall l | l in LocsOf(s, b) && (k in seen ==> l in seen) :: s.locs[k].addedAt <= s.locs[l].addedAt
  }

  /** The promotion transaction; a UNIQUE violation rolls it back. */
  ghost function Promoted(s: Tables, b: BookId, k: Key): Tables
    requires k in s.locs
  {
    if b in s.books && exists c :: c != b && IsRow(s, c, k) then s
    else s.(
      books := if b in s.books then s.books[b := s.books[b].(key := k, stat := s.locs[k].stat)] else s.books,
      locs := s.locs - {k})
  }

  /** removeCanonicalFile. */
  ghost predicate Removed(s: Tables, b: BookId, seen: set<Key>, t: Tables) {
    if LocsOf(s, b) == {} then t == s.(books := s.books - {b})
    else exists k :: Promotes(s, b, seen, k) && t == Promoted(s, b, k)
  }

  /** DeleteByPath. */
  ghost predicate DeletedByPath(s: Tables, k: Key, t: Tables) {
    if exists b :: IsRow(s, b, k) then exists b :: IsRow(s, b, k) && Removed(s, b, {}, t)
    else t == s.(locs := s.locs - {k})
  }

  function RepOf(rep: map<BookId, BookId>, b: BookId): BookId {
    if b in rep then rep[b] else b
  }

  ghost function Reshelved(shelved: set<Membership>, rep: map<BookId, BookId>): set<Membership> {
    set m | m in shelved :: Membership(m.shelf, RepOf(rep, m.book))
  }

  function Redirect(b: BookId, drop: BookId, keep: BookId): BookId {
    if b == drop then keep else b
  }

  /** The locations after a merge: the dropped book's file is inserted unless it is a
      location already, and its locations change hands. */
  ghost predicate MergedLocs(s: Tables, keep: BookId, drop: BookId, locs: map<Key, LocRow>)
    requires drop in s.books
  {
    var k := s.books[drop].key;
    && locs.Keys == s.locs.Keys + {k}
    && (forall l | l in s.locs :: locs[l] == s.locs[l].(book := Redirect(s.locs[l].book, drop, keep)))
    && (k !in s.locs ==> locs[k].book == keep && locs[k].stat == s.books[drop].stat)
  }

  /** MergeBooks, which does not look whether keep exists. INSERT OR IGNORE leaves a
      location that is already there as it is. */
  ghost predicate Merged(s: Tables, keep: BookId, drop: BookId, t: Tables) {
    if keep == drop || drop !in s.books then t == s
    else
      && t.books == s.books - {drop}
      && MergedLocs(s, keep, drop, t.locs)
      && t.shelved == Reshelved(s.shelved, map[drop := keep])
      && t.isbn == s.isbn
      && t.nextId == s.nextId
  }

  // ---------------------------------------------------------------------------
  // What each call does to the partition
  // ---------------------------------------------------------------------------

  /** Every file of keep that b owned before is now a file of a book on all b's shelves. */
  ghost predicate CarriesShelves(s: Tables, t: Tables, keep: set<Key>) {
    forall b, k | k in keep && Owns(s, b, k) ::
      exists c :: Owns(t, c, k) && ShelvesOf(s, b) <= ShelvesOf(t, c)
  }

  lemma CarriesCompose(s: Tables, t: Tables, u: Tables, keep: set<Key>)
    requires CarriesShelves(s, t, keep) && CarriesShelves(t, u, keep)
    ensures CarriesShelves(s, u, keep)
  {
  }

  lemma CarriesIfOwnersKept(s: Tables, t: Tables, keep: set<Key>)
    requires s.shelved == t.shelved
    requires forall b, k | k in keep && Owns(s, b, k) :: Owns(t, b, k)
    ensures CarriesShelves(s, t, keep)
  {
  }

  lemma KeysAreOwned(s: Tables)
    requires Valid(s)
    ensures forall k :: k in Keys(s) <==> exists b :: Owns(s, b, k)
  {
    forall k ensures k in Keys(s) <==> exists b :: Owns(s, b, k) {
      ValidIsPartition(s, k);
    }
  }

  lemma AttachStaysValid(s: Tables, k: Key, l: LocRow, t: Tables)
    requires Valid(s) && k !in Keys(s) && l.book in s.books
    requires t == s.(locs := s.locs[k := l])
    ensures Valid(t)
  {
  }

  /** A key that is not indexed yet becomes a location of book b. */
  lemma AttachAddsKey(s: Tables, k: Key, l: LocRow, t: Tables)
    requires Valid(s) && k !in Keys(s) && l.book in s.books
    requires t == s.(locs := s.locs[k := l])
    ensures Valid(t)
    ensures forall c, x :: Owns(t, c, x) <==> Owns(s, c, x) || (c == l.book && x == k)
  {
    AttachStaysValid(s, k, l, t);
    assert k !in s.locs;
  }

  /** A key that is not indexed yet becomes the canonical file of a new book. */
  lemma InsertAddsKey(s: Tables, row: BookRow, t: Tables)
    requires Valid(s) && row.key !in Keys(s)
    requires t == s.(books := s.books[s.nextId := row], nextId := s.nextId + 1)
    ensures Valid(t)
    ensures forall c, x :: Owns(t, c, x) <==> Owns(s, c, x) || (c == s.nextId && x == row.key)
  {
  }

  /** Statistics and columns do not bear on who owns what. */
  ghost predicate SameLayout(s: Tables, t: Tables) {
    && t.books.Keys == s.books.Keys
    && (forall b | b in s.books :: t.books[b].key == s.books[b].key)
    && t.locs.Keys == s.locs.Keys
    && (forall k | k in s.locs :: t.locs[k].book == s.locs[k].book)
    && t.shelved == s.shelved
    && t.nextId == s.nextId
  }

  lemma SameLayoutKeepsOwners(s: Tables, t: Tables)
    requires Valid(s) && SameLayout(s, t)
    ensures Valid(t)
    ensures forall c, x :: Owns(t, c, x) <==> Owns(s, c, x)
  {
  }

  lemma RefreshKeepsLayout(s: Tables, k: Key, f: File, force: bool, t: Tables)
    requires k in s.locs && Upserted(s, k, f, force, t)
    ensures SameLayout(s, t)
  {
  }

  lemma RereadKeepsLayout(s: Tables, b: BookId, f: File, force: bool)
    requires b in s.books
    ensures SameLayout(s, Reread(s, b, f, force))
  {
  }

  lemma UpsertKnownKey(s: Tables, k: Key, f: File, force: bool, t: Tables)
    requires Valid(s) && k in Keys(s) && Upserted(s, k, f, force, t)
    ensures SameLayout(s, t)
  {
    if k in s.locs {
      RefreshKeepsLayout(s, k, f, force, t);
    } else {
      var c :| c in s.books && s.books[c].key == k;
      assert IsRow(s, c, k);
      var b :| IsRow(s, b, k) && t == Reread(s, b, f, force);
      RereadKeepsLayout(s, b, f, force);
    }
  }

  /** The book that a key which is not indexed yet goes to. */
  ghost predicate NewOwner(s: Tables, p: Parsed, b: BookId) {
    if TitleMatches(s, p) == {} then b == s.nextId else b in TitleMatches(s, p)
  }

  lemma UpsertNewKey(s: Tables, k: Key, f: File, force: bool, t: Tables) returns (b: BookId)
    requires Valid(s) && k !in Keys(s) && Upserted(s, k, f, force, t)
    ensures Valid(t) && t.shelved == s.shelved
    ensures NewOwner(s, f.parsed, b)
    ensures forall c, x :: Owns(t, c, x) <==> Owns(s, c, x) || (c == b && x == k)
  {
    assert k !in s.locs && !exists b :: IsRow(s, b, k);
    if TitleMatches(s, f.parsed) == {} {
      b := s.nextId;
      InsertAddsKey(s, t.books[s.nextId], t);
    } else {
      b := t.locs[k].book;
      AttachAddsKey(s, k, t.locs[k], t);
    }
  }

  lemma KeysGrow(s: Tables, t: Tables, k: Key)
    requires Valid(s) && Valid(t)
    requires forall c, x | x != k :: Owns(t, c, x) <==> Owns(s, c, x)
    requires exists c :: Owns(t, c, k)
    ensures Keys(t) == Keys(s) + {k}
  {
    forall x ensures x in Keys(t) <==> x in Keys(s) || x == k {
      ValidIsPartition(s, x);
      ValidIsPartition(t, x);
      if x != k {
        if c :| Owns(s, c, x) {
          assert Owns(t, c, x);
        }
        if c :| Owns(t, c, x) {
          assert Owns(s, c, x);
        }
      }
    }
  }

  /** A successful upsert adds exactly its key and moves no other. */
  lemma UpsertAddsItsKey(s: Tables, k: Key, f: File, force: bool, t: Tables)
    requires Valid(s) && Upserted(s, k, f, force, t)
    ensures Valid(t) && t.shelved == s.shelved
    ensures Keys(t) == Keys(s) + {k}
    ensures forall c, x | x != k || k in Keys(s) :: Owns(t, c, x) <==> Owns(s, c, x)
    ensures k !in Keys(s) ==> exists b :: Owns(t, b, k) && NewOwner(s, f.parsed, b)
  {
    if k in Keys(s) {
      UpsertKnownKey(s, k, f, force, t);
      SameLayoutKeepsOwners(s, t);
      ValidIsPartition(s, k);
      var c :| Owns(s, c, k);
      assert Owns(t, c, k);
      KeysGrow(s, t, k);
    } else {
      var b := UpsertNewKey(s, k, f, force, t);
      assert Owns(t, b, k);
      KeysGrow(s, t, k);
    }
  }

  /** Dropping a location, or promoting one to replace a lost canonical file, removes
      exactly one key; the UNIQUE constraint never stops the promotion. */
  lemma PromotionDropsKey(s: Tables, b: BookId, k: Key, t: Tables)
    requires Valid(s) && b in s.books && k in LocsOf(s, b) && t == Promoted(s, b, k)
    ensures Valid(t)
    ensures t.books == s.books[b := s.books[b].(key := k, stat := s.locs[k].stat)]
    ensures t.locs == s.locs - {k}
    ensures forall c, x :: Owns(t, c, x) <==> Owns(s, c, x) && x != s.books[b].key
  {
    assert forall c | c in s.books :: s.books[c].key != k;
  }

  /** Losing a canonical file removes exactly its key, and the book row goes only when
      the book has no other file. */
  lemma RemoveDropsItsKey(s: Tables, b: BookId, seen: set<Key>, t: Tables)
    requires Valid(s) && b in s.books && Removed(s, b, seen, t)
    ensures Valid(t)
    ensures forall c, x :: Owns(t, c, x) <==> Owns(s, c, x) && x != s.books[b].key
    ensures t.books.Keys == if LocsOf(s, b) == {} then s.books.Keys - {b} else s.books.Keys
    ensures t.shelved == s.shelved
  {
    if LocsOf(s, b) == {} {
      assert forall k | k in s.locs && s.locs[k].book == b :: k in LocsOf(s, b);
    } else {
      var k :| Promotes(s, b, seen, k) && t == Promoted(s, b, k);
      PromotionDropsKey(s, b, k, t);
    }
  }

  lemma RemoveUnknownIsNoOp(s: Tables, b: BookId, seen: set<Key>, t: Tables)
    requires Valid(s) && b !in s.books && Removed(s, b, seen, t)
    ensures t == s
  {
  }

  lemma DroppedKey(s: Tables, k: Key, t: Tables)
    requires Valid(s) && Valid(t)
    requires forall c, x :: Owns(t, c, x) <==> Owns(s, c, x) && x != k
    ensures Keys(t) == Keys(s) - {k}
  {
    forall x ensures x in Keys(t) <==> x in Keys(s) - {k} {
      ValidIsPartition(s, x);
      ValidIsPartition(t, x);
    }
  }

  /** DeleteByPath removes exactly its key, whichever table holds it. */
  lemma DeleteByPathDropsItsKey(s: Tables, k: Key, t: Tables)
    requires Valid(s) && DeletedByPath(s, k, t)
    ensures Valid(t) && t.shelved == s.shelved
    ensures Keys(t) == Keys(s) - {k}
    ensures forall c, x :: Owns(t, c, x) <==> Owns(s, c, x) && x != k
  {
    if exists b :: IsRow(s, b, k) {
      var b :| IsRow(s, b, k) && Removed(s, b, {}, t);
      RemoveDropsItsKey(s, b, {}, t);
    } else {
      assert forall b | b in s.books :: !IsRow(s, b, k);
    }
    DroppedKey(s, k, t);
  }

  // ---------------------------------------------------------------------------
  // Merging is a quotient of the partition
  // ---------------------------------------------------------------------------

  /** rep sends every book to the book that stands for it. */
  ghost predicate Representatives(s: Tables, rep: map<BookId, BookId>) {
    && rep.Keys == s.books.Keys
    && forall b | b in s.books :: rep[b] in s.books && rep[rep[b]] == rep[b]
  }

  ghost predicate SurvivingRows(s: Tables, rep: map<BookId, BookId>, t: Tables)
    requires Representatives(s, rep)
  {
    && (forall b :: b in t.books <==> b in s.books && rep[b] == b)
    && (forall b | b in t.books :: t.books[b] == s.books[b])
  }

  ghost predicate FoldedLocs(s: Tables, rep: map<BookId, BookId>, locs: map<Key, LocRow>)
    requires Representatives(s, rep)
  {
    && (forall k :: k in locs <==> k in s.locs || exists b :: IsRow(s, b, k) && rep[b] != b)
    && (forall k | k in s.locs :: locs[k] == s.locs[k].(book := RepOf(rep, s.locs[k].book)))
    && (forall b, k | IsRow(s, b, k) && rep[b] != b :: locs[k].book == rep[b] && locs[k].stat == s.books[b].stat)
  }

  /** t is s with every book folded into its representative: the survivors keep their rows,
      every file of a folded book becomes a location of its representative, and the shelves
      of a class are united. */
  ghost predicate Quotient(s: Tables, rep: map<BookId, BookId>, t: Tables)
    requires Representatives(s, rep)
  {
    && SurvivingRows(s, rep, t)
    && FoldedLocs(s, rep, t.locs)
    && t.shelved == Reshelved(s.shelved, rep)
    && t.isbn == s.isbn
    && t.nextId == s.nextId
  }

  function MergeRep(s: Tables, keep: BookId, drop: BookId): map<BookId, BookId> {
    map b | b in s.books :: Redirect(b, drop, keep)
  }

  lemma ReshelvedAgrees(shelved: set<Membership>, r1: map<BookId, BookId>, r2: map<BookId, BookId>)
    requires forall m | m in shelved :: RepOf(r1, m.book) == RepOf(r2, m.book)
    ensures Reshelved(shelved, r1) == Reshelved(shelved, r2)
  {
  }

  lemma MergeRepFolds(s: Tables, keep: BookId, drop: BookId)
    requires keep in s.books && drop in s.books && keep != drop
    ensures Representatives(s, MergeRep(s, keep, drop))
    ensures forall b, k | IsRow(s, b, k) :: MergeRep(s, keep, drop)[b] != b <==> b == drop
  {
  }

  lemma MergeFoldsLocations(s: Tables, keep: BookId, drop: BookId, locs: map<Key, LocRow>)
    requires Valid(s) && keep in s.books && drop in s.books && keep != drop
    requires MergedLocs(s, keep, drop, locs)
    requires Representatives(s, MergeRep(s, keep, drop))
    ensures FoldedLocs(s, MergeRep(s, keep, drop), locs)
  {
    MergeRepFolds(s, keep, drop);
    var rep := MergeRep(s, keep, drop);
    assert IsRow(s, drop, s.books[drop].key);
    forall k ensures k in locs <==> k in s.locs || exists b :: IsRow(s, b, k) && rep[b] != b {
    }
    forall k | k in s.locs ensures locs[k] == s.locs[k].(book := RepOf(rep, s.locs[k].book)) {
    }
  }

  /** Merging two books that exist is the quotient that identifies them; in particular the
      INSERT OR IGNORE never drops the merged book's own file. */
  lemma MergeIsQuotient(s: Tables, keep: BookId, drop: BookId, t: Tables)
    requires Valid(s) && keep in s.books && drop in s.books && keep != drop
    requires Merged(s, keep, drop, t)
    ensures Representatives(s, MergeRep(s, keep, drop))
    ensures Quotient(s, MergeRep(s, keep, drop), t)
  {
    MergeRepFolds(s, keep, drop);
    MergeFoldsLocations(s, keep, drop, t.locs);
    ReshelvedAgrees(s.shelved, MergeRep(s, keep, drop), map[drop := keep]);
  }

  lemma FoldedFrom(s: Tables, rep: map<BookId, BookId>, t: Tables, c: BookId, x: Key) returns (b: BookId)
    requires Valid(s) && Representatives(s, rep) && Quotient(s, rep, t) && Owns(t, c, x)
    ensures Owns(s, b, x) && rep[b] == c
  {
    if x in t.locs && t.locs[x].book == c {
      if x in s.locs {
        b := s.locs[x].book;
      } else {
        b :| IsRow(s, b, x) && rep[b] != b;
      }
    } else {
      b := c;
    }
  }

  lemma FoldedTo(s: Tables, rep: map<BookId, BookId>, t: Tables, b: BookId, x: Key)
    requires Valid(s) && Representatives(s, rep) && Quotient(s, rep, t) && Owns(s, b, x)
    ensures Owns(t, rep[b], x)
  {
    assert x in s.locs || IsRow(s, b, x);
  }

  lemma QuotientStaysValid(s: Tables, rep: map<BookId, BookId>, t: Tables)
    requires Valid(s) && Representatives(s, rep) && Quotient(s, rep, t)
    ensures Valid(t)
  {
    forall k | k in t.locs ensures t.locs[k].book in t.books {
      if k !in s.locs {
        var b :| IsRow(s, b, k) && rep[b] != b;
      }
    }
  }

  /** A quotient keeps the key set and the partition; classes are united along rep. */
  lemma QuotientUnitesClasses(s: Tables, rep: map<BookId, BookId>, t: Tables)
    requires Valid(s) && Representatives(s, rep) && Quotient(s, rep, t)
    ensures Valid(t)
    ensures forall c, x :: Owns(t, c, x) <==> exists b :: Owns(s, b, x) && rep[b] == c
  {
    forall c, x ensures Owns(t, c, x) <==> exists b :: Owns(s, b, x) && rep[b] == c {
      if Owns(t, c, x) {
        var b := FoldedFrom(s, rep, t, c, x);
      }
      if b :| Owns(s, b, x) && rep[b] == c {
        FoldedTo(s, rep, t, b, x);
      }
    }
    QuotientStaysValid(s, rep, t);
  }

  lemma QuotientKeepsKeys(s: Tables, rep: map<BookId, BookId>, t: Tables)
    requires Valid(s) && Representatives(s, rep) && Quotient(s, rep, t)
    ensures Keys(t) == Keys(s)
    ensures CarriesShelves(s, t, Keys(s))
  {
    QuotientUnitesClasses(s, rep, t);
    KeysAreOwned(s);
    KeysAreOwned(t);
    forall b, x | x in Keys(s) && Owns(s, b, x)
      ensures exists c :: Owns(t, c, x) && ShelvesOf(s, b) <= ShelvesOf(t, c)
    {
      forall sh | sh in ShelvesOf(s, b) ensures sh in ShelvesOf(t, rep[b]) {
        assert Membership(sh, RepOf(rep, b)) in Reshelved(s.shelved, rep);
      }
      assert Owns(t, rep[b], x);
    }
  }

  /** The shelves of a class are exactly the shelves its members were on. */
  lemma QuotientUnitesShelves(s: Tables, rep: map<BookId, BookId>, t: Tables, c: BookId, sh: ShelfId)
    requires Representatives(s, rep) && Quotient(s, rep, t) && c in t.books
    ensures sh in ShelvesOf(t, c) <==> exists b :: b in s.books && rep[b] == c && sh in ShelvesOf(s, b)
  {
    if sh in ShelvesOf(t, c) {
      var m :| m in s.shelved && Membership(m.shelf, RepOf(rep, m.book)) == Membership(sh, c);
      assert m.book in s.books && rep[m.book] == c && sh in ShelvesOf(s, m.book);
    }
    if b :| b in s.books && rep[b] == c && sh in ShelvesOf(s, b) {
      assert Membership(sh, RepOf(rep, b)) in Reshelved(s.shelved, rep);
    }
  }

  ghost function ComposeReps(r1: map<BookId, BookId>, r2: map<BookId, BookId>): map<BookId, BookId>
    requires forall b | b in r1 :: r1[b] in r2
  {
    map b | b in r1 :: r2[r1[b]]
  }

  lemma SurvivorsHaveReps(s: Tables, r1: map<BookId, BookId>, t: Tables, r2: map<BookId, BookId>)
    requires Representatives(s, r1) && Quotient(s, r1, t) && Representatives(t, r2)
    ensures forall b | b in r1 :: r1[b] in r2
    ensures Representatives(s, ComposeReps(r1, r2))
  {
  }

  lemma ShelvesCompose(s: Tables, r1: map<BookId, BookId>, t: Tables, r2: map<BookId, BookId>)
    requires Representatives(s, r1) && Quotient(s, r1, t) && Representatives(t, r2)
    requires forall b | b in r1 :: r1[b] in r2
    ensures Reshelved(t.shelved, r2) == Reshelved(s.shelved, ComposeReps(r1, r2))
  {
  }

  lemma RowFolds(t: Tables, rep: map<BookId, BookId>, u: Tables, b: BookId, k: Key)
    requires Representatives(t, rep) && FoldedLocs(t, rep, u.locs) && IsRow(t, b, k) && rep[b] != b
    ensures k in u.locs && u.locs[k].book == rep[b] && u.locs[k].stat == t.books[b].stat
  {
  }

  lemma LocationFolds(t: Tables, rep: map<BookId, BookId>, u: Tables, k: Key)
    requires Representatives(t, rep) && FoldedLocs(t, rep, u.locs) && k in t.locs
    ensures k in u.locs && u.locs[k] == t.locs[k].(book := RepOf(rep, t.locs[k].book))
  {
  }

  lemma FoldedFileComposes(s: Tables, r1: map<BookId, BookId>, t: Tables, r2: map<BookId, BookId>, u: Tables,
                           b: BookId, k: Key)
    requires Valid(s) && Representatives(s, r1) && SurvivingRows(s, r1, t) && FoldedLocs(s, r1, t.locs)
    requires Representatives(t, r2) && FoldedLocs(t, r2, u.locs)
    requires forall b | b in r1 :: r1[b] in r2
    requires Representatives(s, ComposeReps(r1, r2))
    requires IsRow(s, b, k) && r2[r1[b]] != b
    ensures k in u.locs && u.locs[k].book == r2[r1[b]] && u.locs[k].stat == s.books[b].stat
  {
    if r1[b] == b {
      RowFolds(t, r2, u, b, k);
    } else {
      LocationFolds(t, r2, u, k);
    }
  }

  lemma FoldedKeyComposes(s: Tables, r1: map<BookId, BookId>, t: Tables, r2: map<BookId, BookId>, u: Tables, k: Key)
    requires Valid(s) && Representatives(s, r1) && SurvivingRows(s, r1, t) && FoldedLocs(s, r1, t.locs)
    requires Representatives(t, r2) && FoldedLocs(t, r2, u.locs)
    requires forall b | b in r1 :: r1[b] in r2
    requires Representatives(s, ComposeReps(r1, r2))
    requires k in u.locs && k !in s.locs
    ensures exists b :: IsRow(s, b, k) && r2[r1[b]] != b
  {
  }

  lemma OldLocationComposes(s: Tables, r1: map<BookId, BookId>, t: Tables, r2: map<BookId, BookId>, u: Tables, k: Key)
    requires Representatives(s, r1) && FoldedLocs(s, r1, t.locs)
    requires Representatives(t, r2) && FoldedLocs(t, r2, u.locs)
    requires forall b | b in r1 :: r1[b] in r2
    requires k in s.locs && s.locs[k].book in s.books
    ensures k in u.locs && u.locs[k] == s.locs[k].(book := RepOf(ComposeReps(r1, r2), s.locs[k].book))
  {
  }

  lemma LocationsCompose(s: Tables, r1: map<BookId, BookId>, t: Tables, r2: map<BookId, BookId>, u: Tables)
    requires Valid(s) && Representatives(s, r1) && SurvivingRows(s, r1, t) && FoldedLocs(s, r1, t.locs)
    requires Representatives(t, r2) && FoldedLocs(t, r2, u.locs)
    requires forall b | b in r1 :: r1[b] in r2
    requires Representatives(s, ComposeReps(r1, r2))
    ensures FoldedLocs(s, ComposeReps(r1, r2), u.locs)
  {
    forall b, k | IsRow(s, b, k) && r2[r1[b]] != b
      ensures k in u.locs && u.locs[k].book == r2[r1[b]] && u.locs[k].stat == s.books[b].stat
    {
      FoldedFileComposes(s, r1, t, r2, u, b, k);
    }
    forall k | k in u.locs && k !in s.locs
      ensures exists b :: IsRow(s, b, k) && r2[r1[b]] != b
    {
      FoldedKeyComposes(s, r1, t, r2, u, k);
    }
    forall k | k in s.locs
      ensures k in u.locs && u.locs[k] == s.locs[k].(book := RepOf(ComposeReps(r1, r2), s.locs[k].book))
    {
      OldLocationComposes(s, r1, t, r2, u, k);
    }
  }

  lemma QuotientsCompose(s: Tables, r1: map<BookId, BookId>, t: Tables, r2: map<BookId, BookId>, u: Tables)
    requires Valid(s) && Representatives(s, r1) && Quotient(s, r1, t)
    requires Representatives(t, r2) && Quotient(t, r2, u)
    ensures forall b | b in r1 :: r1[b] in r2
    ensures Representatives(s, ComposeReps(r1, r2))
    ensures Quotient(s, ComposeReps(r1, r2), u)
  {
    SurvivorsHaveReps(s, r1, t, r2);
    LocationsCompose(s, r1, t, r2, u);
    ShelvesCompose(s, r1, t, r2);
    forall b | b in s.books ensures ComposeReps(r1, r2)[b] == b <==> r1[b] == b && r2[b] == b {
      assert r2[r1[b]] in t.books;
    }
  }
}
