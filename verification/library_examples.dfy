/** Runs of the library index, from the empty tables, in which the code falls short of what
    its comments promise. */
module LibraryExamples {
  import opened Strings
  import opened LibraryTables
  import opened LibraryDedup
  import opened LibraryRuns
  import opened LibraryScan

  // ---------------------------------------------------------------------------
  // Reaching tables
  // ---------------------------------------------------------------------------

  ghost predicate Reached(s: Tables) {
    exists run, calls :: IsRun(run, calls) && run[|calls|] == s
  }

  lemma EmptyIsReached()
    ensures Reached(EMPTY)
  {
    assert IsRun([EMPTY], []);
  }

  lemma Reaches(s: Tables, call: Call, t: Tables)
    requires Reached(s) && Step(s, call, t)
    ensures Reached(t)
  {
    var run, calls :| IsRun(run, calls) && run[|calls|] == s;
    assert IsRun(run + [t], calls + [call]);
  }

  // ---------------------------------------------------------------------------
  // Files with one-letter titles by one author
  // ---------------------------------------------------------------------------

  function Work(title: char, description: string): Columns {
    Columns([title], [title], "a", "a", "", 0.0, description, "", "", "", "", "")
  }

  function Text(title: char, description: string, mtime: int): File {
    File(Stat(1, mtime), Readable(Work(title, description)))
  }

  function Path(name: string): Key {
    Key("root", name)
  }

  predicate Letter(c: char) {
    'a' <= c <= 'z'
  }

  lemma LetterIsFolded(c: char)
    requires Letter(c)
    ensures Folded([c]) == [c]
  {
    assert |Lower([c])| == 1 && Lower([c])[0] == AsciiLower(c);
  }

  lemma WorksDifferIff(c: char, d: char, x: string, y: string)
    requires Letter(c) && Letter(d)
    ensures SameWork(Work(c, x), Work(d, y)) <==> c == d
    ensures Comparable(Work(c, x))
  {
    LetterIsFolded(c);
    LetterIsFolded(d);
    LetterIsFolded('a');
  }

  function RowOf(name: string, title: char, description: string, mtime: int): BookRow {
    BookRow(Path(name), Stat(1, mtime), Work(title, description), 0)
  }

  lemma InsertStep(s: Tables, name: string, title: char, description: string)
    requires Reached(s) && Path(name) !in Keys(s)
    requires TitleMatches(s, Readable(Work(title, description))) == {}
    ensures Reached(s.(books := s.books[s.nextId := RowOf(name, title, description, 1)], nextId := s.nextId + 1))
  {
    var t := s.(books := s.books[s.nextId := RowOf(name, title, description, 1)], nextId := s.nextId + 1);
    assert forall b :: !IsRow(s, b, Path(name));
    assert Upserted(s, Path(name), Text(title, description, 1), false, t);
    Reaches(s, Upsert(Path(name), Text(title, description, 1), false), t);
  }

  lemma AttachStep(s: Tables, name: string, title: char, description: string, b: BookId)
    requires Reached(s) && Path(name) !in Keys(s)
    requires b in TitleMatches(s, Readable(Work(title, description)))
    ensures Reached(s.(locs := s.locs[Path(name) := LocRow(b, Stat(1, 1), 0)]))
  {
    var t := s.(locs := s.locs[Path(name) := LocRow(b, Stat(1, 1), 0)]);
    assert forall c :: !IsRow(s, c, Path(name));
    assert Upserted(s, Path(name), Text(title, description, 1), false, t);
    Reaches(s, Upsert(Path(name), Text(title, description, 1), false), t);
  }

  lemma RereadStep(s: Tables, name: string, title: char, b: BookId)
    requires Reached(s) && IsRow(s, b, Path(name)) && Path(name) !in s.locs && s.books[b].stat == Stat(1, 1)
    ensures Reached(s.(books := s.books[b := s.books[b].(stat := Stat(1, 2), cols := Work(title, ""))]))
  {
    var t := s.(books := s.books[b := s.books[b].(stat := Stat(1, 2), cols := Work(title, ""))]);
    assert Upserted(s, Path(name), Text(title, "", 2), false, t);
    Reaches(s, Upsert(Path(name), Text(title, "", 2), false), t);
  }

  // ---------------------------------------------------------------------------
  // A stale key after one scan
  // ---------------------------------------------------------------------------

  function OneBook(d1: string): Tables {
    Tables(map[1 := RowOf("A", 't', d1, 1)], map[], {}, map[], 2)
  }

  function TwoCopies(d1: string): Tables {
    OneBook(d1).(locs := map[Path("B") := LocRow(1, Stat(1, 1), 0)])
  }

  lemma TwoCopiesAreReached(d1: string, d2: string)
    ensures Reached(OneBook(d1)) && Reached(TwoCopies(d1))
  {
    EmptyIsReached();
    InsertStep(EMPTY, "A", 't', d1);
    assert EMPTY.books[1 := RowOf("A", 't', d1, 1)] == OneBook(d1).books;
    WorksDifferIff('t', 't', d1, d2);
    assert 1 in TitleMatches(OneBook(d1), Readable(Work('t', d2)));
    AttachStep(OneBook(d1), "B", 't', d2, 1);
  }

  lemma EmptyDiskScan(s: Tables, p: Tables, t: Tables)
    requires Pruned(s, {}, p) && Consolidated(p, [], t)
    ensures IsScan(ScanRun([s], p, t), s, map[], [], [], false)
  {
    var none: Disk := map[];
    assert none.Keys == {};
  }

  lemma UniqueStays(p: Tables)
    requires NoDuplicates(p)
    ensures Consolidated(p, [], p)
  {
    var rep := map b | b in p.books :: b;
    forall b | b in p.books ensures LeastAt(p, [], rep, b) {
    }
    forall m | m in p.shelved ensures Membership(m.shelf, RepOf(rep, m.book)) == m {
    }
    assert Reshelved(p.shelved, rep) == p.shelved;
    assert Quotient(p, rep, p);
  }

  lemma OnlyKey(p: Tables, k: Key)
    requires p.books.Keys == {1} && p.books[1].key == k && p.locs == map[]
    ensures Keys(p) == {k} && NoDuplicates(p)
  {
    assert 1 in p.books;
  }

  lemma CopyIsPromoted()
    ensures Pruned(TwoCopies(""), {}, TwoCopies("").(books := map[1 := RowOf("B", 't', "", 1)], locs := map[]))
  {
    assert LocsOf(TwoCopies(""), 1) == {Path("B")};
    assert Promotes(TwoCopies(""), 1, {}, Path("B"));
  }

  /** Two copies of a book vanish together: one scan keeps the second as its file. */
  lemma StaleAfterOneScan() returns (s: Tables, r: ScanRun)
    ensures Reached(s) && IsScan(r, s, map[], [], [], false)
    ensures Keys(r.final) == {Path("B")}
  {
    s := TwoCopies("");
    TwoCopiesAreReached("", "");
    CopyIsPromoted();
    var p := s.(books := map[1 := RowOf("B", 't', "", 1)], locs := map[]);
    OnlyKey(p, Path("B"));
    UniqueStays(p);
    EmptyDiskScan(s, p, p);
    r := ScanRun([s], p, p);
  }

  // ---------------------------------------------------------------------------
  // A stale key after two scans
  // ---------------------------------------------------------------------------

  function OtherBook(title: char, mtime: int): BookRow {
    RowOf("C", title, "", mtime)
  }

  /** Books 1 and 2 with a copy each; book 2 has this title. */
  function Pair(title: char, mtime: int, locs: map<Key, LocRow>): Tables {
    Tables(map[1 := RowOf("A", 't', "", 1), 2 := OtherBook(title, mtime)], locs, {}, map[], 3)
  }

  const ONE_COPY := map[Path("B") := LocRow(1, Stat(1, 1), 0)]
  const BOTH_COPIES := map[Path("B") := LocRow(1, Stat(1, 1), 0), Path("D") := LocRow(2, Stat(1, 1), 0)]

  lemma PairIsReached()
    ensures Reached(Pair('u', 1, BOTH_COPIES))
  {
    TwoCopiesAreReached("", "");
    WorksDifferIff('t', 'u', "", "");
    WorksDifferIff('u', 'u', "", "");
    assert TitleMatches(TwoCopies(""), Readable(Work('u', ""))) == {};
    InsertStep(TwoCopies(""), "C", 'u', "");
    assert TwoCopies("").books[2 := OtherBook('u', 1)] == Pair('u', 1, ONE_COPY).books;
    assert 2 in TitleMatches(Pair('u', 1, ONE_COPY), Readable(Work('u', "")));
    AttachStep(Pair('u', 1, ONE_COPY), "D", 'u', "", 2);
    assert ONE_COPY[Path("D") := LocRow(2, Stat(1, 1), 0)] == BOTH_COPIES;
  }

  /** Editing a file's title makes its row a duplicate of the other one. */
  lemma TwinsAreReached()
    ensures Reached(Pair('t', 2, BOTH_COPIES))
  {
    PairIsReached();
    var s := Pair('u', 1, BOTH_COPIES);
    RereadStep(s, "C", 't', 2);
    assert s.books[2 := s.books[2].(stat := Stat(1, 2), cols := Work('t', ""))] == Pair('t', 2, BOTH_COPIES).books;
  }

  const PROMOTED := Tables(map[1 := RowOf("B", 't', "", 1), 2 := RowOf("D", 't', "", 1)], map[], {}, map[], 3)
  const FOLDED := Tables(map[1 := RowOf("B", 't', "", 1)], map[Path("D") := LocRow(1, Stat(1, 1), 0)], {}, map[], 3)
  const LAST_LEFT := Tables(map[1 := RowOf("D", 't', "", 1)], map[], {}, map[], 3)

  lemma TwinsArePromoted()
    ensures Pruned(Pair('t', 2, BOTH_COPIES), {}, PROMOTED)
  {
    var s := Pair('t', 2, BOTH_COPIES);
    assert LocsOf(s, 1) == {Path("B")} && LocsOf(s, 2) == {Path("D")};
    assert Promotes(s, 1, {}, Path("B")) && Promotes(s, 2, {}, Path("D"));
  }

  lemma TwinsAreFolded()
    ensures Consolidated(PROMOTED, [], FOLDED)
  {
    var rep := map[1 := 1, 2 := 1];
    assert Precedes(PROMOTED, [], 1, 2);
    assert SameGroup(PROMOTED, 1, 2) && SameGroup(PROMOTED, 2, 1) by {
      WorksDifferIff('t', 't', "", "");
    }
    assert LeastAt(PROMOTED, [], rep, 1) && LeastAt(PROMOTED, [], rep, 2);
    assert IsRow(PROMOTED, 2, Path("D"));
    assert Quotient(PROMOTED, rep, FOLDED);
  }

  lemma LastStays()
    ensures Consolidated(LAST_LEFT, [], LAST_LEFT) && Keys(LAST_LEFT) == {Path("D")}
  {
    OnlyKey(LAST_LEFT, Path("D"));
    UniqueStays(LAST_LEFT);
  }

  lemma LastIsPromoted()
    ensures Pruned(FOLDED, {}, LAST_LEFT) && Consolidated(LAST_LEFT, [], LAST_LEFT) && Keys(LAST_LEFT) == {Path("D")}
  {
    assert LocsOf(FOLDED, 1) == {Path("D")};
    assert Promotes(FOLDED, 1, {}, Path("D"));
    LastStays();
  }

  /** Two rows of one title and author, each with a copy, vanish together: the first scan
      folds the two promoted copies into one book, the second keeps one of them. */
  lemma StaleAfterTwoScans() returns (s: Tables, r1: ScanRun, r2: ScanRun)
    ensures Reached(s) && IsScan(r1, s, map[], [], [], false) && IsScan(r2, r1.final, map[], [], [], false)
    ensures Keys(r2.final) == {Path("D")}
  {
    s := Pair('t', 2, BOTH_COPIES);
    TwinsAreReached();
    TwinsArePromoted();
    TwinsAreFolded();
    LastIsPromoted();
    EmptyDiskScan(s, PROMOTED, FOLDED);
    EmptyDiskScan(FOLDED, LAST_LEFT, LAST_LEFT);
    r1 := ScanRun([s], PROMOTED, FOLDED);
    r2 := ScanRun([FOLDED], LAST_LEFT, LAST_LEFT);
  }

  // ---------------------------------------------------------------------------
  // A duplicate ISBN that is not merged
  // ---------------------------------------------------------------------------

  const ROW_X := RowOf("X", 'x', "", 1)
  const ROW_Y := RowOf("Y", 'y', "", 1)
  const ROW_Z := RowOf("Z", 'z', "", 1)

  function Books(books: map<BookId, BookRow>, isbn: map<BookId, string>, nextId: BookId): Tables {
    Tables(books, map[], {}, isbn, nextId)
  }

  lemma TwoBooksAreReached()
    ensures Reached(Books(map[1 := ROW_X, 2 := ROW_Y], map[], 3))
  {
    EmptyIsReached();
    InsertStep(EMPTY, "X", 'x', "");
    var one := Books(map[1 := ROW_X], map[], 2);
    assert EMPTY.books[1 := ROW_X] == one.books;
    WorksDifferIff('x', 'y', "", "");
    InsertStep(one, "Y", 'y', "");
    assert one.books[2 := ROW_Y] == map[1 := ROW_X, 2 := ROW_Y];
  }

  lemma ThreeBooksAreReached()
    ensures Reached(Books(map[1 := ROW_X, 2 := ROW_Y, 3 := ROW_Z], map[], 4))
  {
    TwoBooksAreReached();
    var two := Books(map[1 := ROW_X, 2 := ROW_Y], map[], 3);
    WorksDifferIff('x', 'z', "", "");
    WorksDifferIff('y', 'z', "", "");
    InsertStep(two, "Z", 'z', "");
    assert two.books[3 := ROW_Z] == map[1 := ROW_X, 2 := ROW_Y, 3 := ROW_Z];
  }

  const SAME_ISBN := map[1 := "9", 2 := "9", 3 := "9"]

  lemma LastBookDeleted(s: Tables, t: Tables)
    requires s == Books(map[1 := ROW_X, 2 := ROW_Y, 3 := ROW_Z], SAME_ISBN, 4)
    requires t == Books(map[1 := ROW_X, 2 := ROW_Y], SAME_ISBN, 4)
    ensures Step(s, DeletePath(Path("Z")), t)
  {
    assert LocsOf(s, 3) == {};
    assert s.books - {3} == t.books;
    assert IsRow(s, 3, Path("Z")) && Removed(s, 3, {}, t);
  }

  /** Three books share an ISBN and the third's file is deleted: its enrichment row stays
      behind, the query may answer with it, and the first two are not merged. */
  lemma DuplicateIsbnSkipped() returns (s: Tables)
    ensures Reached(s) && s.books.Keys == {1, 2}
    ensures 1 in s.isbn && 2 in s.isbn && s.isbn[1] == s.isbn[2] != ""
    ensures Step(s, FoldIsbn([], 1), s)
  {
    ThreeBooksAreReached();
    var three := Books(map[1 := ROW_X, 2 := ROW_Y, 3 := ROW_Z], SAME_ISBN, 4);
    Reaches(three.(isbn := map[]), Enrich(SAME_ISBN), three);
    s := Books(map[1 := ROW_X, 2 := ROW_Y], SAME_ISBN, 4);
    LastBookDeleted(three, s);
    Reaches(three, DeletePath(Path("Z")), s);
    assert 3 in IsbnMatches(s, 1) && PairFolded(s, [], 1, 3, s);
  }

  // ---------------------------------------------------------------------------
  // A promoted file with the lost file's metadata
  // ---------------------------------------------------------------------------

  /** The first of two copies with different descriptions is deleted: the book shows the
      deleted file's, an unforced upsert of the file that is left changes nothing, and a
      forced one does. */
  lemma PromotedKeepsLostMetadata() returns (s: Tables)
    ensures Reached(s) && IsRow(s, 1, Path("B")) && s.books[1].cols.description == "lost"
    ensures Upserted(s, Path("B"), Text('t', "kept", 1), false, s)
    ensures !Upserted(s, Path("B"), Text('t', "kept", 1), true, s)
  {
    TwoCopiesAreReached("lost", "kept");
    var s1 := TwoCopies("lost");
    s := s1.(books := map[1 := RowOf("B", 't', "lost", 1)], locs := map[]);
    assert LocsOf(s1, 1) == {Path("B")};
    assert Promotes(s1, 1, {}, Path("B"));
    assert s1.locs - {Path("B")} == map[];
    assert Promoted(s1, 1, Path("B")) == s;
    assert IsRow(s1, 1, Path("A"));
    assert DeletedByPath(s1, Path("A"), s);
    Reaches(s1, DeletePath(Path("A")), s);
    assert IsRow(s, 1, Path("B"));
    assert Reread(s, 1, Text('t', "kept", 1), true).books[1].cols.description == "kept";
  }
}
