/** Shelf slugs: runs of letters and digits joined by hyphens, made unique per user by a
    counter; and the creation of shelves under the two unique indexes. */
module ShelfSlugs {
  import opened Wrappers
  import opened Strings

  // ---------------------------------------------------------------------------
  // The base of a slug
  // ---------------------------------------------------------------------------

  predicate SlugChar(c: char) {
    'a' <= c <= 'z' || '0' <= c <= '9'
  }

  predicate IsWord(w: string) {
    w != "" && forall i | 0 <= i < |w| :: SlugChar(w[i])
  }

  /** Words of slug characters joined by single hyphens: none leading, none trailing. */
  ghost predicate IsSlug(s: string) {
    exists words: seq<string> :: words != [] && (forall w | w in words :: IsWord(w)) && s == Join(words, "-")
  }

  predicate EndsInWord(s: string) {
    s != "" && SlugChar(s[|s| - 1])
  }

  /** One more slug character, in the last word or starting a new one. */
  function Extended(words: seq<string>, c: char, inWord: bool): (longer: seq<string>)
    requires SlugChar(c) && (inWord ==> words != [])
    requires forall w | w in words :: IsWord(w)
    ensures longer != [] && forall w | w in longer :: IsWord(w)
  {
    var n := |words| - 1;
    if inWord then
      assert IsWord(words[n]);
      words[..n] + [words[n] + [c]]
    else words + [[c]]
  }

  /** The small letters and the digits, by code point. */
  predicate LetterOrDigit(c: char) {
    97 <= c as int <= 122 || 48 <= c as int <= 57
  }

  /** The maximal runs of slug characters. */
  function Words(s: string): (words: seq<string>)
    ensures forall w | w in words :: IsWord(w)
    ensures EndsInWord(s) ==> words != []
  {
    if s == "" then []
    else
      var init, c := s[..|s| - 1], s[|s| - 1];
      if SlugChar(c) then Extended(Words(init), c, EndsInWord(init)) else Words(init)
  }

  lemma JoinUnfold(words: seq<string>, rest: seq<string>)
    requires |words| > 1 && rest == words[1..]
    ensures Join(words, "-") == words[0] + "-" + Join(rest, "-")
  {
  }

  lemma {:induction false} JoinSnoc(words: seq<string>, w: string)
    ensures Join(words + [w], "-") == if words == [] then w else Join(words, "-") + "-" + w
    decreases |words|
  {
    if |words| > 1 {
      JoinSnoc(words[1..], w);
      JoinUnfold(words + [w], words[1..] + [w]);
      JoinUnfold(words, words[1..]);
    } else if |words| == 1 {
      JoinUnfold(words + [w], [w]);
    } else {
      assert words + [w] == [w];
    }
  }

  lemma JoinGrow(init: seq<string>, w: string, c: char)
    ensures Join(init + [w + [c]], "-") == Join(init + [w], "-") + [c]
  {
    JoinSnoc(init, w);
    JoinSnoc(init, w + [c]);
    assert Join(init, "-") + "-" + (w + [c]) == Join(init, "-") + "-" + w + [c];
  }

  lemma JoinExtended(words: seq<string>, c: char, inWord: bool)
    requires SlugChar(c) && (inWord ==> words != [])
    requires forall w | w in words :: IsWord(w)
    ensures Join(Extended(words, c, inWord), "-") == Join(words, "-") + if words != [] && !inWord then ['-', c] else [c]
  {
    if inWord {
      var n := |words| - 1;
      JoinGrow(words[..n], words[n], c);
      assert words[..n] + [words[n]] == words;
    } else {
      JoinSnoc(words, [c]);
    }
  }

  lemma JoinedEnds(words: seq<string>)
    requires words != [] && forall w | w in words :: IsWord(w)
    ensures var s := Join(words, "-"); s != "" && SlugChar(s[0]) && SlugChar(s[|s| - 1])
  {
    var init, w := words[..|words| - 1], words[|words| - 1];
    JoinSnoc(init, w);
    assert words == init + [w];
    assert w in words && words[0] in words && IsWord(words[0]) && IsWord(w);
    JoinHeads(words);
  }

  lemma JoinHeads(words: seq<string>)
    requires words != []
    ensures words[0] <= Join(words, "-")
  {
  }

  /** What the loop has built after a prefix: the words so far, and a hyphen if they are
      followed by something else. */
  function Built(s: string): string {
    Join(Words(s), "-") + if Words(s) != [] && !EndsInWord(s) then "-" else ""
  }

  lemma BuildStep(s: string, c: char)
    ensures var b := Built(s);
            Built(s + [c]) ==
              if SlugChar(c) then b + [c]
              else if b != "" && b[|b| - 1] != '-' then b + "-"
              else b
  {
    var t, words := s + [c], Words(s);
    assert t[..|t| - 1] == s;
    if words != [] {
      JoinedEnds(words);
    }
    if SlugChar(c) {
      JoinExtended(words, c, EndsInWord(s));
    }
  }

  method SlugBase(name: string, lower: char -> char) returns (base: string)
    ensures var words := Words(Fold(name, lower)); base == if words == [] then "shelf" else Join(words, "-")
  {
    var s := Fold(name, lower);
    var b := "";
    var i := 0;
    while i < |s|
      invariant 0 <= i <= |s|
      invariant b == Built(s[..i])
    {
      var c := s[i];
      BuildStep(s[..i], c);
      assert s[..i + 1] == s[..i] + [c];
      if SlugChar(c) {
        b := b + [c];
      } else if b != "" && b[|b| - 1] != '-' {
        b := b + "-";
      }
      i := i + 1;
    }
    assert s[..i] == s && b == Built(s);
    TrimBuilt(s);
    base := TrimHyphens(b);
    if base == "" {
      base := "shelf";
    }
  }

  /** strings.Trim(s, "-"). */
  function TrimHyphens(s: string): string {
    if s != "" && s[0] == '-' then TrimHyphens(s[1..])
    else if s != "" && s[|s| - 1] == '-' then TrimHyphens(s[..|s| - 1])
    else s
  }

  lemma TrimBuilt(s: string)
    ensures TrimHyphens(Built(s)) == Join(Words(s), "-")
    ensures Words(s) != [] ==> Join(Words(s), "-") != ""
  {
    var words := Words(s);
    if words != [] {
      JoinedEnds(words);
      var j := Join(words, "-");
      assert (j + "-")[..|j|] == j;
    }
  }

  function Letters(s: string): string {
    if s == "" then "" else Letters(s[..|s| - 1]) + if SlugChar(s[|s| - 1]) then [s[|s| - 1]] else ""
  }

  lemma LettersSnoc(s: string, c: char)
    ensures Letters(s + [c]) == Letters(s) + if SlugChar(c) then [c] else ""
  {
    assert (s + [c])[..|s|] == s;
  }

  lemma LettersStep(s: string, c: char)
    requires Letters(Built(s)) == Letters(s)
    ensures Letters(Built(s + [c])) == Letters(s + [c])
  {
    var b := Built(s);
    BuildStep(s, c);
    LettersSnoc(s, c);
    LettersSnoc(b, c);
    LettersSnoc(b, '-');
  }

  /** A slug's base keeps every letter and digit of the name, in order, and nothing else
      but the hyphens. */
  lemma {:induction false} BaseKeepsLetters(s: string)
    ensures Letters(Built(s)) == Letters(s)
    decreases |s|
  {
    if s != "" {
      var init, c := s[..|s| - 1], s[|s| - 1];
      BaseKeepsLetters(init);
      LettersStep(init, c);
      assert s == init + [c];
    }
  }

  lemma {:induction false} JoinOfWords(words: seq<string>)
    requires forall w | w in words :: IsWord(w)
    ensures forall c | c in Join(words, "-") :: LetterOrDigit(c) || c == '-'
  {
    if words != [] {
      assert words[0] in words;
      JoinOfWords(words[1..]);
      if |words| > 1 {
        JoinUnfold(words, words[1..]);
      }
      forall c | c in Join(words, "-") ensures LetterOrDigit(c) || c == '-' {
        assert c in words[0] || c in "-" || c in Join(words[1..], "-");
      }
    }
  }

  lemma {:induction false} LettersAre(s: string)
    ensures Letters(s) == OnlyLetters(s)
    decreases |s|
  {
    if s != "" {
      LettersAre(s[..|s| - 1]);
    }
  }

  predicate NoLetters(g: string) {
    forall i | 0 <= i < |g| :: !LetterOrDigit(g[i])
  }

  lemma WordsSnoc(s: string, c: char)
    ensures Words(s + [c]) == if LetterOrDigit(c) then Extended(Words(s), c, EndsInWord(s)) else Words(s)
  {
    assert (s + [c])[..|s|] == s;
  }

  lemma {:induction false} WordsOverGap(x: string, g: string)
    requires NoLetters(g)
    ensures Words(x + g) == Words(x)
    decreases |g|
  {
    if g == "" {
      assert x + g == x;
    } else {
      var init := g[..|g| - 1];
      WordsOverGap(x, init);
      WordsSnoc(x + init, g[|g| - 1]);
      assert x + g == (x + init) + [g[|g| - 1]];
    }
  }

  lemma ExtendedBehind(before: seq<string>, words: seq<string>, c: char, inWord: bool)
    requires LetterOrDigit(c) && (inWord ==> words != [])
    requires forall w | w in before + words :: IsWord(w)
    requires forall w | w in words :: IsWord(w)
    ensures Extended(before + words, c, inWord) == before + Extended(words, c, inWord)
  {
    if inWord {
      var all, n := before + words, |words| - 1;
      assert all[|all| - 1] == words[n] && all[..|all| - 1] == before + words[..n];
    }
  }

  /** Runs of letters and digits with anything else between them are words of their own. */
  lemma {:induction false} GapsCutWords(x: string, g: string, y: string)
    requires g != "" && NoLetters(g)
    ensures Words(x + g + y) == Words(x) + Words(y)
    decreases |y|
  {
    if y == "" {
      WordsOverGap(x, g);
      assert x + g + y == x + g && Words(x) + [] == Words(x);
    } else {
      var init, c := y[..|y| - 1], y[|y| - 1];
      GapsCutWords(x, g, init);
      WordsSnoc(x + g + init, c);
      assert x + g + y == (x + g + init) + [c] && y == init + [c];
      WordsSnoc(init, c);
      assert EndsInWord(x + g + init) <==> EndsInWord(init) by {
        var s := x + g + init;
        assert s[|s| - 1] == if init == "" then g[|g| - 1] else init[|init| - 1];
      }
      if LetterOrDigit(c) {
        ExtendedBehind(Words(x), Words(init), c, EndsInWord(init));
      }
    }
  }

  /** A run of them is one word. */
  lemma {:induction false} LettersAreOneWord(w: string)
    requires w != "" && forall i | 0 <= i < |w| :: LetterOrDigit(w[i])
    ensures Words(w) == [w]
    decreases |w|
  {
    var init, c := w[..|w| - 1], w[|w| - 1];
    assert w == init + [c];
    WordsSnoc(init, c);
    if init != "" {
      LettersAreOneWord(init);
      assert [init][..0] + [[init][0] + [c]] == [w];
    }
  }

  /** s without everything but small letters and digits. */
  function OnlyLetters(s: string): string {
    if s == "" then "" else OnlyLetters(s[..|s| - 1]) + if LetterOrDigit(s[|s| - 1]) then [s[|s| - 1]] else ""
  }

  lemma {:induction false} WordsWhenAny(s: string)
    ensures Words(s) == [] <==> OnlyLetters(s) == ""
    decreases |s|
  {
    if s != "" {
      WordsWhenAny(s[..|s| - 1]);
    }
  }

  /** A slug's base holds small letters, digits and hyphens only, and of these the letters
      and digits of the lowered name, in order; it is "shelf" when there are none. */
  lemma BaseSpells(s: string)
    ensures var words := Words(s);
            var base := if words == [] then "shelf" else Join(words, "-");
            && (forall c | c in base :: LetterOrDigit(c) || c == '-')
            && (base == "shelf" || OnlyLetters(base) == OnlyLetters(s))
            && (OnlyLetters(s) == "" ==> base == "shelf")
            && (OnlyLetters(s) != "" ==> OnlyLetters(base) == OnlyLetters(s))
  {
    var words := Words(s);
    WordsWhenAny(s);
    if words == [] {
      assert forall i | 0 <= i < 5 :: LetterOrDigit("shelf"[i]);
    } else {
      JoinOfWords(words);
      BaseKeepsLetters(s);
      LettersAre(s);
      LettersAre(Built(s));
      var base := Join(words, "-");
      LettersAre(base);
      LettersSnoc(base, '-');
      assert Letters(Built(s)) == Letters(base) by {
        assert Built(s) == base || Built(s) == base + ['-'];
        assert base + "" == base;
      }
    }
  }

  // ---------------------------------------------------------------------------
  // The search for a free slug
  // ---------------------------------------------------------------------------

  function Digit(d: int): char
    requires 0 <= d < 10
  {
    ('0' as int + d) as char
  }

  /** strconv.Itoa. */
  function Itoa(n: nat): (s: string)
    ensures IsWord(s)
  {
    if n < 10 then [Digit(n)] else Itoa(n / 10) + [Digit(n % 10)]
  }

  lemma {:induction false} ItoaIsInjective(m: nat, n: nat)
    requires Itoa(m) == Itoa(n)
    ensures m == n
    decreases m
  {
    var s := Itoa(m);
    assert m % 10 == s[|s| - 1] as int - '0' as int == n % 10;
    if m >= 10 && n >= 10 {
      assert Itoa(m / 10) == s[..|s| - 1] == Itoa(n / 10);
      ItoaIsInjective(m / 10, n / 10);
    }
  }

  /** The number that a row of decimal digits denotes. */
  function Decimal(s: string): int {
    if s == "" then 0 else 10 * Decimal(s[..|s| - 1]) + (s[|s| - 1] as int - 48)
  }

  /** Suffixes are decimal numbers without leading zeros. */
  lemma {:induction false} ItoaIsDecimal(n: nat)
    ensures Decimal(Itoa(n)) == n && (n > 0 ==> Itoa(n)[0] != '0')
    ensures forall c | c in Itoa(n) :: '0' <= c <= '9'
  {
    var s := Itoa(n);
    if n < 10 {
      assert s[..0] == "";
    } else {
      ItoaIsDecimal(n / 10);
      assert s[..|s| - 1] == Itoa(n / 10);
    }
  }

  /** The first try is the base itself, the n-th the base, a hyphen and n. */
  lemma CandidatesAre(base: string, n: nat)
    ensures n == 1 ==> Candidate(base, n) == base
    ensures n > 1 ==> exists number: string :: Candidate(base, n) == base + "-" + number && Decimal(number) == n
  {
    ItoaIsDecimal(n);
    if n > 1 {
      assert Candidate(base, n) == base + "-" + Itoa(n);
    }
  }

  function Candidate(base: string, n: nat): string {
    if n > 1 then base + "-" + Itoa(n) else base
  }

  lemma CandidatesDiffer(base: string, m: nat, n: nat)
    requires 1 <= m < n
    ensures Candidate(base, m) != Candidate(base, n)
  {
    if m > 1 && Candidate(base, m) == Candidate(base, n) {
      var s := Candidate(base, m);
      assert s[|base| + 1..] == Itoa(m) && s[|base| + 1..] == Itoa(n);
      ItoaIsInjective(m, n);
    }
  }

  lemma CandidateIsSlug(base: string, n: nat)
    requires IsSlug(base)
    ensures IsSlug(Candidate(base, n))
  {
    var words :| words != [] && (forall w | w in words :: IsWord(w)) && base == Join(words, "-");
    JoinSnoc(words, Itoa(n));
    assert forall w | w in words + [Itoa(n)] :: IsWord(w);
  }

  lemma BaseIsSlug(name: string, lower: char -> char)
    ensures var words := Words(Fold(name, lower)); IsSlug(if words == [] then "shelf" else Join(words, "-"))
  {
    var words := Words(Fold(name, lower));
    if words == [] {
      assert IsWord("shelf") && Join(["shelf"], "-") == "shelf";
      assert forall w | w in ["shelf"] :: IsWord(w);
    }
  }

  /** The first n candidates are n different slugs. */
  ghost predicate Tried(tried: set<string>, base: string, n: nat) {
    |tried| == n && forall s :: s in tried <==> exists m :: 1 <= m <= n && s == Candidate(base, m)
  }

  lemma TriedNext(tried: set<string>, base: string, n: nat)
    requires Tried(tried, base, n)
    ensures Tried(tried + {Candidate(base, n + 1)}, base, n + 1)
  {
    var c := Candidate(base, n + 1);
    forall m | 1 <= m <= n ensures Candidate(base, m) != c {
      CandidatesDiffer(base, m, n + 1);
    }
    assert c !in tried;
    forall s ensures s in tried + {c} <==> exists m :: 1 <= m <= n + 1 && s == Candidate(base, m) {
      if s == c {
        assert 1 <= n + 1 && s == Candidate(base, n + 1);
      } else if s in tried {
        var m :| 1 <= m <= n && s == Candidate(base, m);
        assert m <= n + 1;
      }
    }
  }

  lemma TriedAreTaken(tried: set<string>, taken: set<string>, base: string, n: nat)
    requires Tried(tried, base, n) && tried <= taken
    ensures n <= |taken| && forall m | 1 <= m <= n :: Candidate(base, m) in taken
  {
    SubsetSize(tried, taken);
    forall m | 1 <= m <= n ensures Candidate(base, m) in taken {
      assert Candidate(base, m) in tried;
    }
  }

  /** The search: it ends within one try more than the user has slugs, because the tries
      differ, and answers the first candidate that is free. */
  method ShelfSlug(taken: set<string>, name: string, lower: char -> char) returns (slug: string, ghost n: nat)
    ensures slug !in taken && IsSlug(slug)
    ensures 1 <= n <= |taken| + 1
    ensures var words := Words(Fold(name, lower));
            var base := if words == [] then "shelf" else Join(words, "-");
            slug == Candidate(base, n) && forall m | 1 <= m < n :: Candidate(base, m) in taken
  {
    var base := SlugBase(name, lower);
    BaseIsSlug(name, lower);
    var i := 1;
    slug := Candidate(base, 1);
    ghost var tried: set<string> := {};
    while slug in taken
      invariant i >= 1 && slug == Candidate(base, i)
      invariant tried <= taken && Tried(tried, base, i - 1)
      decreases |taken| - i + 1
    {
      TriedNext(tried, base, i - 1);
      tried := tried + {slug};
      TriedAreTaken(tried, taken, base, i);
      i := i + 1;
      slug := Candidate(base, i);
    }
    TriedAreTaken(tried, taken, base, i - 1);
    CandidateIsSlug(base, i);
    n := i;
  }

  // ---------------------------------------------------------------------------
  // Shelves
  // ---------------------------------------------------------------------------

  datatype Shelf = Shelf(username: string, slug: string, name: string, system: bool, visibility: string)

  datatype Failure = NameRequired | NameTooLong | LimitReached | NameTaken

  type Shelves = map<int, Shelf>

  /** Personal shelves of one user with names that NOCASE does not tell apart. */
  predicate Clash(a: Shelf, username: string, name: string) {
    a.username == username && !a.system && Fold(a.name, AsciiLower) == Fold(name, AsciiLower)
  }

  /** UNIQUE(username, slug), and the unique index on (username, name) of personal shelves. */
  ghost predicate UniqueIndexes(shelves: Shelves) {
    && (forall i, j | i in shelves && j in shelves ::
          shelves[i].username == shelves[j].username && shelves[i].slug == shelves[j].slug ==> i == j)
    && (forall i, j | i in shelves && j in shelves ::
          !shelves[j].system && Clash(shelves[i], shelves[j].username, shelves[j].name) ==> i == j)
  }

  function PersonalOf(shelves: Shelves, username: string): set<int> {
    set i | i in shelves && shelves[i].username == username && !shelves[i].system
  }

  function SlugsOf(shelves: Shelves, username: string): set<string> {
    set i | i in shelves && shelves[i].username == username :: shelves[i].slug
  }

  /** Two shelves clash if they are personal shelves of one user whose names differ in the
      case of A to Z at most. */
  lemma ClashIff(a: Shelf, username: string, name: string)
    ensures Clash(a, username, name) <==>
      && a.username == username && !a.system
      && |a.name| == |name| && forall i | 0 <= i < |name| :: SameLetter(a.name[i], name[i])
  {
    var x, y := Fold(a.name, AsciiLower), Fold(name, AsciiLower);
    if |a.name| == |name| {
      forall i | 0 <= i < |name| ensures x[i] == y[i] <==> SameLetter(a.name[i], name[i]) {
        LowerAgreesIff(a.name[i], name[i]);
      }
      assert x == y <==> forall i | 0 <= i < |name| :: x[i] == y[i];
    } else {
      assert |x| != |y|;
    }
  }

  /** Only the user's own shelves count against the limit, and not the built-in ones. */
  lemma PersonalCount(shelves: Shelves, id: int, s: Shelf, username: string)
    requires id !in shelves
    ensures |PersonalOf(map[], username)| == 0
    ensures |PersonalOf(shelves[id := s], username)| ==
      |PersonalOf(shelves, username)| + if s.username == username && !s.system then 1 else 0
  {
    var mine := PersonalOf(shelves, username);
    assert PersonalOf(shelves[id := s], username) ==
      if s.username == username && !s.system then mine + {id} else mine;
    assert PersonalOf(map[], username) == {};
  }

  lemma InsertKeepsIndexes(shelves: Shelves, id: int, new_: Shelf)
    requires UniqueIndexes(shelves) && id !in shelves && !new_.system
    requires new_.slug !in SlugsOf(shelves, new_.username)
    requires forall i | i in shelves :: !Clash(shelves[i], new_.username, new_.name)
    ensures UniqueIndexes(shelves[id := new_])
  {
  }

  class Store {
    var shelves: Shelves
    var nextId: int

    ghost predicate Valid()
      reads this
    {
      UniqueIndexes(shelves) && forall i | i in shelves :: i < nextId
    }

    constructor ()
      ensures Valid() && shelves == map[]
    {
      shelves, nextId := map[], 1;
    }

    /** CreateShelf: a new shelf, or the reason why not. The insert never meets a row of the
        same user with the same slug or the same name. */
    method CreateShelf(username: string, rawName: string, limit: int, lower: char -> char)
      returns (failure: Option<Failure>, id: int)
      requires Valid()
      modifies this
      ensures Valid()
      ensures var name := TrimSpace(rawName);
              failure ==
                if name == "" then Some(NameRequired)
                else if Utf8Len(name) > 100 then Some(NameTooLong)
                else if limit > 0 && |PersonalOf(old(shelves), username)| >= limit then Some(LimitReached)
                else if exists i :: i in old(shelves) && Clash(old(shelves)[i], username, name) then Some(NameTaken)
                else None
      ensures failure.Some? ==> shelves == old(shelves) && nextId == old(nextId)
      ensures failure.None? ==>
        && id == old(nextId) && id !in old(shelves) && id in shelves
        && shelves == old(shelves)[id := Shelf(username, shelves[id].slug, TrimSpace(rawName), false, "private")]
        && shelves[id].slug !in SlugsOf(old(shelves), username) && IsSlug(shelves[id].slug)
    {
      id := 0;
      var name := TrimSpace(rawName);
      if name == "" {
        return Some(NameRequired), 0;
      }
      if Utf8Len(name) > 100 {
        return Some(NameTooLong), 0;
      }
      var count := |PersonalOf(shelves, username)|;
      if limit > 0 && count >= limit {
        return Some(LimitReached), 0;
      }
      if i :| i in shelves && Clash(shelves[i], username, name) {
        return Some(NameTaken), 0;
      }
      id := InsertShelf(username, name, lower);
      return None, id;
    }

    /** The second half of CreateShelf: the slug and the row. */
    method InsertShelf(username: string, name: string, lower: char -> char) returns (id: int)
      requires Valid() && forall i | i in shelves :: !Clash(shelves[i], username, name)
      modifies this
      ensures Valid() && id == old(nextId) && id !in old(shelves) && id in shelves
      ensures shelves == old(shelves)[id := Shelf(username, shelves[id].slug, name, false, "private")]
      ensures shelves[id].slug !in SlugsOf(old(shelves), username) && IsSlug(shelves[id].slug)
    {
      var slug, _ := ShelfSlug(SlugsOf(shelves, username), name, lower);
      id := nextId;
      InsertKeepsIndexes(shelves, id, Shelf(username, slug, name, false, "private"));
      shelves := shelves[id := Shelf(username, slug, name, false, "private")];
      nextId := nextId + 1;
    }
  }
}
