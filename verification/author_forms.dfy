/** What becomes of the usual forms of a creator: "Last, First", several names in one
    string, stray spaces, and a name that comes twice. */
module AuthorForms {
  import opened Strings
  import opened AuthorNames
  import opened AuthorRoundTrip

  // ---------------------------------------------------------------------------
  // One name
  // ---------------------------------------------------------------------------

  /** Letters, digits and the underscore, by code point. */
  predicate Letter(c: char) {
    var n := c as int;
    97 <= n <= 122 || 65 <= n <= 90 || 48 <= n <= 57 || n == 95
  }

  lemma {:induction false} NoCommaCount(s: string)
    ensures CountCommas(s) == 0 <==> ',' !in s
  {
    if s != "" {
      NoCommaCount(s[1..]);
      assert s == [s[0]] + s[1..];
    }
  }

  lemma CountOfOneComma(x: string, y: string)
    requires ',' !in x && ',' !in y
    ensures CountCommas(x + "," + y) == 1
  {
    NoCommaCount(x);
    NoCommaCount(y);
    CommasAdd(x + ",", y);
    CommasAdd(x, ",");
    assert ","[1..] == "";
  }

  lemma {:induction false} FirstCommaAt(x: string, y: string)
    requires ',' !in x && CountCommas(x + "," + y) > 0
    ensures FirstComma(x + "," + y) == |x|
  {
    if x != "" {
      var s := x + "," + y;
      assert s[0] == x[0] && x[0] in x;
      assert s[1..] == x[1..] + "," + y;
      FirstCommaAt(x[1..], y);
    }
  }

  lemma LeadingBlank(s: string)
    requires Trimmed(s) && s != ""
    ensures TrimSpace(" " + s) == s
  {
    assert (" " + s)[1..] == s;
    TrimmedStays(s);
  }

  lemma PairCollapsed(last: string, first: string)
    requires Collapsed(last) && Collapsed(first) && last != "" && first != ""
    ensures Collapsed(last + ", " + first)
  {
    var c := last + ", " + first;
    forall i | 0 <= i < |c| ensures SpacedAt(c, i) {
      if i < |last| {
        assert SpacedAt(last, i);
      } else if i > |last| + 1 {
        assert SpacedAt(first, i - |last| - 2);
      }
    }
  }

  lemma SwapsTo(c: string, k: nat, last: string, first: string)
    requires k < |c| && c[..k] == last && c[k + 1..] == " " + first
    requires Trimmed(last) && Trimmed(first) && last != "" && first != ""
    ensures Swap(c, k) == first + " " + last
  {
    TrimmedStays(last);
    LeadingBlank(first);
  }

  /** "Last, First" becomes "First Last". */
  lemma LastFirst(last: string, first: string)
    requires Collapsed(last) && Collapsed(first) && last != "" && first != "" && ',' !in last && ',' !in first
    ensures Normalize(last + ", " + first) == first + " " + last
  {
    var c, tail := last + ", " + first, " " + first;
    assert c == last + "," + tail && ',' !in tail;
    PairCollapsed(last, first);
    CollapsedStays(c);
    CountOfOneComma(last, tail);
    FirstCommaAt(last, tail);
    assert c[..|last|] == last && c[|last| + 1..] == tail;
    SwapsTo(c, |last|, last, first);
  }

  lemma TwoCommas(c: string, i: nat, j: nat)
    requires i < j < |c| && c[i] == c[j] == ','
    ensures CountCommas(c) >= 2
  {
    assert c == c[..j] + c[j..];
    CommasAdd(c[..j], c[j..]);
    NoCommaCount(c[..j]);
    NoCommaCount(c[j..]);
    assert c[..j][i] == ',' && c[j..][0] == ',';
  }

  /** A name without a comma, or with two or more, only loses stray spaces. */
  lemma OtherNamesStay(c: string)
    requires Collapsed(c) && (',' !in c || exists i, j :: 0 <= i < j < |c| && c[i] == c[j] == ',')
    ensures Normalize(c) == c
  {
    CollapsedStays(c);
    if ',' !in c {
      NoCommaCount(c);
    } else {
      var i, j :| 0 <= i < j < |c| && c[i] == c[j] == ',';
      TwoCommas(c, i, j);
    }
  }

  /** A comma with nothing before or nothing after it is left where it is. */
  lemma LooseCommaStays(x: string)
    requires Collapsed(x) && x != "" && ',' !in x
    ensures Normalize(x + ",") == x + "," && Normalize("," + x) == "," + x
  {
    CommaBehind(x);
    CommaAhead(x);
  }

  lemma CommaKeepsCollapsed(x: string)
    requires Collapsed(x) && x != ""
    ensures Collapsed(x + ",") && Collapsed("," + x)
  {
    forall i | 0 <= i < |x + ","| ensures SpacedAt(x + ",", i) && SpacedAt("," + x, i) {
      assert i < |x| ==> SpacedAt(x, i);
      assert i > 0 ==> SpacedAt(x, i - 1);
    }
  }

  lemma NothingToSwap(c: string, k: nat)
    requires k < |c| && (c[..k] == "" || c[k + 1..] == "")
    ensures Swap(c, k) == c
  {
    TrimmedStays("");
  }

  lemma CommaBehind(x: string)
    requires Collapsed(x) && x != "" && ',' !in x
    ensures Normalize(x + ",") == x + ","
  {
    var c := x + ",";
    assert c == x + "," + "";
    CommaKeepsCollapsed(x);
    CollapsedStays(c);
    CountOfOneComma(x, "");
    FirstCommaAt(x, "");
    NothingToSwap(c, |x|);
  }

  lemma CommaAhead(x: string)
    requires Collapsed(x) && x != "" && ',' !in x
    ensures Normalize("," + x) == "," + x
  {
    var c := "," + x;
    assert c == "" + "," + x;
    CommaKeepsCollapsed(x);
    CollapsedStays(c);
    CountOfOneComma("", x);
    FirstCommaAt("", x);
    NothingToSwap(c, 0);
  }

  /** Characters that separate words, in Unicode code points. */
  predicate SpaceCode(n: int) {
    || 9 <= n <= 13 || n == 32 || n == 133 || n == 160 || n == 5760
    || 8192 <= n <= 8202 || n == 8232 || n == 8233 || n == 8239 || n == 8287 || n == 12288
  }

  predicate Spaces(g: string) {
    forall i | 0 <= i < |g| :: SpaceCode(g[i] as int)
  }

  lemma SpaceIff(c: char)
    ensures IsSpace(c) <==> SpaceCode(c as int)
  {
  }

  lemma SpacesAreSpace(g: string)
    requires Spaces(g)
    ensures forall i | 0 <= i < |g| :: IsSpace(g[i])
  {
    forall i | 0 <= i < |g| ensures IsSpace(g[i]) {
      SpaceIff(g[i]);
    }
  }

  lemma {:induction false} TrimLeftSpaces(g: string, s: string)
    requires (forall i | 0 <= i < |g| :: IsSpace(g[i])) && (s != "" ==> !IsSpace(s[0]))
    ensures TrimLeft(g + s) == s
  {
    if g == "" {
      assert g + s == s;
    } else {
      var all := g + s;
      assert all[1..] == g[1..] + s && all[0] == g[0];
      TrimLeftSpaces(g[1..], s);
    }
  }

  lemma {:induction false} FieldEndAt(w: string, rest: string)
    requires IsField(w) && (rest != "" ==> IsSpace(rest[0]))
    ensures FieldEnd(w + rest) == |w|
  {
    var s := w + rest;
    assert forall j | 0 <= j < |w| :: s[j] == w[j];
    assert rest != "" ==> s[|w|] == rest[0];
  }

  lemma FieldsAt(all: string, t: string, w: string, rest: string)
    requires TrimLeft(all) == t == w + rest && t != "" && FieldEnd(t) == |w|
    ensures Fields(all) == [w] + Fields(rest)
  {
    FieldsStep(all, t, |w|);
    assert t[..|w|] == w && t[|w|..] == rest;
  }

  /** Fields are cut at any run of spaces, whatever kinds of space it has. */
  lemma FieldsAreWords(g: string, w: string, rest: string)
    requires Spaces(g) && IsField(w) && (rest != "" ==> SpaceCode(rest[0] as int))
    ensures Fields(g + w + rest) == [w] + Fields(rest)
  {
    var all, t := g + w + rest, w + rest;
    SpacesAreSpace(g);
    assert all == g + t && t[0] == w[0];
    TrimLeftSpaces(g, t);
    if rest != "" {
      SpaceIff(rest[0]);
    }
    FieldEndAt(w, rest);
    FieldsAt(all, t, w, rest);
  }

  lemma FieldsOfSpaces(g: string)
    requires Spaces(g)
    ensures Fields(g) == []
  {
    SpacesAreSpace(g);
    assert g + "" == g;
    TrimLeftSpaces(g, "");
  }

  lemma FieldsChain(s: string, rest: string, end: string, a: string, b: string)
    requires Fields(s) == [a] + Fields(rest) && Fields(rest) == [b] + Fields(end) && Fields(end) == []
    ensures Collapse(s) == a + " " + b
  {
    assert [b] + [] == [b] && Fields(s) == [a] + [b];
    JoinHead(a, [b]);
    assert Join([b], " ") == b;
  }

  lemma HeadOf(g: string, tail: string)
    requires g != ""
    ensures (g + tail)[0] == g[0]
  {
  }

  /** Spaces around a name go and runs of them inside become one blank. */
  lemma TwoWords(g0: string, a: string, g: string, b: string, g1: string)
    requires Spaces(g0) && Spaces(g) && Spaces(g1) && g != "" && IsField(a) && IsField(b)
    ensures Collapse(g0 + a + (g + b + g1)) == a + " " + b
  {
    var rest := g + b + g1;
    assert rest == g + (b + g1);
    HeadOf(g, b + g1);
    FieldsAreWords(g, b, g1);
    FieldsOfSpaces(g1);
    FieldsAreWords(g0, a, rest);
    FieldsChain(g0 + a + rest, rest, g1, a, b);
  }

  // ---------------------------------------------------------------------------
  // Separators
  // ---------------------------------------------------------------------------

  /** Blanks of the separator pattern. */
  predicate Blank(g: string) {
    forall i | 0 <= i < |g| :: g[i] as int in {9, 10, 12, 13, 32}
  }

  /** What may stand between two names: one of & ; / with or without blanks, or the word
      and, in any case, between blanks. */
  predicate Separates(before: string, x: string, after: string) {
    && Blank(before) && Blank(after)
    && (|| x in {"&", ";", "/"}
        || (&& x in {"and", "And", "aNd", "anD", "ANd", "AnD", "aND", "AND"}
            && before != "" && after != ""))
  }

  lemma {:induction false} SkipBlank(s: string, i: nat, g: string)
    requires i + |g| <= |s| && s[i..i + |g|] == g && Blank(g)
    requires i + |g| < |s| ==> !RegexpSpace(s[i + |g|])
    ensures SkipSpace(s, i) == i + |g|
    decreases |g|
  {
    if g != "" {
      assert s[i] == g[0];
      assert s[i + 1..i + 1 + |g[1..]|] == g[1..];
      SkipBlank(s, i + 1, g[1..]);
    }
  }

  lemma WordIsSeparator(s: string, i: nat, x: string)
    requires i + |x| <= |s| && s[i..i + |x|] == x
    requires x in {"&", ";", "/"} || (&& x in {"and", "And", "aNd", "anD", "ANd", "AnD", "aND", "AND"}
                                      && (i > 0 ==> !WordChar(s[i - 1]))
                                      && (i + 3 < |s| ==> !WordChar(s[i + 3])))
    ensures SepLen(s, i) == |x| && !RegexpSpace(s[i])
  {
    assert s[i] == x[0];
  }

  lemma BlankEnds(g: string)
    requires Blank(g) && g != ""
    ensures RegexpSpace(g[0]) && RegexpSpace(g[|g| - 1]) && !WordChar(g[0]) && !WordChar(g[|g| - 1])
  {
  }

  lemma SeparatorMatches(s: string, i: nat, before: string, x: string, after: string)
    requires Separates(before, x, after)
    requires i + |before| + |x| + |after| < |s|
    requires s[i..i + |before|] == before && s[i + |before|..i + |before| + |x|] == x
    requires s[i + |before| + |x|..i + |before| + |x| + |after|] == after
    requires !IsSpace(s[i + |before| + |x| + |after|])
    ensures MatchEnd(s, i) == i + |before| + |x| + |after|
  {
    var j, e := i + |before|, i + |before| + |x|;
    if before != "" {
      BlankEnds(before);
      assert s[j - 1] == before[|before| - 1];
    }
    if after != "" {
      BlankEnds(after);
      assert s[e] == after[0];
    }
    WordIsSeparator(s, j, x);
    SkipBlank(s, i, before);
    SkipBlank(s, e, after);
  }

  lemma GapEnds(before: string, x: string, after: string)
    requires Separates(before, x, after)
    ensures var g := before + x + after; g != "" && !WordChar(g[0]) && !WordChar(g[|g| - 1])
  {
    if before != "" {
      BlankEnds(before);
    }
    if after != "" {
      BlankEnds(after);
    }
  }

  lemma GapInPlace(a: string, before: string, x: string, after: string, b: string)
    ensures var s := a + (before + x + after) + b;
            var i, j := |a|, |a| + |before|;
            && s[i..j] == before && s[j..j + |x|] == x && s[j + |x|..j + |x| + |after|] == after
            && s[..i] == a && s[j + |x| + |after|..] == b
  {
  }

  lemma NamesInPlace(a: string, g: string, b: string)
    requires g != "" && !WordChar(g[0]) && !WordChar(g[|g| - 1])
    ensures var s := a + g + b; NameAt(s, 0, a) && NameAt(s, |a| + |g|, b)
  {
    var s := a + g + b;
    assert s[0..0 + |a|] == a && s[|a| + |g|..|a| + |g| + |b|] == b;
    assert s[|a|] == g[0] && s[|a| + |g| - 1] == g[|g| - 1];
  }

  lemma LastPieceAt(s: string, e: nat, b: string)
    requires NameAt(s, e, b) && GoodName(b) && e + |b| == |s|
    ensures Pieces(s, e, e) == [b]
  {
    ScanOverName(s, e, b, 0);
    PieceAtEnd(s, e);
    assert s[e..] == b && e + 0 == e;
  }

  lemma TwoPieces(s: string, a: string, e: nat, b: string)
    requires GoodName(a) && GoodName(b) && NameAt(s, 0, a) && NameAt(s, e, b)
    requires |a| < |s| && MatchEnd(s, |a|) == e > 0 && e + |b| == |s|
    ensures PiecesFrom(s, 0) == [a, b]
  {
    FirstPieceAt(s, 0, a, e);
    LastPieceAt(s, e, b);
    assert [a] + [b] == [a, b];
  }

  lemma GapMatches(s: string, a: string, before: string, x: string, after: string, b: string)
    requires b != "" && !IsSpace(b[0]) && Separates(before, x, after) && s == a + (before + x + after) + b
    ensures |a| < |s| && MatchEnd(s, |a|) == |a| + |before + x + after|
  {
    GapInPlace(a, before, x, after, b);
    SeparatorMatches(s, |a|, before, x, after);
  }

  lemma SplitInto(s: string, names: seq<string>)
    requires Trimmed(s) && s != "" && PiecesFrom(s, 0) == names && TrimmedNames(names) == names
    ensures Split(s) == names
  {
    TrimmedStays(s);
  }

  /** Two names in one creator are cut at any of the separators. */
  lemma SeparatorsCut(a: string, before: string, x: string, after: string, b: string)
    requires GoodName(a) && GoodName(b) && Separates(before, x, after)
    ensures Split(a + (before + x + after) + b) == [a, b]
  {
    var s := a + (before + x + after) + b;
    assert s[0] == a[0] && s[|s| - 1] == b[|b| - 1];
    GapEnds(before, x, after);
    NamesInPlace(a, before + x + after, b);
    GapMatches(s, a, before, x, after, b);
    TwoPieces(s, a, |a| + |before + x + after|, b);
    GoodNamesStayTrimmed([a, b]);
    SplitInto(s, [a, b]);
  }

  /** The word and, in any case, stands at i. */
  predicate AndStands(s: string, i: nat) {
    && i + 3 <= |s| && s[i..i + 3] in {"and", "And", "aNd", "anD", "ANd", "AnD", "aND", "AND"}
    && (i > 0 ==> !Letter(s[i - 1])) && (i + 3 < |s| ==> !Letter(s[i + 3]))
  }

  /** No separator: neither & nor ; nor / nor the word and. */
  ghost predicate Whole(s: string) {
    '&' !in s && ';' !in s && '/' !in s && forall i: nat :: !AndStands(s, i)
  }

  lemma AndWordIff(w: string)
    ensures AndWord(w) <==> w in {"and", "And", "aNd", "anD", "ANd", "AnD", "aND", "AND"}
  {
    if AndWord(w) {
      assert w == [w[0], w[1], w[2]];
    }
  }

  lemma AndStandsIff(s: string, i: nat)
    ensures AndAt(s, i) <==> AndStands(s, i)
  {
    if i + 3 <= |s| {
      AndWordIff(s[i..i + 3]);
    }
  }

  lemma WholeIff(s: string)
    ensures Whole(s) <==> NoSep(s)
  {
    forall i: nat ensures AndAt(s, i) <==> AndStands(s, i) {
      AndStandsIff(s, i);
    }
    if NoSep(s) {
      forall i | 0 <= i < |s| ensures s[i] !in {'&', ';', '/'} {
        assert SepLen(s, i) == 0;
      }
      forall i: nat ensures !AndStands(s, i) {
        assert i < |s| ==> SepLen(s, i) == 0;
      }
    }
  }

  lemma {:induction false} NoMatchInWhole(s: string, i: nat)
    requires NoSep(s) && i <= |s|
    ensures Pieces(s, 0, i) == [s]
    decreases |s| - i
  {
    assert s[0..] == s;
    if i < |s| {
      assert SkipSpace(s, i) < |s| ==> SepLen(s, SkipSpace(s, i)) == 0;
      NoMatchInWhole(s, i + 1);
    }
  }

  lemma OnePiece(s: string)
    requires Trimmed(s) && s != ""
    ensures TrimmedNames([s]) == [s]
  {
    TrimmedStays(s);
    assert [s][1..] == [];
  }

  /** A name without a separator stays whole, "Anderson" and "Sandy" included. */
  lemma WholeStays(s: string)
    requires Whole(s) && Trimmed(s) && s != ""
    ensures Split(s) == [s]
  {
    WholeIff(s);
    NoMatchInWhole(s, 0);
    OnePiece(s);
    SplitInto(s, [s]);
  }

  lemma NamesOfAre(piece: string)
    ensures forall n | n in NamesOf(piece) :: n != "" && Trimmed(n)
  {
    var p := TrimSpace(piece);
    assert Trimmed(p);
    assert forall n | n in NamesOf(piece) :: n == p && p != "";
  }

  lemma {:induction false} TrimmedNamesAre(pieces: seq<string>)
    ensures forall n | n in TrimmedNames(pieces) :: n != "" && Trimmed(n)
  {
    if pieces != [] {
      NamesOfAre(pieces[0]);
      TrimmedNamesAre(pieces[1..]);
      assert TrimmedNames(pieces) == NamesOf(pieces[0]) + TrimmedNames(pieces[1..]);
    }
  }

  /** Splitting gives names without spaces at either end, and no empty one. */
  lemma SplitIsTrimmed(raw: string)
    ensures forall n | n in Split(raw) :: n != "" && Trimmed(n)
  {
    if TrimSpace(raw) != "" {
      TrimmedNamesAre(Pieces(TrimSpace(raw), 0, 0));
    }
  }

  // ---------------------------------------------------------------------------
  // The list of names
  // ---------------------------------------------------------------------------

  lemma AddFirst(s: string, fold: char -> char)
    requires Normalize(s) != ""
    ensures AddNames([], [s], fold) == [Normalize(s)]
  {
    assert [s][1..] == [] && [] + [Normalize(s)] == [Normalize(s)];
    assert AddNames([Normalize(s)], [], fold) == [Normalize(s)];
  }

  lemma CleanWhole(s: string, name: string, fold: char -> char)
    requires Whole(s) && Trimmed(s) && s != "" && Normalize(s) == name != ""
    ensures Clean([s], fold) == [name]
  {
    WholeStays(s);
    AddFirst(s, fold);
    CleanOne(s, [s], [name], fold);
  }

  lemma WholeName(last: string, first: string)
    requires Whole(last) && Whole(first)
    ensures Whole(last + ", " + first) && Whole(first + " " + last)
  {
    WholeIff(last);
    WholeIff(first);
    NoSepCut(first, ' ', last);
    NoSepCut("", ' ', first);
    assert last + ", " + first == last + [','] + ("" + [' '] + first);
    NoSepCut(last, ',', "" + [' '] + first);
    WholeIff(last + ", " + first);
    WholeIff(first + " " + last);
  }

  /** "Last, First" and "First Last" are one author. */
  lemma BothFormsAgree(last: string, first: string, fold: char -> char)
    requires Collapsed(last) && Collapsed(first) && last != "" && first != "" && ',' !in last && ',' !in first
    requires Whole(last) && Whole(first)
    ensures Clean([last + ", " + first], fold) == [first + " " + last]
    ensures Clean([first + " " + last], fold) == [first + " " + last]
  {
    LastFirst(last, first);
    SwapIsCollapsed(first, last);
    OtherNamesStay(first + " " + last);
    WholeName(last, first);
    CleanWhole(last + ", " + first, first + " " + last, fold);
    CleanWhole(first + " " + last, first + " " + last, fold);
  }

  function WithName(names: seq<string>, name: string, fold: char -> char): seq<string> {
    if name == "" || Known(names, name, fold) then names else names + [name]
  }

  lemma AddNamesStep(names: seq<string>, parts: seq<string>, fold: char -> char)
    requires parts != []
    ensures AddNames(names, parts, fold) == AddNames(WithName(names, Normalize(parts[0]), fold), parts[1..], fold)
  {
  }

  lemma WithNameKnows(names: seq<string>, name: string, fold: char -> char)
    ensures names <= WithName(names, name, fold)
    ensures name != "" ==> Known(WithName(names, name, fold), name, fold)
    ensures forall n | n in WithName(names, name, fold) :: n in names || n == name
  {
    var next := WithName(names, name, fold);
    if name != "" && !Known(names, name, fold) {
      assert next == names + [name];
      assert next[|names|] == name && name in next;
      assert Known(next, name, fold);
    } else {
      assert next == names;
    }
  }

  lemma KnownStays(names: seq<string>, longer: seq<string>, name: string, fold: char -> char)
    requires names <= longer && Known(names, name, fold)
    ensures Known(longer, name, fold)
  {
    var n :| n in names && Fold(n, fold) == Fold(name, fold);
    assert n in longer;
  }

  lemma {:induction false} AddNamesGrows(names: seq<string>, parts: seq<string>, fold: char -> char)
    ensures names <= AddNames(names, parts, fold)
    ensures forall p | p in parts && Normalize(p) != "" :: Known(AddNames(names, parts, fold), Normalize(p), fold)
    ensures forall n | n in AddNames(names, parts, fold) :: n in names || exists p :: p in parts && Normalize(p) == n
    decreases |parts|
  {
    if parts != [] {
      var name := Normalize(parts[0]);
      var next := WithName(names, name, fold);
      AddNamesStep(names, parts, fold);
      WithNameKnows(names, name, fold);
      AddNamesGrows(next, parts[1..], fold);
      var all := AddNames(next, parts[1..], fold);
      forall p | p in parts && Normalize(p) != "" ensures Known(all, Normalize(p), fold) {
        if p == parts[0] {
          KnownStays(next, all, name, fold);
        }
      }
      forall n | n in all ensures n in names || exists p :: p in parts && Normalize(p) == n {
        if n !in next {
          var p :| p in parts[1..] && Normalize(p) == n;
          assert p in parts;
        } else if n !in names {
          assert parts[0] in parts;
        }
      }
    }
  }

  /** The creator's part whose normal form is n. */
  ghost predicate From(creators: seq<string>, n: string) {
    exists c, p :: c in creators && p in Split(c) && Normalize(p) == n
  }

  lemma FromHead(creators: seq<string>, n: string)
    requires creators != []
    ensures From(creators, n) <==>
      (exists p :: p in Split(creators[0]) && Normalize(p) == n) || From(creators[1..], n)
  {
    if c, p :| c in creators && p in Split(c) && Normalize(p) == n {
      assert c == creators[0] || c in creators[1..];
    }
    if p :| p in Split(creators[0]) && Normalize(p) == n {
      assert creators[0] in creators;
    }
  }

  lemma {:induction false} AddCreatorsGrows(names: seq<string>, creators: seq<string>, fold: char -> char)
    ensures names <= AddCreators(names, creators, fold)
    ensures forall n | From(creators, n) && n != "" :: Known(AddCreators(names, creators, fold), n, fold)
    ensures forall n | n in AddCreators(names, creators, fold) :: n in names || From(creators, n)
    decreases |creators|
  {
    if creators != [] {
      var next := AddNames(names, Split(creators[0]), fold);
      AddNamesGrows(names, Split(creators[0]), fold);
      AddCreatorsGrows(next, creators[1..], fold);
      var all := AddCreators(next, creators[1..], fold);
      assert AddCreators(names, creators, fold) == all;
      forall n | From(creators, n) && n != "" ensures Known(all, n, fold) {
        FromHead(creators, n);
        if !From(creators[1..], n) {
          KnownStays(next, all, n, fold);
        }
      }
      forall n | n in all ensures n in names || From(creators, n) {
        FromHead(creators, n);
      }
    }
  }

  lemma {:induction false} AddCreatorsAppend(names: seq<string>, a: seq<string>, b: seq<string>, fold: char -> char)
    ensures AddCreators(names, a + b, fold) == AddCreators(AddCreators(names, a, fold), b, fold)
    decreases |a|
  {
    if a == [] {
      assert a + b == b;
    } else {
      assert (a + b)[1..] == a[1..] + b;
      AddCreatorsAppend(AddNames(names, Split(a[0]), fold), a[1..], b, fold);
    }
  }

  /** The list has every name of the creators and no other, each in its first spelling: what
      comes later never moves or replaces what is there. */
  lemma FirstSpellingsInOrder(a: seq<string>, b: seq<string>, fold: char -> char)
    ensures Clean(a, fold) <= Clean(a + b, fold)
    ensures forall n | n in Clean(a, fold) :: From(a, n)
    ensures forall n | From(a, n) && n != "" :: Known(Clean(a, fold), n, fold)
  {
    AddCreatorsAppend([], a, b, fold);
    AddCreatorsGrows(Clean(a, fold), b, fold);
    AddCreatorsGrows([], a, fold);
  }
}
