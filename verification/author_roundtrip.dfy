/** Cleaning a list of creators, joining with " & " and cleaning again gives the same list. */
module AuthorRoundTrip {
  import opened Strings
  import opened AuthorNames

  // ---------------------------------------------------------------------------
  // Separator-free text
  // ---------------------------------------------------------------------------

  ghost predicate NoSep(s: string) {
    forall i | 0 <= i < |s| :: SepLen(s, i) == 0
  }

  predicate Neutral(c: char) {
    !WordChar(c) && !SepChar(c)
  }

  lemma SepLeftOf(x: string, c: char, y: string, i: nat)
    requires Neutral(c) && i < |x|
    ensures SepLen(x + [c] + y, i) == SepLen(x, i)
  {
  }

  lemma SepRightOf(x: string, c: char, y: string, i: nat)
    requires Neutral(c) && i < |y|
    ensures SepLen(x + [c] + y, |x| + 1 + i) == SepLen(y, i)
  {
  }

  lemma SepAtCut(x: string, c: char, y: string)
    requires Neutral(c)
    ensures SepLen(x + [c] + y, |x|) == 0
  {
  }

  /** Text can be cut at any character that is neither a separator nor part of a word. */
  lemma NoSepCut(x: string, c: char, y: string)
    requires Neutral(c)
    ensures NoSep(x + [c] + y) <==> NoSep(x) && NoSep(y)
  {
    var s := x + [c] + y;
    forall i | 0 <= i < |x| ensures SepLen(s, i) == SepLen(x, i) {
      SepLeftOf(x, c, y, i);
    }
    forall i | 0 <= i < |y| ensures SepLen(s, |x| + 1 + i) == SepLen(y, i) {
      SepRightOf(x, c, y, i);
    }
    SepAtCut(x, c, y);
    if NoSep(x) && NoSep(y) {
      forall i | 0 <= i < |s| ensures SepLen(s, i) == 0 {
        if i > |x| {
          assert SepLen(s, |x| + 1 + (i - |x| - 1)) == SepLen(y, i - |x| - 1);
        }
      }
    }
  }

  lemma SpaceIsNeutral(c: char)
    requires IsSpace(c)
    ensures Neutral(c)
  {
  }

  lemma {:induction false} NoSepTrimLeft(s: string)
    requires NoSep(s)
    ensures NoSep(TrimLeft(s))
    decreases |s|
  {
    if s != "" && IsSpace(s[0]) {
      SpaceIsNeutral(s[0]);
      assert s == "" + [s[0]] + s[1..];
      NoSepCut("", s[0], s[1..]);
      NoSepTrimLeft(s[1..]);
    }
  }

  lemma {:induction false} NoSepTrimRight(s: string)
    requires NoSep(s)
    ensures NoSep(TrimRight(s))
    decreases |s|
  {
    if s != "" && IsSpace(s[|s| - 1]) {
      SpaceIsNeutral(s[|s| - 1]);
      assert s == s[..|s| - 1] + [s[|s| - 1]] + "";
      NoSepCut(s[..|s| - 1], s[|s| - 1], "");
      NoSepTrimRight(s[..|s| - 1]);
    }
  }

  lemma NoSepTrim(s: string)
    requires NoSep(s)
    ensures NoSep(TrimSpace(s))
  {
    NoSepTrimLeft(s);
    NoSepTrimRight(TrimLeft(s));
  }

  /** The two sides of a space. */
  lemma NoSepAtField(t: string, n: nat)
    requires NoSep(t) && n <= |t| && (n < |t| ==> IsSpace(t[n]))
    ensures NoSep(t[..n]) && NoSep(t[n..])
  {
    if n < |t| {
      SpaceIsNeutral(t[n]);
      assert t == t[..n] + [t[n]] + t[n + 1..];
      NoSepCut(t[..n], t[n], t[n + 1..]);
      assert t[n..] == "" + [t[n]] + t[n + 1..];
      NoSepCut("", t[n], t[n + 1..]);
    } else {
      assert t[..n] == t && t[n..] == "";
    }
  }

  lemma {:induction false} NoSepFields(s: string)
    requires NoSep(s)
    ensures forall f | f in Fields(s) :: NoSep(f)
    decreases |s|
  {
    var t := TrimLeft(s);
    NoSepTrimLeft(s);
    if t != "" {
      var n := FieldEnd(t);
      FieldsStep(s, t, n);
      NoSepAtField(t, n);
      NoSepFields(t[n..]);
    }
  }

  lemma {:induction false} NoSepJoinFields(fs: seq<string>)
    requires forall f | f in fs :: NoSep(f)
    ensures NoSep(Join(fs, " "))
  {
    if fs == [] {
    } else if |fs| == 1 {
      assert fs[0] in fs;
    } else {
      assert fs[0] in fs;
      NoSepJoinFields(fs[1..]);
      NoSepCut(fs[0], ' ', Join(fs[1..], " "));
    }
  }

  lemma NoSepCollapse(s: string)
    requires NoSep(s)
    ensures NoSep(Collapse(s))
  {
    NoSepFields(s);
    NoSepJoinFields(Fields(s));
  }

  lemma NoSepSwap(c: string, k: nat)
    requires NoSep(c) && k < |c| && c[k] == ','
    ensures NoSep(Swap(c, k))
  {
    assert c == c[..k] + [','] + c[k + 1..];
    NoSepCut(c[..k], ',', c[k + 1..]);
    NoSepTrim(c[..k]);
    NoSepTrim(c[k + 1..]);
    NoSepCut(TrimSpace(c[k + 1..]), ' ', TrimSpace(c[..k]));
  }

  lemma NoSepFirstLast(c: string)
    requires NoSep(c)
    ensures NoSep(FirstLast(c))
  {
    if CountCommas(c) == 1 {
      NoSepSwap(c, FirstComma(c));
    }
  }

  lemma NoSepNormalize(name: string)
    requires NoSep(name)
    ensures NoSep(Normalize(name))
  {
    NoSepCollapse(name);
    NoSepFirstLast(Collapse(name));
  }

  // ---------------------------------------------------------------------------
  // Normalising twice
  // ---------------------------------------------------------------------------

  lemma {:induction false} CommasAdd(x: string, y: string)
    ensures CountCommas(x + y) == CountCommas(x) + CountCommas(y)
  {
    if x == "" {
      assert x + y == y;
    } else {
      assert (x + y)[1..] == x[1..] + y;
      CommasAdd(x[1..], y);
    }
  }

  lemma SuffixHasFewerCommas(s: string, k: nat)
    requires k <= |s|
    ensures CountCommas(s[k..]) <= CountCommas(s) && CountCommas(s[..k]) <= CountCommas(s)
  {
    CommasAdd(s[..k], s[k..]);
    assert s == s[..k] + s[k..];
  }

  lemma TrimLosesNoCommas(s: string)
    ensures CountCommas(TrimSpace(s)) <= CountCommas(s)
  {
    var l := TrimLeft(s);
    SuffixHasFewerCommas(s, |s| - |l|);
    SuffixHasFewerCommas(l, |TrimRight(l)|);
  }

  lemma SwapIsCollapsed(first: string, last: string)
    requires Collapsed(first) && Collapsed(last) && first != "" && last != ""
    ensures Collapsed(first + " " + last)
  {
    var s := first + " " + last;
    forall i | 0 <= i < |s| ensures SpacedAt(s, i) {
      if i < |first| {
        assert SpacedAt(first, i);
      } else if i > |first| {
        assert SpacedAt(last, i - |first| - 1);
      }
    }
  }

  lemma PartsHaveNoComma(c: string, k: nat)
    requires CountCommas(c) == 1 && k < |c| && c[k] == ','
    ensures CountCommas(TrimSpace(c[..k])) == 0 && CountCommas(TrimSpace(c[k + 1..])) == 0
  {
    assert c == c[..k] + ("," + c[k + 1..]);
    CommasAdd(c[..k], "," + c[k + 1..]);
    assert ("," + c[k + 1..])[1..] == c[k + 1..];
    TrimLosesNoCommas(c[..k]);
    TrimLosesNoCommas(c[k + 1..]);
  }

  lemma JoinedHasNoComma(first: string, last: string)
    requires CountCommas(first) == 0 && CountCommas(last) == 0
    ensures CountCommas(first + " " + last) == 0
  {
    CommasAdd(first + " ", last);
    CommasAdd(first, " ");
    assert " "[1..] == "";
  }

  lemma PartsCollapsed(c: string, k: nat)
    requires Collapsed(c) && k < |c|
    ensures Collapsed(TrimSpace(c[..k])) && Collapsed(TrimSpace(c[k + 1..]))
  {
    SliceSingleSpaced(c, 0, k);
    SliceSingleSpaced(c, k + 1, |c|);
    assert c[0..k] == c[..k] && c[k + 1..|c|] == c[k + 1..];
    TrimSingleSpaced(c[..k]);
    TrimSingleSpaced(c[k + 1..]);
  }

  lemma SwapCases(c: string, k: nat)
    requires Collapsed(c) && CountCommas(c) == 1 && k < |c| && c[k] == ','
    ensures Collapsed(Swap(c, k))
    ensures Swap(c, k) == c || CountCommas(Swap(c, k)) == 0
  {
    var last, first := TrimSpace(c[..k]), TrimSpace(c[k + 1..]);
    PartsCollapsed(c, k);
    PartsHaveNoComma(c, k);
    if last != "" && first != "" {
      SwapIsCollapsed(first, last);
      JoinedHasNoComma(first, last);
    }
  }

  lemma FirstLastTwice(c: string)
    requires Collapsed(c)
    ensures Collapsed(FirstLast(c)) && FirstLast(FirstLast(c)) == FirstLast(c)
  {
    if CountCommas(c) == 1 {
      SwapCases(c, FirstComma(c));
    }
  }

  /** Normalising is idempotent, the "Last, First" swap included. */
  lemma NormalizeTwice(name: string)
    ensures Collapsed(Normalize(name))
    ensures Normalize(Normalize(name)) == Normalize(name)
  {
    var c := Collapse(name);
    CollapseIsCollapsed(name);
    FirstLastTwice(c);
    CollapsedStays(FirstLast(c));
  }

  // ---------------------------------------------------------------------------
  // Cleaned names
  // ---------------------------------------------------------------------------

  /** What CleanAuthorNames promises of each name. */
  ghost predicate GoodName(n: string) {
    n != "" && NoSep(n) && Collapsed(n) && Normalize(n) == n
  }

  ghost predicate DistinctNames(names: seq<string>, fold: char -> char) {
    forall i, j | 0 <= i < j < |names| :: Fold(names[i], fold) != Fold(names[j], fold)
  }

  ghost predicate CleanNames(names: seq<string>, fold: char -> char) {
    (forall n | n in names :: GoodName(n)) && DistinctNames(names, fold)
  }

  lemma DistinctSnoc(names: seq<string>, name: string, fold: char -> char)
    requires DistinctNames(names, fold) && !Known(names, name, fold)
    ensures DistinctNames(names + [name], fold)
  {
    forall i | 0 <= i < |names| ensures Fold(names[i], fold) != Fold(name, fold) {
      assert names[i] in names;
    }
  }

  lemma AddOneClean(names: seq<string>, name: string, fold: char -> char)
    requires CleanNames(names, fold) && (name != "" ==> GoodName(name))
    ensures CleanNames(if name == "" || Known(names, name, fold) then names else names + [name], fold)
  {
    if name != "" && !Known(names, name, fold) {
      var next := names + [name];
      assert forall n | n in next :: n in names || n == name;
      DistinctSnoc(names, name, fold);
    }
  }

  lemma {:induction false} AddNamesClean(names: seq<string>, parts: seq<string>, fold: char -> char)
    requires CleanNames(names, fold) && forall p | p in parts :: NoSep(p)
    ensures CleanNames(AddNames(names, parts, fold), fold)
    decreases |parts|
  {
    if parts != [] {
      var name := Normalize(parts[0]);
      assert parts[0] in parts;
      NoSepNormalize(parts[0]);
      NormalizeTwice(parts[0]);
      var next := if name == "" || Known(names, name, fold) then names else names + [name];
      AddOneClean(names, name, fold);
      AddNamesClean(next, parts[1..], fold);
    }
  }

  // ---------------------------------------------------------------------------
  // Pieces between separators are separator-free
  // ---------------------------------------------------------------------------

  /** A cut position: \b sees the same at the start of the piece as in the whole text. */
  predicate CutPoint(s: string, i: nat)
    requires i <= |s|
  {
    0 < i < |s| ==> !WordChar(s[i - 1]) || !WordChar(s[i])
  }

  lemma {:induction false} SkipSpaceCutPoint(s: string, i: nat)
    requires i <= |s| && CutPoint(s, i)
    ensures CutPoint(s, SkipSpace(s, i))
    decreases |s| - i
  {
    if i < |s| && RegexpSpace(s[i]) {
      SkipSpaceCutPoint(s, i + 1);
    }
  }

  lemma MatchEndsAtCutPoint(s: string, i: nat)
    requires i <= |s| && MatchEnd(s, i) > 0
    ensures CutPoint(s, MatchEnd(s, i))
    ensures i < |s| && (i > 0 ==> WordChar(s[i - 1]) ==> !WordChar(s[i]))
  {
    var j := SkipSpace(s, i);
    SkipSpaceCutPoint(s, j + SepLen(s, j));
  }

  lemma NoMatchNoSep(s: string, i: nat)
    requires i < |s| && MatchEnd(s, i) == 0
    ensures SepLen(s, i) == 0
  {
  }

  lemma SliceOfSlice(s: string, beg: nat, end: nat, i: nat, j: nat)
    requires beg <= end <= |s| && i <= j <= end - beg
    ensures s[beg..end][i..j] == s[beg + i..beg + j]
  {
    var a, b := s[beg..end][i..j], s[beg + i..beg + j];
    forall x | 0 <= x < j - i ensures a[x] == b[x] {
      assert a[x] == s[beg..end][i + x] == s[beg + i + x];
    }
  }

  lemma PieceNoSep(s: string, beg: nat, end: nat)
    requires beg <= end <= |s| && CutPoint(s, beg)
    requires forall j | beg <= j < end :: SepLen(s, j) == 0
    requires end < |s| ==> end > 0 ==> WordChar(s[end - 1]) ==> !WordChar(s[end])
    ensures NoSep(s[beg..end])
  {
    var p := s[beg..end];
    forall i | 0 <= i < |p| ensures SepLen(p, i) == 0 {
      assert p[i] == s[beg + i] && SepLen(s, beg + i) == 0;
      if i + 3 <= |p| {
        SliceOfSlice(s, beg, end, i, i + 3);
      }
    }
  }

  lemma {:induction false} PiecesNoSep(s: string, beg: nat, i: nat)
    requires beg <= i <= |s| && CutPoint(s, beg)
    requires forall j | beg <= j < i :: SepLen(s, j) == 0
    ensures forall p | p in Pieces(s, beg, i) :: NoSep(p)
    decreases |s| - i
  {
    if i == |s| {
      PieceNoSep(s, beg, i);
      assert s[beg..i] == s[beg..];
    } else if MatchEnd(s, i) > 0 {
      MatchEndsAtCutPoint(s, i);
      PieceNoSep(s, beg, i);
      PiecesNoSep(s, MatchEnd(s, i), MatchEnd(s, i));
    } else {
      NoMatchNoSep(s, i);
      PiecesNoSep(s, beg, i + 1);
    }
  }

  lemma {:induction false} TrimmedNamesNoSep(pieces: seq<string>)
    requires forall p | p in pieces :: NoSep(p)
    ensures forall n | n in TrimmedNames(pieces) :: NoSep(n)
  {
    if pieces != [] {
      assert pieces[0] in pieces;
      NoSepTrim(pieces[0]);
      TrimmedNamesNoSep(pieces[1..]);
    }
  }

  lemma SplitNoSep(raw: string)
    ensures forall n | n in Split(raw) :: NoSep(n)
  {
    var s := TrimSpace(raw);
    if s != "" {
      PiecesNoSep(s, 0, 0);
      TrimmedNamesNoSep(Pieces(s, 0, 0));
    }
  }

  lemma {:induction false} AddCreatorsClean(names: seq<string>, creators: seq<string>, fold: char -> char)
    requires CleanNames(names, fold)
    ensures CleanNames(AddCreators(names, creators, fold), fold)
    decreases |creators|
  {
    if creators != [] {
      SplitNoSep(creators[0]);
      AddNamesClean(names, Split(creators[0]), fold);
      AddCreatorsClean(AddNames(names, Split(creators[0]), fold), creators[1..], fold);
    }
  }

  /** Cleaned names are non-empty, free of separators, normalised and pairwise distinct
      ignoring case. */
  lemma CleanIsClean(creators: seq<string>, fold: char -> char)
    ensures CleanNames(Clean(creators, fold), fold)
  {
    AddCreatorsClean([], creators, fold);
  }

  // ---------------------------------------------------------------------------
  // Splitting a joined byline
  // ---------------------------------------------------------------------------

  /** name sits in s at beg, and no word goes on across its ends. */
  ghost predicate NameAt(s: string, beg: nat, name: string) {
    && beg + |name| <= |s| && s[beg..beg + |name|] == name
    && (beg > 0 ==> !WordChar(s[beg - 1]))
    && (beg + |name| < |s| ==> !WordChar(s[beg + |name|]))
  }

  lemma SepInContext(s: string, beg: nat, name: string, i: nat)
    requires NameAt(s, beg, name) && i < |name|
    ensures SepLen(s, beg + i) == SepLen(name, i)
  {
    var end := beg + |name|;
    assert name[i] == s[beg + i];
    if i + 3 <= |name| {
      SliceOfSlice(s, beg, end, i, i + 3);
      assert i > 0 ==> name[i - 1] == s[beg + i - 1];
      assert i + 3 < |name| ==> name[i + 3] == s[beg + i + 3];
    } else if beg + i + 3 <= |s| {
      assert s[beg + i..beg + i + 3][|name| - i] == s[end];
    }
  }

  lemma NoSepInsideName(s: string, beg: nat, name: string, i: nat)
    requires NameAt(s, beg, name) && GoodName(name) && i < |name|
    ensures SepLen(s, beg + i) == 0
  {
    SepInContext(s, beg, name, i);
    assert SepLen(name, i) == 0;
  }

  lemma SpaceInsideName(s: string, beg: nat, name: string, i: nat)
    requires NameAt(s, beg, name) && GoodName(name) && i < |name| && RegexpSpace(s[beg + i])
    ensures i + 1 < |name| && !RegexpSpace(s[beg + i + 1])
  {
    assert name[i] == s[beg + i] && SpacedAt(name, i);
    assert i + 1 < |name|;
    assert name[i + 1] == s[beg + i + 1];
  }

  lemma NoMatchWithoutSep(s: string, i: nat)
    requires i < |s| && SepLen(s, i) == 0
    requires RegexpSpace(s[i]) ==> i + 1 < |s| && !RegexpSpace(s[i + 1]) && SepLen(s, i + 1) == 0
    ensures MatchEnd(s, i) == 0
  {
    if RegexpSpace(s[i]) {
      assert SkipSpace(s, i) == i + 1;
    }
  }

  lemma NoMatchInsideName(s: string, beg: nat, name: string, i: nat)
    requires NameAt(s, beg, name) && GoodName(name) && i < |name|
    ensures MatchEnd(s, beg + i) == 0
  {
    var j := beg + i;
    NoSepInsideName(s, beg, name, i);
    if RegexpSpace(s[j]) {
      SpaceInsideName(s, beg, name, i);
      NoSepInsideName(s, beg, name, i + 1);
      assert beg + (i + 1) == j + 1;
    }
    NoMatchWithoutSep(s, j);
  }

  lemma {:induction false} ScanOverName(s: string, beg: nat, name: string, i: nat)
    requires NameAt(s, beg, name) && GoodName(name) && i <= |name|
    ensures Pieces(s, beg, beg + i) == Pieces(s, beg, beg + |name|)
    decreases |name| - i
  {
    if i < |name| {
      NoMatchInsideName(s, beg, name, i);
      ScanOverName(s, beg, name, i + 1);
    }
  }

  lemma JoinerMatches(s: string, i: nat)
    requires i + 3 < |s| && s[i..i + 3] == JOINER && !IsSpace(s[i + 3])
    ensures MatchEnd(s, i) == i + 3
  {
    assert s[i] == JOINER[0] && s[i + 1] == JOINER[1] && s[i + 2] == JOINER[2];
    assert SkipSpace(s, i) == i + 1;
    assert SepLen(s, i + 1) == 1;
    assert SkipSpace(s, i + 2) == i + 3;
  }

  /** The joined list starts with its first name, and the joiner if there is more. */
  lemma JoinShape(names: seq<string>)
    requires names != []
    ensures names[0] <= Join(names, JOINER)
    ensures |names| > 1 ==> Join(names, JOINER) == names[0] + JOINER + Join(names[1..], JOINER)
    ensures |names| == 1 ==> Join(names, JOINER) == names[0]
  {
  }

  lemma PieceAtMatch(s: string, beg: nat, i: nat, e: nat, n: string)
    requires beg <= i < |s| && MatchEnd(s, i) == e > 0 && s[beg..i] == n
    ensures Pieces(s, beg, i) == [n] + Pieces(s, e, e)
  {
  }

  lemma FirstPieceAt(s: string, beg: nat, n: string, e: nat)
    requires NameAt(s, beg, n) && GoodName(n) && beg + |n| < |s| && MatchEnd(s, beg + |n|) == e > 0
    ensures Pieces(s, beg, beg) == [n] + Pieces(s, e, e)
  {
    ScanOverName(s, beg, n, 0);
    assert beg + 0 == beg;
    PieceAtMatch(s, beg, beg + |n|, e, n);
  }

  lemma FirstPiece(s: string, beg: nat, n: string)
    requires NameAt(s, beg, n) && GoodName(n) && beg + |n| + 3 < |s|
    requires s[beg + |n|..beg + |n| + 3] == JOINER && !IsSpace(s[beg + |n| + 3])
    ensures Pieces(s, beg, beg) == [n] + Pieces(s, beg + |n| + 3, beg + |n| + 3)
  {
    JoinerMatches(s, beg + |n|);
    FirstPieceAt(s, beg, n, beg + |n| + 3);
  }

  lemma HeadInPlace(s: string, beg: nat, n: string, tail: string)
    requires beg <= |s| && s[beg..] == n + tail
    ensures beg + |n| <= |s| && s[beg..beg + |n|] == n
  {
  }

  lemma PieceAtEnd(s: string, beg: nat)
    requires beg <= |s|
    ensures Pieces(s, beg, |s|) == [s[beg..]]
  {
  }

  lemma LastPiece(s: string, beg: nat, n: string)
    requires beg <= |s| && s[beg..] == n && GoodName(n)
    requires beg > 0 ==> s[beg - 1] == ' '
    ensures Pieces(s, beg, beg) == [n]
  {
    assert n + "" == n;
    HeadInPlace(s, beg, n, "");
    ScanOverName(s, beg, n, 0);
    PieceAtEnd(s, beg);
  }

  lemma JoinTail(s: string, beg: nat, n: string, rest: string)
    requires beg <= |s| && s[beg..] == n + JOINER + rest && rest != ""
    ensures beg + |n| + 3 < |s|
    ensures s[beg + |n|..beg + |n| + 3] == JOINER && s[beg + |n| + 3..] == rest
    ensures s[beg + |n|] == ' ' && s[beg + |n| + 2] == ' ' && s[beg + |n| + 3] == rest[0]
  {
  }

  lemma JoinedStep(s: string, beg: nat, n: string, tail: string)
    requires beg <= |s| && s[beg..] == n + JOINER + tail && GoodName(n) && tail != "" && !IsSpace(tail[0])
    requires beg > 0 ==> s[beg - 1] == ' '
    ensures beg + |n| + 3 < |s| && s[beg + |n| + 3..] == tail && s[beg + |n| + 2] == ' '
    ensures Pieces(s, beg, beg) == [n] + Pieces(s, beg + |n| + 3, beg + |n| + 3)
  {
    assert n + JOINER + tail == n + (JOINER + tail);
    HeadInPlace(s, beg, n, JOINER + tail);
    JoinTail(s, beg, n, tail);
    FirstPiece(s, beg, n);
  }

  lemma GoodHead(names: seq<string>)
    requires names != [] && forall n | n in names :: GoodName(n)
    ensures Join(names, JOINER) != "" && !IsSpace(Join(names, JOINER)[0])
  {
    JoinShape(names);
    assert names[0] in names;
    assert Join(names, JOINER)[0] == names[0][0];
  }

  ghost predicate GoodNames(names: seq<string>) {
    forall n | n in names :: GoodName(n)
  }

  lemma GoodPart(names: seq<string>, k: nat)
    requires k < |names| && GoodNames(names)
    ensures GoodName(names[k])
    ensures k + 1 == |names| ==> Join(names[k..], JOINER) == names[k] && names[k..] == [names[k]]
    ensures k + 1 < |names| ==>
      && Join(names[k..], JOINER) == names[k] + JOINER + Join(names[k + 1..], JOINER)
      && Join(names[k + 1..], JOINER) != "" && !IsSpace(Join(names[k + 1..], JOINER)[0])
  {
    assert names[k] in names;
    assert names[k..][1..] == names[k + 1..];
    if k + 1 < |names| {
      GoodHead(names[k + 1..]);
    }
  }

  function JoinFrom(names: seq<string>, k: nat): string
    requires k <= |names|
  {
    Join(names[k..], JOINER)
  }

  /** The k-th name and those after it sit in s from beg on. */
  ghost predicate JoinedAt(s: string, beg: nat, names: seq<string>, k: nat) {
    && k < |names| && beg <= |s| && s[beg..] == JoinFrom(names, k)
    && (beg > 0 ==> s[beg - 1] == ' ')
  }

  function PiecesFrom(s: string, beg: nat): seq<string>
    requires beg <= |s|
  {
    Pieces(s, beg, beg)
  }

  /** Cutting s at beg gives the names from the k-th on. */
  ghost predicate CutsInto(s: string, beg: nat, names: seq<string>, k: nat) {
    beg <= |s| && k <= |names| && PiecesFrom(s, beg) == names[k..]
  }

  lemma LastOfJoin(s: string, beg: nat, names: seq<string>, k: nat)
    requires GoodNames(names) && JoinedAt(s, beg, names, k) && k + 1 == |names|
    ensures CutsInto(s, beg, names, k)
  {
    GoodPart(names, k);
    LastPiece(s, beg, names[k]);
  }

  lemma NextOfJoin(s: string, beg: nat, names: seq<string>, k: nat)
    requires GoodNames(names) && JoinedAt(s, beg, names, k) && k + 1 < |names|
    ensures JoinedAt(s, beg + |names[k]| + 3, names, k + 1)
  {
  }

  lemma CutsOn(s: string, beg: nat, names: seq<string>, k: nat, n: string, tail: string)
    requires k < |names| && n == names[k] && GoodName(n)
    requires beg <= |s| && s[beg..] == n + JOINER + tail && tail != "" && !IsSpace(tail[0])
    requires beg > 0 ==> s[beg - 1] == ' '
    requires CutsInto(s, beg + |n| + 3, names, k + 1)
    ensures CutsInto(s, beg, names, k)
  {
    JoinedStep(s, beg, n, tail);
    assert names[k..] == [n] + names[k + 1..];
  }

  lemma CutsStep(s: string, beg: nat, names: seq<string>, k: nat)
    requires GoodNames(names) && JoinedAt(s, beg, names, k) && k + 1 < |names|
    requires CutsInto(s, beg + |names[k]| + 3, names, k + 1)
    ensures CutsInto(s, beg, names, k)
  {
    GoodPart(names, k);
    CutsOn(s, beg, names, k, names[k], Join(names[k + 1..], JOINER));
  }

  lemma {:induction false} PiecesOfJoin(s: string, beg: nat, names: seq<string>, k: nat)
    requires GoodNames(names) && JoinedAt(s, beg, names, k)
    ensures CutsInto(s, beg, names, k)
    decreases |names| - k
  {
    if k + 1 == |names| {
      LastOfJoin(s, beg, names, k);
    } else {
      NextOfJoin(s, beg, names, k);
      PiecesOfJoin(s, beg + |names[k]| + 3, names, k + 1);
      CutsStep(s, beg, names, k);
    }
  }

  lemma {:induction false} GoodNamesStayTrimmed(names: seq<string>)
    requires forall n | n in names :: GoodName(n)
    ensures TrimmedNames(names) == names
  {
    if names != [] {
      assert names[0] in names;
      TrimmedStays(names[0]);
      GoodNamesStayTrimmed(names[1..]);
    }
  }

  lemma {:induction false} JoinTrimmed(names: seq<string>)
    requires names != [] && forall n | n in names :: GoodName(n)
    ensures Join(names, JOINER) != "" && Trimmed(Join(names, JOINER))
  {
    assert names[0] in names;
    if |names| > 1 {
      JoinTrimmed(names[1..]);
    }
  }

  /** Splitting the joined list of good names gives the names back. */
  lemma SplitJoin(names: seq<string>)
    requires forall n | n in names :: GoodName(n)
    ensures Split(Join(names, JOINER)) == names
  {
    if names != [] {
      var s := Join(names, JOINER);
      JoinTrimmed(names);
      TrimmedStays(s);
      assert s[0..] == s;
      assert names[0..] == names;
      PiecesOfJoin(s, 0, names, 0);
      GoodNamesStayTrimmed(names);
    }
  }

  lemma {:induction false} AddAllNames(names: seq<string>, parts: seq<string>, fold: char -> char)
    requires forall n | n in parts :: GoodName(n)
    requires DistinctNames(names + parts, fold)
    ensures AddNames(names, parts, fold) == names + parts
    decreases |parts|
  {
    if parts != [] {
      var name := parts[0];
      assert name in parts;
      assert (names + parts)[|names|] == name;
      assert !Known(names, name, fold) by {
        if n :| n in names && Fold(n, fold) == Fold(name, fold) {
          var i :| 0 <= i < |names| && names[i] == n;
          assert (names + parts)[i] == n;
        }
      }
      assert (names + [name]) + parts[1..] == names + parts;
      AddAllNames(names + [name], parts[1..], fold);
    }
  }

  lemma CleanOne(raw: string, parts: seq<string>, names: seq<string>, fold: char -> char)
    requires Split(raw) == parts && AddNames([], parts, fold) == names
    ensures Clean([raw], fold) == names
  {
    assert [raw][1..] == [];
    assert AddCreators(names, [], fold) == names;
  }

  /** Cleaning a stored byline recovers its names. */
  lemma CleanOfByline(names: seq<string>, fold: char -> char)
    requires CleanNames(names, fold)
    ensures Clean([Join(names, JOINER)], fold) == names
  {
    SplitJoin(names);
    assert [] + names == names;
    AddAllNames([], names, fold);
    CleanOne(Join(names, JOINER), names, names, fold);
  }

  /** Cleaning any creators, joining and cleaning again returns the same list. */
  lemma RoundTrip(creators: seq<string>, fold: char -> char)
    ensures Clean([Join(Clean(creators, fold), JOINER)], fold) == Clean(creators, fold)
  {
    CleanIsClean(creators, fold);
    CleanOfByline(Clean(creators, fold), fold);
  }
}
