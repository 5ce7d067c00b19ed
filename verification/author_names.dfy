/** Splitting, normalising and de-duplicating author bylines. fold is Unicode's per-rune
    lowercase mapping (strings.ToLower), left as a parameter. */
module AuthorNames {
  import opened Strings

  const JOINER := " & "

  // ---------------------------------------------------------------------------
  // The separators: & ; / and the word "and"
  // ---------------------------------------------------------------------------

  predicate SepChar(c: char) {
    c == '&' || c == ';' || c == '/'
  }

  predicate AndWord(w: string) {
    |w| == 3 && (w[0] == 'a' || w[0] == 'A') && (w[1] == 'n' || w[1] == 'N') && (w[2] == 'd' || w[2] == 'D')
  }

  /** \band\b, ignoring case, at position i. */
  predicate AndAt(s: string, i: nat) {
    && i + 3 <= |s| && AndWord(s[i..i + 3])
    && (i > 0 ==> !WordChar(s[i - 1]))
    && (i + 3 < |s| ==> !WordChar(s[i + 3]))
  }

  function SepLen(s: string, i: nat): (n: nat)
    ensures i + n <= |s| || n == 0
  {
    if i < |s| && SepChar(s[i]) then 1
    else if AndAt(s, i) then 3
    else 0
  }

  function SkipSpace(s: string, i: nat): (j: nat)
    requires i <= |s|
    ensures i <= j <= |s|
    ensures j < |s| ==> !RegexpSpace(s[j])
    decreases |s| - i
  {
    if i < |s| && RegexpSpace(s[i]) then SkipSpace(s, i + 1) else i
  }

  /** Where a match of the separator pattern that starts at i ends; 0 for no match. */
  function MatchEnd(s: string, i: nat): (e: nat)
    requires i <= |s|
    ensures e == 0 || i < e <= |s|
  {
    var j := SkipSpace(s, i);
    if SepLen(s, j) > 0 then SkipSpace(s, j + SepLen(s, j)) else 0
  }

  /** The pieces Split cuts s[beg..] into, looking for the next match from i on. */
  function Pieces(s: string, beg: nat, i: nat): seq<string>
    requires beg <= i <= |s|
    decreases |s| - i
  {
    if i == |s| then [s[beg..]]
    else if MatchEnd(s, i) > 0 then [s[beg..i]] + Pieces(s, MatchEnd(s, i), MatchEnd(s, i))
    else Pieces(s, beg, i + 1)
  }

  function NamesOf(piece: string): seq<string> {
    var p := TrimSpace(piece);
    if p == "" then [] else [p]
  }

  function TrimmedNames(pieces: seq<string>): seq<string> {
    if pieces == [] then [] else NamesOf(pieces[0]) + TrimmedNames(pieces[1..])
  }

  function Split(raw: string): seq<string> {
    var s := TrimSpace(raw);
    if s == "" then [] else TrimmedNames(Pieces(s, 0, 0))
  }

  // ---------------------------------------------------------------------------
  // Normalisation and cleaning
  // ---------------------------------------------------------------------------

  function CountCommas(s: string): nat {
    if s == "" then 0 else (if s[0] == ',' then 1 else 0) + CountCommas(s[1..])
  }

  function FirstComma(s: string): (k: nat)
    requires CountCommas(s) > 0
    ensures k < |s| && s[k] == ','
  {
    if s[0] == ',' then 0 else 1 + FirstComma(s[1..])
  }

  function Swap(c: string, k: nat): string
    requires k < |c|
  {
    var last, first := TrimSpace(c[..k]), TrimSpace(c[k + 1..]);
    if last != "" && first != "" then first + " " + last else c
  }

  /** "Last, First" to "First Last", for a name with exactly one comma. */
  function FirstLast(c: string): string {
    if CountCommas(c) == 1 then Swap(c, FirstComma(c)) else c
  }

  /** NormalizeAuthorName. */
  function Normalize(name: string): string {
    FirstLast(Collapse(name))
  }

  predicate Known(names: seq<string>, name: string, fold: char -> char) {
    exists n :: n in names && Fold(n, fold) == Fold(name, fold)
  }

  /** Appends the names of parts that are not yet known, in order. */
  function AddNames(names: seq<string>, parts: seq<string>, fold: char -> char): seq<string>
    decreases |parts|
  {
    if parts == [] then names
    else
      var name := Normalize(parts[0]);
      AddNames(if name == "" || Known(names, name, fold) then names else names + [name], parts[1..], fold)
  }

  function AddCreators(names: seq<string>, creators: seq<string>, fold: char -> char): seq<string>
    decreases |creators|
  {
    if creators == [] then names
    else AddCreators(AddNames(names, Split(creators[0]), fold), creators[1..], fold)
  }

  /** CleanAuthorNames. */
  function Clean(creators: seq<string>, fold: char -> char): seq<string> {
    AddCreators([], creators, fold)
  }

  // ---------------------------------------------------------------------------
  // The loops
  // ---------------------------------------------------------------------------

  /** The names found from i on are cut and then those found from i' on. */
  ghost predicate Resumes(s: string, beg: nat, i: nat, cut: seq<string>, beg': nat, i': nat) {
    && beg <= i <= |s| && beg' <= i' <= |s|
    && TrimmedNames(Pieces(s, beg, i)) == cut + TrimmedNames(Pieces(s, beg', i'))
  }

  lemma CutResumes(s: string, beg: nat, i: nat)
    requires beg <= i < |s| && MatchEnd(s, i) > 0
    ensures Resumes(s, beg, i, NamesOf(s[beg..i]), MatchEnd(s, i), MatchEnd(s, i))
  {
  }

  lemma SkipResumes(s: string, beg: nat, i: nat)
    requires beg <= i < |s| && MatchEnd(s, i) == 0
    ensures Resumes(s, beg, i, [], beg, i + 1)
  {
  }

  lemma LastCut(s: string, beg: nat)
    requires beg <= |s|
    ensures TrimmedNames(Pieces(s, beg, |s|)) == NamesOf(s[beg..])
  {
  }

  method SplitAuthorNames(raw: string) returns (names: seq<string>)
    ensures names == Split(raw)
  {
    var s := TrimSpace(raw);
    if s == "" {
      return [];
    }
    names := SplitTrimmed(s);
  }

  /** One position of the loop: cut there, or go on. */
  method CutOrSkip(s: string, beg: nat, i: nat) returns (cut: seq<string>, beg': nat, i': nat)
    requires beg <= i < |s|
    ensures i < i' && Resumes(s, beg, i, cut, beg', i')
  {
    var e := MatchEnd(s, i);
    if e > 0 {
      CutResumes(s, beg, i);
      cut, beg', i' := NamesOf(s[beg..i]), e, e;
    } else {
      SkipResumes(s, beg, i);
      cut, beg', i' := [], beg, i + 1;
    }
  }

  /** The loop over the separator matches. */
  method SplitTrimmed(s: string) returns (names: seq<string>)
    ensures names == TrimmedNames(Pieces(s, 0, 0))
  {
    names := [];
    var beg, i := 0, 0;
    ghost var all := TrimmedNames(Pieces(s, 0, 0));
    ghost var rest := all;
    while i < |s|
      invariant 0 <= beg <= i <= |s|
      invariant rest == TrimmedNames(Pieces(s, beg, i)) && names + rest == all
      decreases |s| - i
    {
      var cut;
      cut, beg, i := CutOrSkip(s, beg, i);
      rest := TrimmedNames(Pieces(s, beg, i));
      assert names + (cut + rest) == (names + cut) + rest;
      names := names + cut;
    }
    LastCut(s, beg);
    names := names + NamesOf(s[beg..]);
  }

  ghost predicate Tracks(seen: set<string>, names: seq<string>, fold: char -> char) {
    forall key :: key in seen <==> exists n :: n in names && Fold(n, fold) == key
  }

  /** The inner loop of CleanAuthorNames. */
  method AddParts(names0: seq<string>, seen0: set<string>, parts: seq<string>, fold: char -> char)
    returns (names: seq<string>, seen: set<string>)
    requires Tracks(seen0, names0, fold)
    ensures names == AddNames(names0, parts, fold) && Tracks(seen, names, fold)
  {
    names, seen := names0, seen0;
    var j := 0;
    while j < |parts|
      invariant 0 <= j <= |parts| && Tracks(seen, names, fold)
      invariant AddNames(names, parts[j..], fold) == AddNames(names0, parts, fold)
    {
      assert parts[j..][1..] == parts[j + 1..];
      var name := Normalize(parts[j]);
      var key := Fold(name, fold);
      assert key in seen <==> Known(names, name, fold);
      if name != "" && key !in seen {
        assert forall n :: n in names + [name] <==> n in names || n == name;
        seen := seen + {key};
        names := names + [name];
      }
      j := j + 1;
    }
  }

  method CleanAuthorNames(creators: seq<string>, fold: char -> char) returns (names: seq<string>)
    ensures names == Clean(creators, fold)
  {
    var seen: set<string> := {};
    names := [];
    var i := 0;
    while i < |creators|
      invariant 0 <= i <= |creators| && Tracks(seen, names, fold)
      invariant AddCreators(names, creators[i..], fold) == Clean(creators, fold)
    {
      assert creators[i..][1..] == creators[i + 1..];
      var parts := SplitAuthorNames(creators[i]);
      names, seen := AddParts(names, seen, parts, fold);
      i := i + 1;
    }
  }
}
