/** String primitives of Go and SQLite: space, words, fields, joining, case, byte lengths. */
module Strings {

  /** unicode.IsSpace. */
  predicate IsSpace(c: char) {
    || '\t' <= c <= '\r' || c == ' '
    || c in {'\U{85}', '\U{A0}', '\U{1680}', '\U{2028}', '\U{2029}', '\U{202F}', '\U{205F}', '\U{3000}'}
    || '\U{2000}' <= c <= '\U{200A}'
  }

  /** \s of Go's regexp. */
  predicate RegexpSpace(c: char) {
    c in {'\t', '\n', '\U{0C}', '\r', ' '}
  }

  /** The ASCII word characters that \b looks at. */
  predicate WordChar(c: char) {
    'a' <= c <= 'z' || 'A' <= c <= 'Z' || '0' <= c <= '9' || c == '_'
  }

  function TrimLeft(s: string): (r: string)
    ensures |r| <= |s| && r == s[|s| - |r|..]
    ensures r != "" ==> !IsSpace(r[0])
  {
    if s != "" && IsSpace(s[0]) then TrimLeft(s[1..]) else s
  }

  function TrimRight(s: string): (r: string)
    ensures |r| <= |s| && r == s[..|r|]
    ensures r != "" ==> !IsSpace(r[|r| - 1])
  {
    if s != "" && IsSpace(s[|s| - 1]) then TrimRight(s[..|s| - 1]) else s
  }

  /** strings.TrimSpace. */
  function TrimSpace(s: string): (r: string)
    ensures r != "" ==> !IsSpace(r[0]) && !IsSpace(r[|r| - 1])
  {
    TrimRight(TrimLeft(s))
  }

  /** The case mapping of SQLite's LOWER, LIKE and NOCASE. */
  function AsciiLower(c: char): char {
    if 'A' <= c <= 'Z' then (c as int + 32) as char else c
  }

  /** The same character, or the capital and the small form of one of A to Z. */
  predicate SameLetter(c: char, d: char) {
    || c == d
    || ('A' <= c <= 'Z' && d as int == c as int + 32)
    || ('A' <= d <= 'Z' && c as int == d as int + 32)
  }

  lemma LowerAgreesIff(c: char, d: char)
    ensures AsciiLower(c) == AsciiLower(d) <==> SameLetter(c, d)
  {
  }

  /** A string with every character mapped to its representative in a case folding. */
  function Fold(s: string, fold: char -> char): (r: string)
    ensures |r| == |s|
  {
    seq(|s|, i requires 0 <= i < |s| => fold(s[i]))
  }

  /** len of a string: its bytes in UTF-8. */
  function Utf8Len(s: string): nat {
    if s == "" then 0
    else
      var c := s[0] as int;
      (if c < 0x80 then 1 else if c < 0x800 then 2 else if c < 0x10000 then 3 else 4) + Utf8Len(s[1..])
  }

  /** Bytes add up; an ASCII character is one, and the others two, three or four up to U+7FF,
      U+FFFF and beyond. */
  lemma {:induction false} BytesAddUp(a: string, b: string)
    ensures Utf8Len(a + b) == Utf8Len(a) + Utf8Len(b)
    ensures |a| == 1 ==>
      var n := a[0] as int;
      Utf8Len(a) == if n <= 127 then 1 else if n <= 2047 then 2 else if n <= 65535 then 3 else 4
  {
    if a == "" {
      assert a + b == b;
    } else {
      assert (a + b)[1..] == a[1..] + b;
      BytesAddUp(a[1..], b);
    }
  }

  predicate Trimmed(s: string) {
    s != "" ==> !IsSpace(s[0]) && !IsSpace(s[|s| - 1])
  }

  lemma TrimmedStays(s: string)
    requires Trimmed(s)
    ensures TrimSpace(s) == s
  {
  }

  function FieldEnd(s: string): (n: nat)
    ensures n <= |s|
    ensures forall i | 0 <= i < n :: !IsSpace(s[i])
    ensures n < |s| ==> IsSpace(s[n])
  {
    if s == "" || IsSpace(s[0]) then 0 else 1 + FieldEnd(s[1..])
  }

  /** strings.Fields. */
  function Fields(s: string): seq<string>
    decreases |s|
  {
    var t := TrimLeft(s);
    if t == "" then []
    else
      var n := FieldEnd(t);
      [t[..n]] + Fields(t[n..])
  }

  /** strings.Join. */
  function Join(parts: seq<string>, sep: string): string {
    if parts == [] then ""
    else if |parts| == 1 then parts[0]
    else parts[0] + sep + Join(parts[1..], sep)
  }

  function Collapse(s: string): string {
    Join(Fields(s), " ")
  }

  predicate SpacedAt(s: string, i: nat)
    requires i < |s|
  {
    IsSpace(s[i]) ==> s[i] == ' ' && (i + 1 < |s| ==> !IsSpace(s[i + 1]))
  }

  /** Every space is a blank and stands alone. */
  predicate SingleSpaced(s: string) {
    forall i | 0 <= i < |s| :: SpacedAt(s, i)
  }

  predicate Collapsed(s: string) {
    SingleSpaced(s) && Trimmed(s)
  }

  predicate IsField(f: string) {
    f != "" && forall i | 0 <= i < |f| :: !IsSpace(f[i])
  }

  lemma FieldsStep(s: string, t: string, n: nat)
    requires t == TrimLeft(s) && t != "" && n == FieldEnd(t)
    ensures Fields(s) == [t[..n]] + Fields(t[n..])
    ensures 0 < n
  {
  }

  lemma {:induction false} FieldsAreFields(s: string)
    ensures forall f | f in Fields(s) :: IsField(f)
    decreases |s|
  {
    var t := TrimLeft(s);
    if t != "" {
      var n := FieldEnd(t);
      FieldsStep(s, t, n);
      FieldsAreFields(t[n..]);
    }
  }

  lemma {:induction false} JoinedFieldsCollapsed(fs: seq<string>)
    requires forall f | f in fs :: IsField(f)
    ensures Collapsed(Join(fs, " "))
    ensures fs != [] ==> Join(fs, " ") != ""
  {
    if |fs| > 1 {
      var rest := Join(fs[1..], " ");
      JoinedFieldsCollapsed(fs[1..]);
      var all := fs[0] + " " + rest;
      assert fs[0] in fs;
      forall i | 0 <= i < |all| ensures SpacedAt(all, i) {
        if i > |fs[0]| {
          assert SpacedAt(rest, i - |fs[0]| - 1);
        }
      }
    } else if |fs| == 1 {
      assert fs[0] in fs;
    }
  }

  lemma CollapseIsCollapsed(s: string)
    ensures Collapsed(Collapse(s))
  {
    FieldsAreFields(s);
    JoinedFieldsCollapsed(Fields(s));
  }

  lemma CollapsedTail(s: string, n: nat)
    requires Collapsed(s) && n < |s| && IsSpace(s[n])
    ensures s[n] == ' ' && n + 1 < |s| && Collapsed(s[n + 1..])
  {
    assert SpacedAt(s, n);
    SliceSingleSpaced(s, n + 1, |s|);
    assert s[n + 1..|s|] == s[n + 1..];
  }

  function Cut(s: string): seq<string> {
    Fields(s)
  }

  lemma BlankIsSkipped(s: string, spaced: string)
    requires Trimmed(s) && spaced == [' '] + s
    ensures Cut(spaced) == Cut(s)
  {
    assert spaced[1..] == s;
  }

  lemma FieldsUnfold(s: string, head: string, rest: string)
    requires Trimmed(s) && s != "" && head == s[..FieldEnd(s)] && rest == s[FieldEnd(s)..]
    ensures Cut(s) == [head] + Cut(rest)
  {
  }

  lemma TailIsSpaced(s: string, n: nat, rest: string)
    requires n < |s| && s[n] == ' ' && rest == s[n + 1..]
    ensures s[n..] == [' '] + rest
  {
  }

  lemma FieldsOfCollapsed(s: string, head: string, spaced: string, rest: string)
    requires Trimmed(s) && s != "" && head == s[..FieldEnd(s)] && spaced == s[FieldEnd(s)..]
    requires Trimmed(rest) && spaced == [' '] + rest
    ensures Cut(s) == [head] + Cut(rest)
  {
    BlankIsSkipped(rest, spaced);
    FieldsUnfold(s, head, spaced);
  }

  lemma FieldsOfNothing()
    ensures Fields("") == []
  {
    assert TrimLeft("") == "";
  }

  lemma SingleField(s: string)
    requires s != "" && FieldEnd(s) == |s| && Trimmed(s)
    ensures Fields(s) == [s]
  {
    FieldsUnfold(s, s, "");
    FieldsOfNothing();
  }

  lemma JoinHead(head: string, rest: seq<string>)
    requires rest != []
    ensures Join([head] + rest, " ") == head + " " + Join(rest, " ")
  {
  }

  lemma FieldsNonEmpty(s: string)
    requires Trimmed(s) && s != ""
    ensures Cut(s) != []
  {
  }

  lemma JoinedCut(s: string, head: string, rest: string)
    requires Cut(s) == [head] + Cut(rest) && Cut(rest) != []
    ensures Collapse(s) == head + " " + Collapse(rest)
  {
    JoinHead(head, Cut(rest));
  }

  lemma CollapseStep(s: string, n: nat)
    requires Collapsed(s) && s != "" && n == FieldEnd(s) && n < |s|
    ensures n + 1 < |s| && Collapsed(s[n + 1..])
    ensures Collapse(s) == s[..n] + " " + Collapse(s[n + 1..])
  {
    CollapsedTail(s, n);
    var rest := s[n + 1..];
    TailIsSpaced(s, n, rest);
    FieldsOfCollapsed(s, s[..n], s[n..], rest);
    FieldsNonEmpty(rest);
    JoinedCut(s, s[..n], rest);
  }

  lemma CutAtBlank(s: string, n: nat)
    requires n < |s| && s[n] == ' '
    ensures s == s[..n] + " " + s[n + 1..]
  {
  }

  lemma CollapseEmpty()
    ensures Collapse("") == ""
  {
  }

  lemma CollapseSingle(s: string)
    requires s != "" && FieldEnd(s) == |s| && Trimmed(s)
    ensures Collapse(s) == s
  {
    SingleField(s);
  }

  lemma {:induction false} CollapsedStays(s: string)
    requires Collapsed(s)
    ensures Collapse(s) == s
    decreases |s|
  {
    if s == "" {
      CollapseEmpty();
    } else if FieldEnd(s) == |s| {
      CollapseSingle(s);
    } else {
      var n := FieldEnd(s);
      CollapsedTail(s, n);
      CollapseStep(s, n);
      CollapsedStays(s[n + 1..]);
      CutAtBlank(s, n);
    }
  }

  lemma SliceSingleSpaced(s: string, i: nat, j: nat)
    requires SingleSpaced(s) && i <= j <= |s|
    ensures SingleSpaced(s[i..j])
  {
    forall x | 0 <= x < j - i ensures SpacedAt(s[i..j], x) {
      assert SpacedAt(s, i + x);
    }
  }

  lemma TrimSingleSpaced(s: string)
    requires SingleSpaced(s)
    ensures Collapsed(TrimSpace(s))
  {
    var t := TrimLeft(s);
    SliceSingleSpaced(s, |s| - |t|, |s|);
    assert s[|s| - |t|..|s|] == t;
    SliceSingleSpaced(t, 0, |TrimRight(t)|);
  }
}
