/** The author filter of the book listing: an equality and three LIKE patterns with escaped
    metacharacters, against the components of a joined byline. */
module AuthorFilter {
  import opened Strings
  import opened AuthorNames

  /** SQLite's LIKE with ESCAPE '\': % any run, _ any one character, ASCII case ignored. */
  predicate Like(p: string, s: string)
    decreases |p|
  {
    if p == "" then s == ""
    else if p[0] == '%' then exists i :: 0 <= i <= |s| && Like(p[1..], s[i..])
    else if p[0] == '_' then s != "" && Like(p[1..], s[1..])
    else if p[0] == '\\' then
      |p| >= 2 && s != "" && AsciiLower(p[1]) == AsciiLower(s[0]) && Like(p[2..], s[1..])
    else s != "" && AsciiLower(p[0]) == AsciiLower(s[0]) && Like(p[1..], s[1..])
  }

  /** strings.ReplaceAll of one character. */
  function Replace(s: string, c: char, put: string): string {
    if s == "" then "" else (if s[0] == c then put else [s[0]]) + Replace(s[1..], c, put)
  }

  function EscapeLike(s: string): string {
    Replace(Replace(Replace(s, '\\', "\\\\"), '%', "\\%"), '_', "\\_")
  }

  predicate Meta(c: char) {
    c == '\\' || c == '%' || c == '_'
  }

  function Escaped(s: string): string {
    if s == "" then "" else (if Meta(s[0]) then ['\\', s[0]] else [s[0]]) + Escaped(s[1..])
  }

  lemma {:induction false} ReplaceConcat(x: string, y: string, c: char, put: string)
    ensures Replace(x + y, c, put) == Replace(x, c, put) + Replace(y, c, put)
  {
    if x == "" {
      assert x + y == y;
    } else {
      assert (x + y)[1..] == x[1..] + y;
      ReplaceConcat(x[1..], y, c, put);
    }
  }

  lemma ReplaceOne(a: char, c: char, put: string)
    ensures Replace([a], c, put) == if a == c then put else [a]
  {
  }

  lemma EscapeOne(c: char)
    ensures EscapeLike([c]) == if Meta(c) then ['\\', c] else [c]
  {
    ReplaceOne(c, '\\', "\\\\");
    ReplaceOne(c, '%', "\\%");
    ReplaceOne(c, '_', "\\_");
    if c == '\\' {
      assert "\\\\" == "\\" + "\\";
      ReplaceConcat("\\", "\\", '%', "\\%");
      ReplaceConcat("\\", "\\", '_', "\\_");
      ReplaceOne('\\', '%', "\\%");
      ReplaceOne('\\', '_', "\\_");
    } else if c == '%' {
      assert "\\%" == "\\" + "%";
      ReplaceConcat("\\", "%", '_', "\\_");
      ReplaceOne('\\', '_', "\\_");
    }
  }

  /** The three successive replacements escape every metacharacter once: the backslash goes
      first, so the backslashes of the later two are not escaped again. */
  lemma {:induction false} EscapeIsPerCharacter(s: string)
    ensures EscapeLike(s) == Escaped(s)
  {
    if s != "" {
      var a, b := [s[0]], s[1..];
      assert s == a + b;
      ReplaceConcat(a, b, '\\', "\\\\");
      ReplaceConcat(Replace(a, '\\', "\\\\"), Replace(b, '\\', "\\\\"), '%', "\\%");
      var a2, b2 := Replace(Replace(a, '\\', "\\\\"), '%', "\\%"), Replace(Replace(b, '\\', "\\\\"), '%', "\\%");
      ReplaceConcat(a2, b2, '_', "\\_");
      EscapeOne(s[0]);
      EscapeIsPerCharacter(b);
    }
  }

  /** x and the start of s agree, ignoring ASCII case. */
  predicate FoldPrefix(x: string, s: string) {
    |x| <= |s| && forall i | 0 <= i < |x| :: AsciiLower(x[i]) == AsciiLower(s[i])
  }

  predicate SameAscii(x: string, s: string) {
    |x| == |s| && FoldPrefix(x, s)
  }

  lemma FoldPrefixStep(x: string, s: string)
    requires x != "" && s != ""
    ensures FoldPrefix(x, s) <==> AsciiLower(x[0]) == AsciiLower(s[0]) && FoldPrefix(x[1..], s[1..])
  {
  }

  lemma LikeEscapedStep(x: string, q: string, s: string)
    requires x != ""
    ensures Like(Escaped(x) + q, s) <==>
      s != "" && AsciiLower(x[0]) == AsciiLower(s[0]) && Like(Escaped(x[1..]) + q, s[1..])
  {
    var p := Escaped(x) + q;
    var rest := Escaped(x[1..]) + q;
    if Meta(x[0]) {
      assert p == ['\\', x[0]] + rest;
      assert p[2..] == rest;
    } else {
      assert p == [x[0]] + rest;
      assert p[1..] == rest;
    }
  }

  /** An escaped literal in a pattern matches exactly its text, ignoring ASCII case. */
  lemma {:induction false} LikeLiteral(x: string, q: string, s: string)
    ensures Like(Escaped(x) + q, s) <==> FoldPrefix(x, s) && Like(q, s[|x|..])
  {
    if x == "" {
      assert Escaped(x) + q == q && s[0..] == s;
    } else {
      LikeEscapedStep(x, q, s);
      if s != "" {
        LikeLiteral(x[1..], q, s[1..]);
        FoldPrefixStep(x, s);
        if |x| <= |s| {
          assert s[1..][|x| - 1..] == s[|x|..];
        }
      }
    }
  }

  lemma LikeLiteralToEnd(x: string, s: string)
    ensures Like(Escaped(x), s) <==> SameAscii(x, s)
  {
  }

  lemma LikeAny(s: string)
    ensures Like("%", s)
  {
    assert "%"[1..] == "";
    assert Like("%"[1..], s[|s|..]);
  }

  lemma LikeFromAnywhere(p: string, s: string)
    ensures Like("%" + p, s) <==> exists i :: 0 <= i <= |s| && Like(p, s[i..])
  {
  }

  // ---------------------------------------------------------------------------
  // The author condition
  // ---------------------------------------------------------------------------

  /** The condition buildWhereClause writes for an author filter. */
  predicate AuthorCondition(f: string, byline: string) {
    var esc := EscapeLike(f);
    || byline == f
    || Like(esc + " & %", byline)
    || Like("% & " + esc, byline)
    || Like("% & " + esc + " & %", byline)
  }

  predicate StartsWith(f: string, s: string) {
    FoldPrefix(f + JOINER, s)
  }

  predicate EndsAt(f: string, s: string, i: nat) {
    i <= |s| && SameAscii(JOINER + f, s[i..])
  }

  predicate InsideAt(f: string, s: string, i: nat) {
    i <= |s| && FoldPrefix(JOINER + f + JOINER, s[i..])
  }

  lemma {:induction false} EscapedConcat(x: string, y: string)
    ensures Escaped(x + y) == Escaped(x) + Escaped(y)
  {
    if x == "" {
      assert x + y == y;
    } else {
      assert (x + y)[1..] == x[1..] + y;
      EscapedConcat(x[1..], y);
    }
  }

  lemma EscapedJoiner()
    ensures Escaped(JOINER) == JOINER
  {
  }

  lemma StartPattern(f: string, s: string)
    ensures Like(EscapeLike(f) + " & %", s) <==> StartsWith(f, s)
  {
    EscapeIsPerCharacter(f);
    EscapedConcat(f, JOINER);
    EscapedJoiner();
    assert EscapeLike(f) + " & %" == Escaped(f + JOINER) + "%";
    LikeLiteral(f + JOINER, "%", s);
    if FoldPrefix(f + JOINER, s) {
      LikeAny(s[|f + JOINER|..]);
    }
  }

  lemma EndPattern(f: string, s: string)
    ensures Like("% & " + EscapeLike(f), s) <==> exists i: nat :: EndsAt(f, s, i)
  {
    EscapeIsPerCharacter(f);
    EscapedConcat(JOINER, f);
    EscapedJoiner();
    var p := Escaped(JOINER + f);
    assert "% & " + EscapeLike(f) == "%" + p;
    LikeFromAnywhere(p, s);
    forall i | 0 <= i <= |s| ensures Like(p, s[i..]) <==> EndsAt(f, s, i) {
      LikeLiteralToEnd(JOINER + f, s[i..]);
    }
  }

  lemma InsidePattern(f: string, s: string)
    ensures Like("% & " + EscapeLike(f) + " & %", s) <==> exists i: nat :: InsideAt(f, s, i)
  {
    EscapeIsPerCharacter(f);
    EscapedConcat(JOINER, f);
    EscapedConcat(JOINER + f, JOINER);
    EscapedJoiner();
    var x := JOINER + f + JOINER;
    var p := Escaped(x) + "%";
    assert "% & " + EscapeLike(f) + " & %" == "%" + p;
    LikeFromAnywhere(p, s);
    forall i | 0 <= i <= |s| ensures Like(p, s[i..]) <==> InsideAt(f, s, i) {
      LikeLiteral(x, "%", s[i..]);
      if FoldPrefix(x, s[i..]) {
        LikeAny(s[i..][|x|..]);
      }
    }
  }
}
