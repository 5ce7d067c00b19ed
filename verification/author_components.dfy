/** The author filter finds exactly the books that have the name as a component. */
module AuthorComponents {
  import opened Strings
  import opened AuthorNames
  import opened AuthorRoundTrip
  import opened AuthorFilter

  predicate NoAmp(s: string) {
    '&' !in s
  }

  lemma GoodNameNoAmp(n: string)
    requires GoodName(n)
    ensures NoAmp(n)
  {
    forall i | 0 <= i < |n| ensures n[i] != '&' {
      assert SepLen(n, i) == 0;
    }
  }

  /** An ampersand of n & rest is the joiner's or lies further right. */
  lemma AmpPosition(n: string, rest: string, p: nat)
    requires NoAmp(n) && p < |n + JOINER + rest| && (n + JOINER + rest)[p] == '&'
    ensures p == |n| + 1 || (p >= |n| + 3 && rest[p - |n| - 3] == '&')
  {
  }

  lemma FoldPrefixAt(x: string, s: string, i: nat)
    requires FoldPrefix(x, s) && i < |x|
    ensures s[i] == '&' <==> x[i] == '&'
  {
  }

  lemma FoldPrefixSplit(x: string, y: string, s: string)
    ensures FoldPrefix(x + y, s) <==> FoldPrefix(x, s) && FoldPrefix(y, s[|x|..])
  {
  }

  lemma FoldPrefixRefl(x: string, y: string)
    ensures FoldPrefix(x, x + y)
  {
  }

  /** f & at the start means that f is the first name. */
  lemma StartsWithFirst(f: string, n: string, rest: string)
    requires NoAmp(f) && NoAmp(n)
    ensures StartsWith(f, n + JOINER + rest) <==> SameAscii(f, n)
  {
    var s := n + JOINER + rest;
    FoldPrefixSplit(f, JOINER, s);
    if StartsWith(f, s) {
      FoldPrefixAt(f + JOINER, s, |f| + 1);
      AmpPosition(n, rest, |f| + 1);
      assert forall i | 0 <= i < |f| + 3 && (f + JOINER)[i] == '&' :: i == |f| + 1;
      if |n| + 1 < |f| + 3 {
        FoldPrefixAt(f + JOINER, s, |n| + 1);
      }
      forall i | 0 <= i < |f| ensures AsciiLower(f[i]) == AsciiLower(n[i]) {
        assert s[i] == n[i] && (f + JOINER)[i] == f[i];
      }
    }
    if SameAscii(f, n) {
      forall i | 0 <= i < |f| ensures AsciiLower(f[i]) == AsciiLower(s[i]) {
        assert s[i] == n[i];
      }
      assert s[|f|..] == JOINER + rest;
      FoldPrefixRefl(JOINER, rest);
    }
  }

  lemma StartsWithNeedsAmp(f: string, n: string)
    requires NoAmp(n)
    ensures !StartsWith(f, n)
  {
    if StartsWith(f, n) {
      FoldPrefixAt(f + JOINER, n, |f| + 1);
    }
  }

  lemma JoinerNeedsAmp(x: string, n: string, i: nat)
    requires NoAmp(n) && i <= |n|
    ensures !FoldPrefix(JOINER + x, n[i..])
  {
    assert forall j | 0 <= j < |n| - i :: n[i..][j] == n[i + j];
    if FoldPrefix(JOINER + x, n[i..]) {
      FoldPrefixAt(JOINER + x, n[i..], 1);
    }
  }

  /** Where a joiner can be found in n & rest. */
  lemma JoinerPosition(x: string, n: string, rest: string, i: nat)
    requires NoAmp(n) && rest != "" && rest[0] != '&'
    requires i <= |n + JOINER + rest| && FoldPrefix(JOINER + x, (n + JOINER + rest)[i..])
    ensures i == |n| || (i >= |n| + 3 && (n + JOINER + rest)[i..] == rest[i - |n| - 3..])
    ensures i == |n| ==> (n + JOINER + rest)[i..] == JOINER + rest
  {
    var s := n + JOINER + rest;
    FoldPrefixAt(JOINER + x, s[i..], 1);
    assert s[i..][1] == s[i + 1];
    AmpPosition(n, rest, i + 1);
  }

  lemma FoldPrefixBehindJoiner(x: string, rest: string)
    ensures FoldPrefix(JOINER + x, JOINER + rest) <==> FoldPrefix(x, rest)
  {
    FoldPrefixSplit(JOINER, x, JOINER + rest);
    FoldPrefixRefl(JOINER, rest);
    assert (JOINER + rest)[3..] == rest;
  }

  lemma ShiftTail(n: string, rest: string, i: nat)
    requires i <= |rest|
    ensures (n + JOINER + rest)[|n| + 3 + i..] == rest[i..]
    ensures (n + JOINER + rest)[|n|..] == JOINER + rest
  {
  }

  // ---------------------------------------------------------------------------
  // The two patterns that start with %
  // ---------------------------------------------------------------------------

  /** f is one of the names, ignoring ASCII case. */
  predicate Component(f: string, names: seq<string>) {
    exists n :: n in names && SameAscii(f, n)
  }

  lemma EndsStep(f: string, n: string, rest: string)
    requires NoAmp(f) && NoAmp(n) && rest != "" && rest[0] != '&'
    ensures (exists i: nat :: EndsAt(f, n + JOINER + rest, i))
      <==> SameAscii(f, rest) || exists i: nat :: EndsAt(f, rest, i)
  {
    var s := n + JOINER + rest;
    if i: nat :| EndsAt(f, s, i) {
      JoinerPosition(f, n, rest, i);
      if i == |n| {
        FoldPrefixBehindJoiner(f, rest);
      } else {
        assert EndsAt(f, rest, i - |n| - 3);
      }
    }
    if SameAscii(f, rest) {
      ShiftTail(n, rest, 0);
      FoldPrefixBehindJoiner(f, rest);
      assert EndsAt(f, s, |n|);
    }
    if i: nat :| EndsAt(f, rest, i) {
      ShiftTail(n, rest, i);
      assert EndsAt(f, s, |n| + 3 + i);
    }
  }

  lemma InsideStep(f: string, n: string, rest: string)
    requires NoAmp(f) && NoAmp(n) && rest != "" && rest[0] != '&'
    ensures (exists i: nat :: InsideAt(f, n + JOINER + rest, i))
      <==> StartsWith(f, rest) || exists i: nat :: InsideAt(f, rest, i)
  {
    var s := n + JOINER + rest;
    var x := f + JOINER;
    assert JOINER + f + JOINER == JOINER + x;
    if i: nat :| InsideAt(f, s, i) {
      JoinerPosition(x, n, rest, i);
      if i == |n| {
        FoldPrefixBehindJoiner(x, rest);
      } else {
        assert InsideAt(f, rest, i - |n| - 3);
      }
    }
    if StartsWith(f, rest) {
      ShiftTail(n, rest, 0);
      FoldPrefixBehindJoiner(x, rest);
      assert InsideAt(f, s, |n|);
    }
    if i: nat :| InsideAt(f, rest, i) {
      ShiftTail(n, rest, i);
      assert InsideAt(f, s, |n| + 3 + i);
    }
  }

  ghost predicate Found(f: string, s: string) {
    StartsWith(f, s) || (exists i: nat :: EndsAt(f, s, i)) || (exists i: nat :: InsideAt(f, s, i))
  }

  lemma NothingInSingle(f: string, n: string)
    requires NoAmp(n)
    ensures !Found(f, n)
  {
    StartsWithNeedsAmp(f, n);
    assert JOINER + f + JOINER == JOINER + (f + JOINER);
    forall i: nat | i <= |n| ensures !EndsAt(f, n, i) && !InsideAt(f, n, i) {
      JoinerNeedsAmp(f, n, i);
      JoinerNeedsAmp(f + JOINER, n, i);
    }
  }

  lemma FoundStep(f: string, n: string, rest: string)
    requires NoAmp(f) && NoAmp(n) && rest != "" && rest[0] != '&'
    ensures Found(f, n + JOINER + rest) <==> SameAscii(f, n) || SameAscii(f, rest) || Found(f, rest)
  {
    StartsWithFirst(f, n, rest);
    EndsStep(f, n, rest);
    InsideStep(f, n, rest);
  }

  lemma SameAsciiNoAmp(f: string, s: string)
    requires NoAmp(f) && SameAscii(f, s)
    ensures NoAmp(s)
  {
  }

  lemma ComponentStep(f: string, names: seq<string>)
    requires names != []
    ensures Component(f, names) <==> SameAscii(f, names[0]) || Component(f, names[1..])
  {
  }

  lemma JoinHasAmp(names: seq<string>)
    requires |names| > 1
    ensures !NoAmp(Join(names, JOINER))
  {
  }

  /** With two names or more, the three patterns find exactly the components. */
  lemma {:induction false} PatternsFindComponents(f: string, names: seq<string>)
    requires NoAmp(f) && GoodNames(names) && |names| > 1
    ensures Found(f, Join(names, JOINER)) <==> Component(f, names)
    decreases |names|
  {
    GoodPart(names, 0);
    GoodNameNoAmp(names[0]);
    assert names[0..] == names;
    var rest := names[1..];
    assert GoodNames(rest) by {
      forall n | n in rest ensures GoodName(n) {
        assert n in names;
      }
    }
    RestHead(rest);
    FoundStep(f, names[0], Join(rest, JOINER));
    ComponentStep(f, names);
    if |rest| == 1 {
      GoodNameNoAmp(rest[0]);
      NothingInSingle(f, rest[0]);
      ComponentStep(f, rest);
    } else {
      PatternsFindComponents(f, rest);
      JoinHasAmp(rest);
      if SameAscii(f, Join(rest, JOINER)) {
        SameAsciiNoAmp(f, Join(rest, JOINER));
      }
    }
  }

  lemma RestHead(names: seq<string>)
    requires names != [] && GoodNames(names)
    ensures Join(names, JOINER) != "" && Join(names, JOINER)[0] != '&'
  {
    GoodHead(names);
    JoinShape(names);
    assert names[0] in names;
    GoodNameNoAmp(names[0]);
    assert Join(names, JOINER)[0] == names[0][0] && names[0][0] in names[0];
  }

  /** The four-way condition matches a stored byline exactly when the name is its only
      component, or one of several ignoring ASCII case, whatever %, _ or backslash it has. */
  lemma ConditionFindsComponents(f: string, names: seq<string>)
    requires NoAmp(f) && GoodNames(names) && names != []
    ensures AuthorCondition(f, Join(names, JOINER)) <==> if |names| == 1 then f == names[0] else Component(f, names)
  {
    var s := Join(names, JOINER);
    StartPattern(f, s);
    EndPattern(f, s);
    InsidePattern(f, s);
    if |names| == 1 {
      assert names[0] in names;
      GoodNameNoAmp(names[0]);
      NothingInSingle(f, names[0]);
    } else {
      PatternsFindComponents(f, names);
      JoinHasAmp(names);
    }
  }
}
