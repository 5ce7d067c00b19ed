/** The browse index of authors, and its agreement with the author filter. */
module AuthorIndex {
  import opened Strings
  import opened AuthorNames
  import opened AuthorRoundTrip
  import opened AuthorFilter
  import opened AuthorComponents

  /** One row of SELECT author, COUNT(*) ... GROUP BY author. */
  datatype Group = Group(byline: string, n: nat)

  function CountIf(bylines: seq<string>, p: string -> bool): nat {
    if bylines == [] then 0 else (if p(bylines[0]) then 1 else 0) + CountIf(bylines[1..], p)
  }

  function SumIf(groups: seq<Group>, p: string -> bool): nat {
    if groups == [] then 0 else (if p(groups[0].byline) then groups[0].n else 0) + SumIf(groups[1..], p)
  }

  /** groups is the answer of the query over these bylines, in any order. */
  ghost predicate GroupsOf(bylines: seq<string>, groups: seq<Group>) {
    && (forall i, j | 0 <= i < j < |groups| :: groups[i].byline != groups[j].byline)
    && (forall b | b in bylines :: exists g :: g in groups && g.byline == b)
    && (forall g | g in groups :: g.n == CountIf(bylines, b => b == g.byline))
  }

  function Without(bylines: seq<string>, raw: string): seq<string> {
    if bylines == [] then []
    else (if bylines[0] == raw then [] else [bylines[0]]) + Without(bylines[1..], raw)
  }

  lemma {:induction false} CountWithout(bylines: seq<string>, raw: string, p: string -> bool)
    ensures CountIf(bylines, p) == CountIf(Without(bylines, raw), p)
      + if p(raw) then CountIf(bylines, b => b == raw) else 0
    ensures forall b :: b in Without(bylines, raw) <==> b in bylines && b != raw
  {
    if bylines != [] {
      CountWithout(bylines[1..], raw, p);
      var rest := Without(bylines[1..], raw);
      if bylines[0] != raw {
        assert ([bylines[0]] + rest)[1..] == rest;
      } else {
        assert [] + rest == rest;
      }
      assert forall b :: b in bylines <==> b == bylines[0] || b in bylines[1..];
    }
  }

  lemma {:induction false} CountNothing(bylines: seq<string>, p: string -> bool)
    requires forall b | b in bylines :: !p(b)
    ensures CountIf(bylines, p) == 0
  {
    if bylines != [] {
      assert bylines[0] in bylines;
      CountNothing(bylines[1..], p);
    }
  }

  lemma {:induction false} CountSplit(bylines: seq<string>, p: string -> bool, q: string -> bool)
    requires forall b | b in bylines :: p(b) ==> q(b)
    ensures CountIf(bylines, p) <= CountIf(bylines, q)
    ensures CountIf(bylines, p) == CountIf(bylines, q) <==> forall b | b in bylines :: q(b) ==> p(b)
  {
    if bylines != [] {
      assert bylines[0] in bylines;
      CountSplit(bylines[1..], p, q);
      assert forall b :: b in bylines <==> b == bylines[0] || b in bylines[1..];
    }
  }

  lemma GroupsOfRest(bylines: seq<string>, groups: seq<Group>)
    requires groups != [] && GroupsOf(bylines, groups)
    ensures GroupsOf(Without(bylines, groups[0].byline), groups[1..])
  {
    var raw := groups[0].byline;
    var rest := Without(bylines, raw);
    CountWithout(bylines, raw, b => true);
    forall b | b in rest ensures exists g :: g in groups[1..] && g.byline == b {
      var g :| g in groups && g.byline == b;
      assert g in groups[1..];
    }
    forall g | g in groups[1..] ensures g.n == CountIf(rest, b => b == g.byline) {
      var i :| 1 <= i < |groups| && groups[i] == g;
      assert groups[0].byline != groups[i].byline;
      assert g in groups;
      CountWithout(bylines, raw, b => b == g.byline);
    }
  }

  /** Adding up group sizes counts books. */
  lemma {:induction false} SumIsCount(bylines: seq<string>, groups: seq<Group>, p: string -> bool)
    requires GroupsOf(bylines, groups)
    ensures SumIf(groups, p) == CountIf(bylines, p)
    decreases |groups|
  {
    if groups == [] {
      CountNothing(bylines, p);
    } else {
      GroupsOfRest(bylines, groups);
      SumIsCount(Without(bylines, groups[0].byline), groups[1..], p);
      CountWithout(bylines, groups[0].byline, p);
      assert groups[0] in groups;
    }
  }

  // ---------------------------------------------------------------------------
  // ListAuthors
  // ---------------------------------------------------------------------------

  ghost predicate HasKey(raw: string, key: string, fold: char -> char) {
    exists n :: n in Clean([raw], fold) && Fold(n, fold) == key
  }

  ghost predicate KeyAmong(names: seq<string>, key: string, fold: char -> char) {
    exists n :: n in names && Fold(n, fold) == key
  }

  function Entry(counts: map<string, nat>, key: string): nat {
    if key in counts then counts[key] else 0
  }

  /** n is the spelling of key in the first group that has it. */
  ghost predicate FirstSeen(groups: seq<Group>, key: string, fold: char -> char, n: string) {
    exists i :: 0 <= i < |groups| && SeenAt(groups, i, key, fold, n)
  }

  ghost predicate SeenAt(groups: seq<Group>, i: nat, key: string, fold: char -> char, n: string)
    requires i < |groups|
  {
    && n in Clean([groups[i].byline], fold) && Fold(n, fold) == key
    && forall j | 0 <= j < i :: !HasKey(groups[j].byline, key, fold)
  }

  lemma {:induction false} SumAppend(groups: seq<Group>, g: Group, p: string -> bool)
    ensures SumIf(groups + [g], p) == SumIf(groups, p) + if p(g.byline) then g.n else 0
  {
    if groups == [] {
      assert groups + [g] == [g] && [g][1..] == [];
    } else {
      assert (groups + [g])[1..] == groups[1..] + [g];
      SumAppend(groups[1..], g, p);
    }
  }

  /** The inner loop: adds n under the key of each name, keeping the first spelling. */
  method CountNames(counts0: map<string, nat>, display0: map<string, string>, names: seq<string>, n: nat,
                    fold: char -> char)
    returns (counts: map<string, nat>, display: map<string, string>)
    requires DistinctNames(names, fold) && display0.Keys == counts0.Keys
    ensures display.Keys == counts.Keys
    ensures forall key :: key in counts <==> key in counts0 || KeyAmong(names, key, fold)
    ensures forall key :: Entry(counts, key) == Entry(counts0, key) + if KeyAmong(names, key, fold) then n else 0
    ensures forall key | key in counts0 :: display[key] == display0[key]
    ensures forall key | key in counts && key !in counts0 :: display[key] in names && Fold(display[key], fold) == key
  {
    counts, display := counts0, display0;
    var i := 0;
    while i < |names|
      invariant 0 <= i <= |names| && display.Keys == counts.Keys
      invariant forall key :: key in counts <==> key in counts0 || KeyAmong(names[..i], key, fold)
      invariant forall key ::
        Entry(counts, key) == Entry(counts0, key) + if KeyAmong(names[..i], key, fold) then n else 0
      invariant forall key | key in counts0 :: display[key] == display0[key]
      invariant forall key | key in counts && key !in counts0 ::
        display[key] in names && Fold(display[key], fold) == key
    {
      var key := Fold(names[i], fold);
      KeyIsNew(names, i, fold);
      counts := counts[key := Entry(counts, key) + n];
      if key !in display {
        display := display[key := names[i]];
      }
      i := i + 1;
    }
    assert names[..|names|] == names;
  }

  lemma KeyIsNew(names: seq<string>, i: nat, fold: char -> char)
    requires DistinctNames(names, fold) && i < |names|
    ensures !KeyAmong(names[..i], Fold(names[i], fold), fold)
    ensures forall key ::
      KeyAmong(names[..i + 1], key, fold) <==> KeyAmong(names[..i], key, fold) || key == Fold(names[i], fold)
  {
  }

  ghost predicate SomeHasKey(groups: seq<Group>, key: string, fold: char -> char) {
    exists g :: g in groups && HasKey(g.byline, key, fold)
  }

  ghost function Total(groups: seq<Group>, key: string, fold: char -> char): nat {
    SumIf(groups, raw => HasKey(raw, key, fold))
  }

  /** What the counts say after some groups. */
  ghost predicate Tallied(counts: map<string, nat>, groups: seq<Group>, fold: char -> char) {
    && (forall key :: key in counts <==> SomeHasKey(groups, key, fold))
    && (forall key :: Entry(counts, key) == Total(groups, key, fold))
  }

  ghost predicate Displayed(display: map<string, string>, groups: seq<Group>, fold: char -> char) {
    forall key | key in display :: FirstSeen(groups, key, fold, display[key])
  }

  lemma OneMoreGroup(groups: seq<Group>, g: Group, key: string, fold: char -> char)
    ensures SomeHasKey(groups + [g], key, fold) <==> SomeHasKey(groups, key, fold) || HasKey(g.byline, key, fold)
    ensures Total(groups + [g], key, fold) == Total(groups, key, fold) + if HasKey(g.byline, key, fold) then g.n else 0
  {
    assert forall x :: x in groups + [g] <==> x in groups || x == g;
    SumAppend(groups, g, raw => HasKey(raw, key, fold));
  }

  lemma TallyStep(counts: map<string, nat>, groups: seq<Group>, g: Group, fold: char -> char, next: map<string, nat>)
    requires Tallied(counts, groups, fold)
    requires forall key :: key in next <==> key in counts || HasKey(g.byline, key, fold)
    requires forall key :: Entry(next, key) == Entry(counts, key) + if HasKey(g.byline, key, fold) then g.n else 0
    ensures Tallied(next, groups + [g], fold)
  {
    forall key
      ensures key in next <==> SomeHasKey(groups + [g], key, fold)
      ensures Entry(next, key) == Total(groups + [g], key, fold)
    {
      OneMoreGroup(groups, g, key, fold);
    }
  }

  lemma DisplayStep(display: map<string, string>, groups: seq<Group>, g: Group,
                    fold: char -> char, next: map<string, string>)
    requires Displayed(display, groups, fold)
    requires forall key :: key in display <==> SomeHasKey(groups, key, fold)
    requires forall key | key in display :: key in next && next[key] == display[key]
    requires forall key | key in next && key !in display ::
      next[key] in Clean([g.byline], fold) && Fold(next[key], fold) == key
    ensures Displayed(next, groups + [g], fold)
  {
    var all := groups + [g];
    forall key | key in next ensures FirstSeen(all, key, fold, next[key]) {
      if key in display {
        var i :| 0 <= i < |groups| && SeenAt(groups, i, key, fold, display[key]);
        assert SeenAt(all, i, key, fold, next[key]);
      } else {
        assert forall j | 0 <= j < |groups| :: groups[j] in groups;
        assert SeenAt(all, |groups|, key, fold, next[key]);
      }
    }
  }

  /** The outer loop's body. */
  method TallyGroup(counts0: map<string, nat>, display0: map<string, string>, ghost done: seq<Group>, g: Group,
                    fold: char -> char)
    returns (counts: map<string, nat>, display: map<string, string>)
    requires display0.Keys == counts0.Keys && Tallied(counts0, done, fold) && Displayed(display0, done, fold)
    ensures display.Keys == counts.Keys && Tallied(counts, done + [g], fold) && Displayed(display, done + [g], fold)
  {
    var names := CleanAuthorNames([g.byline], fold);
    CleanIsClean([g.byline], fold);
    counts, display := CountNames(counts0, display0, names, g.n, fold);
    assert forall key :: KeyAmong(names, key, fold) <==> HasKey(g.byline, key, fold);
    TallyStep(counts0, done, g, fold, counts);
    DisplayStep(display0, done, g, fold, display);
  }

  method ListAuthors(groups: seq<Group>, fold: char -> char)
    returns (counts: map<string, nat>, display: map<string, string>)
    ensures Tallied(counts, groups, fold)
    ensures display.Keys == counts.Keys && Displayed(display, groups, fold)
  {
    counts, display := map[], map[];
    var i := 0;
    ghost var done: seq<Group> := [];
    while i < |groups|
      invariant 0 <= i <= |groups| && done == groups[..i] && display.Keys == counts.Keys
      invariant Tallied(counts, done, fold) && Displayed(display, done, fold)
    {
      counts, display := TallyGroup(counts, display, done, groups[i], fold);
      done := done + [groups[i]];
      i := i + 1;
    }
    assert done == groups;
  }

  // ---------------------------------------------------------------------------
  // Agreement with the filter
  // ---------------------------------------------------------------------------

  /** byline is a joined list of cleaned names, as a scan stores it. */
  ghost predicate Stored(byline: string, names: seq<string>, fold: char -> char) {
    names != [] && CleanNames(names, fold) && byline == Join(names, JOINER)
  }

  ghost predicate AllStored(bylines: seq<string>, fold: char -> char) {
    forall b | b in bylines :: exists names :: Stored(b, names, fold)
  }

  /** Unicode lowercasing identifies at least what ASCII lowercasing does. */
  ghost predicate CoversAscii(fold: char -> char) {
    forall c, d | AsciiLower(c) == AsciiLower(d) :: fold(c) == fold(d)
  }

  /** Where the spelling of a component decides whether the filter finds it. */
  ghost predicate SpelledFor(f: string, names: seq<string>, fold: char -> char) {
    forall n | n in names && Fold(n, fold) == Fold(f, fold) :: if |names| == 1 then n == f else SameAscii(f, n)
  }

  lemma ComponentHasKey(f: string, names: seq<string>, fold: char -> char)
    requires CoversAscii(fold) && (f in names || Component(f, names))
    ensures KeyAmong(names, Fold(f, fold), fold)
  {
  }

  lemma SpellingDecides(f: string, names: seq<string>, fold: char -> char)
    requires CoversAscii(fold) && DistinctNames(names, fold)
    ensures (KeyAmong(names, Fold(f, fold), fold) ==> Component(f, names))
      <==> forall n | n in names && Fold(n, fold) == Fold(f, fold) :: SameAscii(f, n)
  {
  }

  lemma SingleSpelling(f: string, names: seq<string>, fold: char -> char)
    requires |names| == 1
    ensures (KeyAmong(names, Fold(f, fold), fold) ==> f == names[0]) <==> SpelledFor(f, names, fold)
  {
  }

  lemma RowAgreement(f: string, byline: string, names: seq<string>, fold: char -> char)
    requires CoversAscii(fold) && NoAmp(f) && Stored(byline, names, fold)
    ensures AuthorCondition(f, byline) ==> HasKey(byline, Fold(f, fold), fold)
    ensures (HasKey(byline, Fold(f, fold), fold) ==> AuthorCondition(f, byline)) <==> SpelledFor(f, names, fold)
  {
    CleanOfByline(names, fold);
    ConditionFindsComponents(f, names);
    assert HasKey(byline, Fold(f, fold), fold) <==> KeyAmong(names, Fold(f, fold), fold);
    if AuthorCondition(f, byline) {
      ComponentHasKey(f, names, fold);
    }
    if |names| == 1 {
      SingleSpelling(f, names, fold);
    } else {
      SpellingDecides(f, names, fold);
    }
  }

  /** Books without an author, which the browse query leaves out, are found by no name. */
  lemma BlankBylineIsNotFound(f: string)
    requires f != ""
    ensures !AuthorCondition(f, "")
  {
    StartPattern(f, "");
    EndPattern(f, "");
    InsidePattern(f, "");
  }

  /** The count shown for a name equals the number of books its filter link finds, exactly
      when no stored byline spells that name with a difference the filter does not ignore:
      any difference in case when it stands alone, one beyond ASCII otherwise. */
  lemma BrowseAgreesIff(bylines: seq<string>, groups: seq<Group>, fold: char -> char, f: string)
    requires CoversAscii(fold) && NoAmp(f) && AllStored(bylines, fold) && GroupsOf(bylines, groups)
    ensures Total(groups, Fold(f, fold), fold) == CountIf(bylines, b => AuthorCondition(f, b))
      <==> forall b, names | b in bylines && Stored(b, names, fold) :: SpelledFor(f, names, fold)
  {
    var p := (b: string) => AuthorCondition(f, b);
    var q := (raw: string) => HasKey(raw, Fold(f, fold), fold);
    SumIsCount(bylines, groups, q);
    forall b, names | b in bylines && Stored(b, names, fold)
      ensures p(b) ==> q(b)
      ensures (q(b) ==> p(b)) <==> SpelledFor(f, names, fold)
    {
      RowAgreement(f, b, names, fold);
    }
    CountSplit(bylines, p, q);
  }

  /** When no two stored names differ only by case, every count agrees with its filter. */
  lemma BrowseAgrees(bylines: seq<string>, groups: seq<Group>, fold: char -> char, f: string)
    requires CoversAscii(fold) && NoAmp(f) && AllStored(bylines, fold) && GroupsOf(bylines, groups)
    requires forall b, names, n ::
      b in bylines && Stored(b, names, fold) && n in names && Fold(n, fold) == Fold(f, fold) ==> n == f
    ensures Total(groups, Fold(f, fold), fold) == CountIf(bylines, b => AuthorCondition(f, b))
  {
    BrowseAgreesIff(bylines, groups, fold, f);
  }
}
