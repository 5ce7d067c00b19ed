/** What the enrichment layer promises its readers: writes show up as merges, repeating a
    write changes nothing, and what was written outlives every rescan. */
module EnrichmentLaws {
  import opened Wrappers
  import opened Strings
  import opened Enrichment

  // ---------------------------------------------------------------------------
  // Genres pass through a comma-separated column
  // ---------------------------------------------------------------------------

  predicate NoComma(s: string) {
    forall i | 0 <= i < |s| :: s[i] != ','
  }

  /** Lists that a comma-separated column can hold. */
  predicate CsvSafe(items: seq<string>) {
    items != [""] && forall x | x in items :: NoComma(x)
  }

  lemma {:induction false} CommaAtEnd(a: string, b: string)
    requires NoComma(a)
    ensures CommaAt(a) == |a|
    ensures CommaAt(a + "," + b) == |a|
  {
    var s := a + "," + b;
    assert s[|a|] == ',';
    assert forall i | 0 <= i < |a| :: s[i] == a[i];
    assert CommaAt(s) < |s| ==> s[CommaAt(s)] == ',';
  }

  lemma {:induction false} SplitParts(s: string)
    ensures Split(s) != []
    ensures forall x | x in Split(s) :: NoComma(x)
    ensures Split(s) == [""] ==> s == ""
    decreases |s|
  {
    var n := CommaAt(s);
    if n < |s| {
      SplitParts(s[n + 1..]);
    }
  }

  lemma {:induction false} SplitJoined(items: seq<string>)
    requires items != [] && forall x | x in items :: NoComma(x)
    ensures Split(JoinCsv(items)) == items
    decreases |items|
  {
    assert items[0] in items;
    if |items| == 1 {
      CommaAtEnd(items[0], "");
    } else {
      var rest := JoinCsv(items[1..]);
      CommaAtEnd(items[0], rest);
      SplitJoined(items[1..]);
      var s := items[0] + "," + rest;
      assert s[..|items[0]|] == items[0] && s[|items[0]| + 1..] == rest;
      assert [items[0]] + items[1..] == items;
    }
  }

  lemma {:induction false} JoinSplit(s: string)
    ensures JoinCsv(Split(s)) == s
    decreases |s|
  {
    var n := CommaAt(s);
    if n < |s| {
      JoinSplit(s[n + 1..]);
      SplitParts(s[n + 1..]);
      assert Split(s)[1..] == Split(s[n + 1..]);
      assert s == s[..n] + "," + s[n + 1..];
    }
  }

  lemma EmptyJoin(items: seq<string>)
    requires JoinCsv(items) == ""
    ensures items == [] || items == [""]
  {
  }

  /** Stored text survives being read as a list and written back. */
  lemma StoredGenresAreStable(s: string)
    ensures JoinCsv(SplitCsv(s)) == s
    ensures CsvSafe(SplitCsv(s))
  {
    if s != "" {
      JoinSplit(s);
      SplitParts(s);
    }
  }

  /** A list reads back as written exactly when the column can hold it. */
  lemma GenresRoundTripIff(items: seq<string>)
    ensures SplitCsv(JoinCsv(items)) == items <==> CsvSafe(items)
  {
    StoredGenresAreStable(JoinCsv(items));
    if CsvSafe(items) {
      if JoinCsv(items) == "" {
        EmptyJoin(items);
      } else {
        SplitJoined(items);
      }
    }
  }

  // ---------------------------------------------------------------------------
  // One write
  // ---------------------------------------------------------------------------

  /** No text column holds an empty string in place of NULL. */
  predicate Tidy(e: Option<Layer>) {
    e.Some? ==>
      && e.value.title != Some("") && e.value.series != Some("") && e.value.publishedDate != Some("")
      && e.value.description != Some("") && e.value.publisher != Some("") && e.value.genres != Some("")
  }

  function ThroughCsv(p: Patch): Patch {
    p.(genres := SplitCsv(JoinCsv(p.genres)))
  }

  /** Every text of p is a text in q. */
  predicate NeverBlanks(p: Patch, q: Patch) {
    && (q.title == "" ==> p.title == "") && (q.series == "" ==> p.series == "")
    && (q.publishedDate == "" ==> p.publishedDate == "") && (q.description == "" ==> p.description == "")
    && (q.publisher == "" ==> p.publisher == "")
  }

  lemma WrittenShows(b: Epub, e: Option<Layer>, f: Patch, status: string, source: string)
    requires NeverBlanks(Shown(b, None), f)
    ensures Shown(b, Some(Written(e, f, status, source))) == ThroughCsv(f)
  {
  }

  lemma ShownCovers(b: Epub, e: Option<Layer>)
    requires Tidy(e)
    ensures NeverBlanks(Shown(b, None), Shown(b, e))
  {
  }

  /** No merge blanks a text that was shown. */
  lemma MergesNeverBlank(cur: Patch, patch: Patch, fold: char -> char)
    ensures NeverBlanks(cur, MergeProvider(cur, patch, fold))
    ensures NeverBlanks(cur, MergeManual(cur, patch))
  {
  }

  lemma ShownGenresAreSafe(b: Epub, e: Option<Layer>)
    ensures CsvSafe(Shown(b, e).genres)
  {
    if e.Some? {
      StoredGenresAreStable(Text(e.value.genres));
    }
  }

  /** A provider's match shows as the merge with what was shown before; genres exactly so
      when the column can hold the ones it brings. */
  lemma ApplyShowsMerge(b: Epub, e: Option<Layer>, patch: Patch, source: Source, fold: char -> char)
    requires Tidy(e)
    ensures var merged := MergeProvider(Shown(b, e), patch, fold);
            var shown := Shown(b, Some(AppliedLayer(b, e, patch, source, fold)));
            && shown == ThroughCsv(merged)
            && (shown == merged <==> CsvSafe(patch.genres))
  {
    var merged := MergeProvider(Shown(b, e), patch, fold);
    ShownCovers(b, e);
    MergesNeverBlank(Shown(b, e), patch, fold);
    WrittenShows(b, e, merged, "done", SourceName(source));
    ShownGenresAreSafe(b, e);
    GenresRoundTripIff(merged.genres);
  }

  lemma SaveShowsMerge(b: Epub, e: Option<Layer>, patch: Patch)
    requires Tidy(e)
    ensures var merged := MergeManual(Shown(b, e), patch);
            var shown := Shown(b, Some(SavedLayer(b, e, patch)));
            && shown == ThroughCsv(merged)
            && (shown == merged <==> CsvSafe(patch.genres))
  {
    var merged := MergeManual(Shown(b, e), patch);
    ShownCovers(b, e);
    MergesNeverBlank(Shown(b, e), patch, c => c);
    WrittenShows(b, e, merged, "done", SourceName(Manual));
    ShownGenresAreSafe(b, e);
    GenresRoundTripIff(merged.genres);
  }

  // ---------------------------------------------------------------------------
  // Repeating a write
  // ---------------------------------------------------------------------------

  lemma MergeProviderAgain(cur: Patch, patch: Patch, fold: char -> char)
    ensures var once := MergeProvider(cur, patch, fold);
            MergeProvider(ThroughCsv(once), patch, fold)
              == once.(genres := if |patch.genres| > 0 then patch.genres else ThroughCsv(once).genres)
  {
  }

  lemma MergeManualAgain(cur: Patch, patch: Patch)
    ensures var once := MergeManual(cur, patch);
            MergeManual(ThroughCsv(once), patch)
              == once.(genres := if |patch.genres| > 0 then patch.genres else ThroughCsv(once).genres)
  {
  }

  /** The queue may apply the same match again: the row, whatever its genres, stays as it is. */
  lemma ApplyTwiceIsOnce(b: Epub, e: Option<Layer>, patch: Patch, source: Source, fold: char -> char)
    requires Tidy(e)
    ensures var once := AppliedLayer(b, e, patch, source, fold);
            AppliedLayer(b, Some(once), patch, source, fold) == once
  {
    var cur := Shown(b, e);
    ApplyShowsMerge(b, e, patch, source, fold);
    MergeProviderAgain(cur, patch, fold);
    StoredGenresAreStable(JoinCsv(MergeProvider(cur, patch, fold).genres));
  }

  lemma SaveTwiceIsOnce(b: Epub, e: Option<Layer>, patch: Patch)
    requires Tidy(e)
    ensures var once := SavedLayer(b, e, patch);
            SavedLayer(b, Some(once), patch) == once
  {
    var cur := Shown(b, e);
    SaveShowsMerge(b, e, patch);
    MergeManualAgain(cur, patch);
    StoredGenresAreStable(JoinCsv(MergeManual(cur, patch).genres));
  }

  // ---------------------------------------------------------------------------
  // The algebra of patches
  // ---------------------------------------------------------------------------

  const NO_PATCH := Patch("", "", 0.0, "", "", [], "", 0, "", 0.0)

  /** A patch without a series carries no index either. */
  predicate Paired(p: Patch) {
    p.series == "" ==> p.seriesIndex == 0.0
  }

  lemma BlankIsPlaceholder(title: string, fold: char -> char)
    ensures IsPlaceholder("", title, fold)
  {
    assert TrimSpace("") == "";
  }

  /** An empty patch changes nothing. */
  lemma EmptyPatchIsNeutral(p: Patch, fold: char -> char)
    ensures MergeManual(p, NO_PATCH) == p && MergeProvider(p, NO_PATCH, fold) == p
  {
    assert MergeProvider(p, NO_PATCH, fold).(description := "") == p.(description := "");
  }

  /** A provider is trusted as much as an administrator, except with a series that differs
      only by case, a date that is known already, and a description of some substance. */
  lemma ProviderDiffersFromManualIff(cur: Patch, patch: Patch, fold: char -> char)
    ensures var m := MergeManual(cur, patch);
            MergeProvider(cur, patch, fold) == m <==>
              && (patch.series != "" && cur.series != "" && EqualFold(cur.series, patch.series, fold) ==>
                    (cur.series, cur.seriesIndex) == (patch.series, patch.seriesIndex))
              && (patch.publishedDate != "" && cur.publishedDate != "" ==> cur.publishedDate == patch.publishedDate)
              && (patch.description != "" && !IsPlaceholder(cur.description, m.title, fold) ==>
                    cur.description == patch.description)
  {
  }

  lemma ManualOverNothing(p: Patch)
    ensures Paired(p) <==> MergeManual(NO_PATCH, p) == p
  {
  }

  lemma ProviderOverBlanks(cur: Patch, p: Patch, fold: char -> char)
    requires cur.series == "" && cur.publishedDate == "" && cur.description == ""
    ensures MergeProvider(cur, p, fold) == MergeManual(cur, p)
  {
    BlankIsPlaceholder(MergeManual(cur, p).title, fold);
    ProviderDiffersFromManualIff(cur, p, fold);
  }

  /** A patch over nothing shows as it is, so every field of a merge comes from the same
      field of the patch; only an index without a series is dropped. */
  lemma PatchOverNothingIff(p: Patch, fold: char -> char)
    ensures Paired(p) <==> MergeManual(NO_PATCH, p) == p
    ensures MergeProvider(NO_PATCH, p, fold) == MergeManual(NO_PATCH, p)
  {
    ManualOverNothing(p);
    ProviderOverBlanks(NO_PATCH, p, fold);
  }

  lemma ManualMergesCompose(cur: Patch, p: Patch, q: Patch)
    ensures MergeManual(MergeManual(cur, p), q) == MergeManual(cur, MergeManual(p, q))
  {
  }

  /** Two saves, one after the other, leave the row that one save of both forms, the later
      over the earlier, leaves. */
  lemma SavesCompose(b: Epub, e: Option<Layer>, p: Patch, q: Patch)
    requires Tidy(e)
    ensures SavedLayer(b, Some(SavedLayer(b, e, p)), q) == SavedLayer(b, e, MergeManual(p, q))
  {
    var cur := Shown(b, e);
    SaveShowsMerge(b, e, p);
    ManualMergesCompose(cur, p, q);
    var once := MergeManual(cur, p);
    StoredGenresAreStable(JoinCsv(once.genres));
    assert JoinCsv(MergeManual(ThroughCsv(once), q).genres) == JoinCsv(MergeManual(once, q).genres);
    assert MergeManual(ThroughCsv(once), q).(genres := []) == MergeManual(once, q).(genres := []);
  }

  // ---------------------------------------------------------------------------
  // Runs
  // ---------------------------------------------------------------------------

  function Run(s: State, evs: seq<Event>, fold: char -> char): State
    decreases |evs|
  {
    if evs == [] then s else Run(After(s, evs[0], fold), evs[1..], fold)
  }

  ghost predicate AllTidy(s: State) {
    forall id | id in s.layers :: Tidy(Some(s.layers[id]))
  }

  lemma WritesAreTidy(b: Epub, e: Option<Layer>, patch: Patch, source: Source, fold: char -> char)
    ensures Tidy(Some(AppliedLayer(b, e, patch, source, fold)))
    ensures Tidy(Some(SavedLayer(b, e, patch)))
  {
  }

  lemma LayerStaysTidy(s: State, id: int, l: Layer)
    requires AllTidy(s) && Tidy(Some(l))
    ensures AllTidy(s.(layers := s.layers[id := l]))
  {
  }

  lemma ApplyStaysTidy(s: State, id: int, patch: Patch, source: Source, fold: char -> char)
    requires AllTidy(s)
    ensures AllTidy(After(s, Apply(id, patch, source), fold))
  {
    if id in s.books {
      WritesAreTidy(s.books[id].epub, LayerOf(s, id), patch, source, fold);
      LayerStaysTidy(s, id, AppliedLayer(s.books[id].epub, LayerOf(s, id), patch, source, fold));
    }
  }

  lemma SaveStaysTidy(s: State, id: int, patch: Patch, fold: char -> char)
    requires AllTidy(s)
    ensures AllTidy(After(s, Save(id, patch), fold))
  {
    if id in s.books {
      WritesAreTidy(s.books[id].epub, LayerOf(s, id), patch, Manual, fold);
      LayerStaysTidy(s, id, SavedLayer(s.books[id].epub, LayerOf(s, id), patch));
    }
  }

  lemma StatusStaysTidy(s: State, id: int, column: Column, status: string, fold: char -> char)
    requires AllTidy(s)
    ensures AllTidy(After(s, SetStatus(id, column, status), fold))
  {
    var l := if id in s.layers then s.layers[id] else BLANK;
    assert Tidy(Some(l));
    LayerStaysTidy(s, id, WithStatus(l, column, status));
  }

  lemma StepStaysTidy(s: State, ev: Event, fold: char -> char)
    requires AllTidy(s)
    ensures AllTidy(After(s, ev, fold))
  {
    match ev
    case Apply(id, patch, source) => ApplyStaysTidy(s, id, patch, source, fold);
    case Save(id, patch) => SaveStaysTidy(s, id, patch, fold);
    case SetStatus(id, column, status) => StatusStaysTidy(s, id, column, status, fold);
    case Rescan(_, _) =>
    case Remove(_) =>
  }

  /** The laws above that ask for tidy layers hold in every state that the calls reach. */
  lemma {:induction false} RunStaysTidy(s: State, evs: seq<Event>, fold: char -> char)
    requires AllTidy(s)
    ensures AllTidy(Run(s, evs, fold))
    decreases |evs|
  {
    if evs != [] {
      StepStaysTidy(s, evs[0], fold);
      RunStaysTidy(After(s, evs[0], fold), evs[1..], fold);
    }
  }

  predicate Pinned(v: Option<string>) {
    v.Some? && v.value != ""
  }

  /** Every column that l covers with a text, m covers too. */
  predicate PinsAll(l: Layer, m: Layer) {
    && (Pinned(l.title) ==> Pinned(m.title)) && (Pinned(l.series) ==> Pinned(m.series))
    && (Pinned(l.publishedDate) ==> Pinned(m.publishedDate)) && (Pinned(l.description) ==> Pinned(m.description))
    && (Pinned(l.publisher) ==> Pinned(m.publisher)) && (l.seriesIndex.Some? ==> m.seriesIndex.Some?)
  }

  predicate WritesTo(ev: Event, id: int) {
    (ev.Apply? || ev.Save?) && ev.id == id
  }

  /** Two layers that show alike, whatever their statuses. */
  predicate SameMetadata(l: Layer, m: Layer) {
    l.(status := m.status, chaptarrStatus := m.chaptarrStatus, hardcoverStatus := m.hardcoverStatus) == m
  }

  function MergedBy(s: State, ev: Event, fold: char -> char): Patch
    requires (ev.Apply? || ev.Save?) && ev.id in s.books
  {
    var cur := Shown(s.books[ev.id].epub, LayerOf(s, ev.id));
    if ev.Apply? then MergeProvider(cur, ev.patch, fold) else MergeManual(cur, ev.patch)
  }

  lemma WriteStores(s: State, ev: Event, fold: char -> char) returns (e: Option<Layer>, status: string, source: string)
    requires (ev.Apply? || ev.Save?) && ev.id in s.books
    ensures ev.id in After(s, ev, fold).layers
    ensures SameMetadata(Written(e, MergedBy(s, ev, fold), status, source), After(s, ev, fold).layers[ev.id])
  {
    e, status := LayerOf(s, ev.id), "done";
    source := if ev.Apply? then SourceName(ev.source) else SourceName(Manual);
  }

  lemma WrittenPins(b: Epub, l: Layer, f: Patch)
    requires NeverBlanks(Shown(b, Some(l)), f)
    ensures forall e, status, source, m | SameMetadata(Written(e, f, status, source), m) :: PinsAll(l, m)
  {
  }

  lemma StepKeepsPins(s: State, ev: Event, fold: char -> char, id: int)
    requires id in s.layers
    ensures id in After(s, ev, fold).layers
    ensures PinsAll(s.layers[id], After(s, ev, fold).layers[id])
  {
    if WritesTo(ev, id) && id in s.books {
      MergesNeverBlank(Shown(s.books[id].epub, LayerOf(s, id)), ev.patch, fold);
      WrittenPins(s.books[id].epub, s.layers[id], MergedBy(s, ev, fold));
      var e, status, source := WriteStores(s, ev, fold);
    } else {
      assert SameMetadata(s.layers[id], After(s, ev, fold).layers[id]);
    }
  }

  lemma PinsCompose(a: Layer, b: Layer, c: Layer)
    requires PinsAll(a, b) && PinsAll(b, c)
    ensures PinsAll(a, c)
  {
  }

  /** What is shown of the texts that l pins is not blank and not the EPUB's to decide. */
  predicate HidesEpub(l: Layer, shown: Patch, elsewhere: Patch) {
    && (Pinned(l.title) ==> shown.title == elsewhere.title != "")
    && (Pinned(l.series) ==> shown.series == elsewhere.series != "")
    && (Pinned(l.publishedDate) ==> shown.publishedDate == elsewhere.publishedDate != "")
    && (Pinned(l.description) ==> shown.description == elsewhere.description != "")
    && (Pinned(l.publisher) ==> shown.publisher == elsewhere.publisher != "")
    && (l.seriesIndex.Some? ==> shown.seriesIndex == elsewhere.seriesIndex)
  }

  lemma PinnedHidesEpub(l: Layer, m: Layer, a: Epub, b: Epub)
    requires PinsAll(l, m)
    ensures HidesEpub(l, Shown(a, Some(m)), Shown(b, Some(m)))
  {
  }

  lemma {:induction false} PinnedForGood(s: State, evs: seq<Event>, fold: char -> char, id: int)
    requires id in s.layers
    ensures id in Run(s, evs, fold).layers
    ensures PinsAll(s.layers[id], Run(s, evs, fold).layers[id])
    decreases |evs|
  {
    if evs != [] {
      var t := After(s, evs[0], fold);
      StepKeepsPins(s, evs[0], fold, id);
      PinnedForGood(t, evs[1..], fold, id);
      PinsCompose(s.layers[id], t.layers[id], Run(t, evs[1..], fold).layers[id]);
    }
  }

  /** Once a text of a book is covered it stays covered, through any writes and rescans:
      whatever EPUB a rescan reads, it can neither change nor blank what is shown. */
  lemma PinnedTextsStayShown(s: State, evs: seq<Event>, fold: char -> char, id: int, a: Epub, b: Epub)
    requires id in s.layers
    ensures var t := Run(s, evs, fold);
            HidesEpub(s.layers[id], Shown(a, LayerOf(t, id)), Shown(b, LayerOf(t, id)))
  {
    PinnedForGood(s, evs, fold, id);
    PinnedHidesEpub(s.layers[id], Run(s, evs, fold).layers[id], a, b);
  }

  lemma {:induction false} UnwrittenStays(s: State, evs: seq<Event>, fold: char -> char, id: int)
    requires id in s.layers
    requires forall ev | ev in evs :: !WritesTo(ev, id)
    ensures id in Run(s, evs, fold).layers
    ensures SameMetadata(s.layers[id], Run(s, evs, fold).layers[id])
    decreases |evs|
  {
    if evs != [] {
      assert !WritesTo(evs[0], id);
      UnwrittenStays(After(s, evs[0], fold), evs[1..], fold, id);
    }
  }

  function Over(written: string, epub: Option<string>): string {
    if written != "" then written else Text(epub)
  }

  /** What a write leaves to be shown over whatever a rescan reads from the EPUB. */
  function Overlay(f: Patch, b: Epub): Patch {
    f.(title := Over(f.title, Some(b.title)), series := Over(f.series, b.series),
       publishedDate := Over(f.publishedDate, b.publishedDate), description := Over(f.description, b.description),
       publisher := Over(f.publisher, b.publisher), genres := SplitCsv(JoinCsv(f.genres)))
  }

  lemma OverlayShows(b: Epub, e: Option<Layer>, f: Patch, status: string, source: string, m: Layer)
    requires SameMetadata(Written(e, f, status, source), m)
    ensures Shown(b, Some(m)) == Overlay(f, b)
  {
  }

  /** After a write, any further run that does not write to the book again - rescans of
      changed EPUBs, status updates, writes to other books - still shows the values
      merged at that write, except for texts that were blank then. */
  lemma WriteSurvivesRescans(s: State, ev: Event, evs: seq<Event>, fold: char -> char)
    requires (ev.Apply? || ev.Save?) && ev.id in s.books
    requires forall later | later in evs :: !WritesTo(later, ev.id)
    ensures var t := Run(After(s, ev, fold), evs, fold);
            ev.id in t.books ==>
              Shown(t.books[ev.id].epub, LayerOf(t, ev.id)) == Overlay(MergedBy(s, ev, fold), t.books[ev.id].epub)
  {
    var u := After(s, ev, fold);
    var e, status, source := WriteStores(s, ev, fold);
    UnwrittenStays(u, evs, fold, ev.id);
    var t := Run(u, evs, fold);
    if ev.id in t.books {
      OverlayShows(t.books[ev.id].epub, e, MergedBy(s, ev, fold), status, source, t.layers[ev.id]);
    }
  }

  /** Series and index are shown as a pair that someone wrote, except that an EPUB which
      gains a series later is shown with the index stored when the book had none. */
  lemma SeriesPairIsMixedIff(f: Patch, b: Epub)
    ensures var shown := Overlay(f, b);
            var mixed := && (shown.series, shown.seriesIndex) != (f.series, f.seriesIndex)
                         && (shown.series, shown.seriesIndex) != (Text(b.series), Number(b.seriesIndex));
            mixed <==> f.series == "" && Text(b.series) != "" && Number(b.seriesIndex) != f.seriesIndex
  {
  }

  /** A match without a series, then a rescan of an EPUB that is now third in one. */
  lemma NewSeriesShowsIndexZero()
    ensures var none := Epub("T", None, None, None, None, None);
            var s := State(map[1 := Book(none, "T.epub", 0, true)], map[]);
            var evs := [Apply(1, Patch("T", "", 0.0, "", "", [], "", 100, "", 0.0), Hardcover),
                        Rescan(1, none.(series := Some("S"), seriesIndex := Some(3.0)))];
            var t := Run(s, evs, c => c);
            && 1 in t.books
            && t.books[1].epub.seriesIndex == Some(3.0)
            && Shown(t.books[1].epub, LayerOf(t, 1)).series == "S"
            && Shown(t.books[1].epub, LayerOf(t, 1)).seriesIndex == 0.0
  {
    var none := Epub("T", None, None, None, None, None);
    var s := State(map[1 := Book(none, "T.epub", 0, true)], map[]);
    var apply := Apply(1, Patch("T", "", 0.0, "", "", [], "", 100, "", 0.0), Hardcover);
    var rescan := Rescan(1, none.(series := Some("S"), seriesIndex := Some(3.0)));
    assert [apply, rescan][1..] == [rescan] && [rescan][1..] == [];
    var u := After(s, apply, c => c);
    assert Run(u, [rescan], c => c) == Run(After(u, rescan, c => c), [], c => c);
    WriteSurvivesRescans(s, apply, [rescan], c => c);
  }
}
