/** What a pass of the enrichment queue leaves on record, which books it takes up at all,
    and what readers see of a merge, column by column. */
module EnrichmentOutcomes {
  import opened Wrappers
  import opened Strings
  import opened Enrichment
  import opened EnrichmentLaws
  import opened EnrichmentQueue
  import opened EnrichmentProgress

  // ---------------------------------------------------------------------------
  // Statuses
  // ---------------------------------------------------------------------------

  /** The book is older, to the second, than the Chaptarr snapshot, or Chaptarr is off. */
  predicate MayProceed(c: Candidate, w: World) {
    w.chaptarr && w.refreshedAt.Some? ==> c.addedAt < w.refreshedAt.value / 1_000_000_000
  }

  /** Chaptarr's snapshot holds the book's path. */
  predicate ChaptarrHas(c: Candidate, w: World) {
    MayProceed(c, w) && w.chaptarr && w.haveBooks && w.matchByPath(c.filePath).Some?
  }

  /** Hardcover is asked about the book: it is on, and Chaptarr has nothing to say. */
  predicate HardcoverAsked(c: Candidate, w: World) {
    MayProceed(c, w) && w.hardcover && !(w.chaptarr && w.haveBooks && w.matchByPath(c.filePath).Some?)
  }

  /** The queue asks Hardcover about exactly these, and counts exactly these and Chaptarr's
      own as processed. */
  lemma AskedIff(c: Candidate, w: World)
    ensures Yielded(c, w) <==> HardcoverAsked(c, w)
    ensures Works(c, w) <==> HardcoverAsked(c, w) || ChaptarrHas(c, w)
  {
  }

  /** A candidate carries its book's own title, as the EPUB has it, path and age. */
  lemma CandidatesCopyBooks(s: State, batch: seq<Candidate>, c: Candidate)
    requires IsBatch(s, 200, batch) && c in batch
    ensures c.id in s.books && c.title == s.books[c.id].epub.title
    ensures c.filePath == s.books[c.id].filePath && c.addedAt == s.books[c.id].addedAt
  {
    assert c.id in Pending(s);
  }

  predicate BothStatuses(s: State, id: int, status: string) {
    id in s.layers && s.layers[id].status == status && s.layers[id].hardcoverStatus == status
  }

  /** What is on record of a candidate that the queue has been through. */
  predicate Recorded(t: State, c: Candidate, w: World) {
    && (HardcoverAsked(c, w) && w.search(c).Failed? ==> BothStatuses(t, c.id, "error"))
    && (HardcoverAsked(c, w) && w.search(c).Unmatched? ==> BothStatuses(t, c.id, "no_match"))
    && (HardcoverAsked(c, w) && w.search(c).Found? && c.id in t.books ==>
          BothStatuses(t, c.id, "done") && t.layers[c.id].source == "hardcover")
    && (HardcoverAsked(c, w) && w.chaptarr && w.haveBooks ==>
          c.id in t.layers && t.layers[c.id].chaptarrStatus == "no_match")
    && (ChaptarrHas(c, w) && c.id in t.books ==>
          && c.id in t.layers && t.layers[c.id].status == "done"
          && t.layers[c.id].chaptarrStatus == "done" && t.layers[c.id].source == "chaptarr")
  }

  lemma AnswerIsRecorded(s: State, c: Candidate, w: World)
    ensures var t := HardcoverAnswered(s, c, w);
            && (w.search(c).Failed? ==> BothStatuses(t, c.id, "error"))
            && (w.search(c).Unmatched? ==> BothStatuses(t, c.id, "no_match"))
            && (w.search(c).Found? && c.id in t.books ==>
                  BothStatuses(t, c.id, "done") && t.layers[c.id].source == "hardcover")
            && (c.id in s.layers ==>
                  c.id in t.layers && t.layers[c.id].chaptarrStatus == s.layers[c.id].chaptarrStatus)
  {
  }

  lemma MatchIsRecorded(s: State, c: Candidate, patch: Patch, w: World)
    ensures var t := ChaptarrApplied(s, c.id, patch, w);
            c.id in t.books ==>
              && c.id in t.layers && t.layers[c.id].status == "done"
              && t.layers[c.id].chaptarrStatus == "done" && t.layers[c.id].source == "chaptarr"
  {
  }

  lemma HandlingIsRecorded(s: State, c: Candidate, w: World)
    ensures Recorded(Handled(s, c, w), c, w)
  {
    if !Deferred(c, w) {
      if ChaptarrMatch(c, w).Some? {
        MatchIsRecorded(s, c, ChaptarrMatch(c, w).value, w);
      } else {
        var t := if w.chaptarr && w.haveBooks then Marked(s, c.id, ChaptarrStatus, "no_match", w) else s;
        AnswerIsRecorded(t, c, w);
      }
    }
  }

  predicate KeepsRow(s: State, t: State, id: int) {
    LayerOf(t, id) == LayerOf(s, id) && (id in t.books ==> id in s.books)
  }

  lemma MatchKeepsRows(s: State, x: int, patch: Patch, w: World, id: int)
    ensures id in ChaptarrApplied(s, x, patch, w).books ==> id in s.books
    ensures id != x ==> KeepsRow(s, ChaptarrApplied(s, x, patch, w), id)
  {
  }

  lemma AnswerKeepsRows(s: State, c: Candidate, w: World, id: int)
    ensures id in HardcoverAnswered(s, c, w).books ==> id in s.books
    ensures id != c.id ==> KeepsRow(s, HardcoverAnswered(s, c, w), id)
  {
  }

  lemma OthersKeepTheirRow(s: State, c: Candidate, w: World, id: int)
    ensures id in Handled(s, c, w).books ==> id in s.books
    ensures id != c.id || !MayProceed(c, w) ==> KeepsRow(s, Handled(s, c, w), id)
  {
    if !Deferred(c, w) {
      if ChaptarrMatch(c, w).Some? {
        MatchKeepsRows(s, c.id, ChaptarrMatch(c, w).value, w, id);
      } else {
        var t := if w.chaptarr && w.haveBooks then Marked(s, c.id, ChaptarrStatus, "no_match", w) else s;
        assert id != c.id ==> KeepsRow(s, t, id);
        AnswerKeepsRows(t, c, w, id);
      }
    }
  }

  lemma RecordStays(s: State, t: State, c: Candidate, w: World)
    requires Recorded(s, c, w) && LayerOf(t, c.id) == LayerOf(s, c.id) && (c.id in t.books ==> c.id in s.books)
    ensures Recorded(t, c, w)
  {
  }

  /** After a batch each of its candidates has the status its lookup earned, whatever came
      before or after it in the batch. */
  lemma {:induction false} BatchIsRecorded(s: State, batch: seq<Candidate>, w: World, c: Candidate)
    requires Ascending(batch) && c in batch
    ensures Recorded(HandledAll(s, batch, w), c, w)
    decreases |batch|
  {
    var init, last := batch[..|batch| - 1], batch[|batch| - 1];
    var t := HandledAll(s, init, w);
    if c == last {
      HandlingIsRecorded(t, last, w);
    } else {
      var i :| 0 <= i < |batch| && batch[i] == c;
      assert init[i] == c;
      BatchIsRecorded(s, init, w, c);
      OthersKeepTheirRow(t, last, w, c.id);
      RecordStays(t, HandledAll(s, batch, w), c, w);
    }
  }

  /** A book that is not in the batch, or waits for a newer snapshot, keeps its row. */
  lemma {:induction false} OthersAreLeftAlone(s: State, batch: seq<Candidate>, w: World, id: int)
    requires forall c | c in batch && c.id == id :: !MayProceed(c, w)
    ensures LayerOf(HandledAll(s, batch, w), id) == LayerOf(s, id)
    decreases |batch|
  {
    if batch != [] {
      var init, last := batch[..|batch| - 1], batch[|batch| - 1];
      OthersAreLeftAlone(s, init, w, id);
      assert last in batch;
      OthersKeepTheirRow(HandledAll(s, init, w), last, w, id);
    }
  }

  /** A candidate whose book has gone in the meantime: a match of Chaptarr is passed over,
      one of Hardcover leaves an error. */
  lemma VanishedIsRecorded(s: State, c: Candidate, w: World)
    requires c.id !in s.books
    ensures ChaptarrHas(c, w) ==> Handled(s, c, w) == s
    ensures HardcoverAsked(c, w) && w.search(c).Found? ==>
      var t := Handled(s, c, w);
      c.id in t.layers && t.layers[c.id].status == "error"
      && t.layers[c.id].hardcoverStatus == if c.id in s.layers then s.layers[c.id].hardcoverStatus else ""
  {
  }

  /** No lookup of this candidate brings an ISBN. */
  predicate BringsNoIsbn(c: Candidate, w: World) {
    && (w.search(c).Found? ==> w.search(c).patch.isbn == "")
    && (w.matchByPath(c.filePath).Some? ==> w.matchByPath(c.filePath).value.isbn == "")
  }

  lemma {:induction false} NoIsbnNoMerge(s: State, batch: seq<Candidate>, w: World)
    requires forall c | c in batch :: BringsNoIsbn(c, w)
    ensures HandledAll(s, batch, w).books == s.books
    decreases |batch|
  {
    if batch != [] {
      var init, last := batch[..|batch| - 1], batch[|batch| - 1];
      NoIsbnNoMerge(s, init, w);
      assert BringsNoIsbn(last, w);
    }
  }

  /** A round happens if some integration is on and, with Chaptarr on, its snapshot is less
      than twelve hours old. */
  lemma RunsIff(w: World, now: int)
    ensures Runs(w, now) <==>
      && (w.hardcover || w.chaptarr)
      && (w.chaptarr ==> w.refreshedAt.Some? && now - w.refreshedAt.value < 12 * 60 * 60 * 1_000_000_000)
  {
  }

  /** Without it the tables stay as they are, and with it every candidate is recorded. */
  lemma RoundIsRecorded(s: State, batch: seq<Candidate>, w: World, now: int, t: State)
    requires IsRound(s, batch, w, now, t)
    ensures w.chaptarr && (w.refreshedAt.None? || now - w.refreshedAt.value >= 43_200_000_000_000) ==> t == s
    ensures !w.hardcover && !w.chaptarr ==> t == s
    ensures Runs(w, now) ==> forall c | c in batch :: Recorded(t, c, w)
  {
    RunsIff(w, now);
    if Runs(w, now) {
      forall c | c in batch ensures Recorded(t, c, w) {
        BatchIsRecorded(s, batch, w, c);
      }
    }
  }

  // ---------------------------------------------------------------------------
  // Which books are taken up
  // ---------------------------------------------------------------------------

  /** Neither the enrichment row, where it has a value, nor the EPUB gives a text. */
  predicate Lacks(over: Option<string>, epub: Option<string>) {
    if over.Some? then over.value == "" else epub == None || epub == Some("")
  }

  predicate LacksText(v: Option<string>) {
    v == None || v == Some("")
  }

  /** Once a book has a status it is not pending; before that it is pending until every
      value has come: series, date, description and publisher from the row or the EPUB,
      genres, pages, ISBN and rating from the row alone, and a cover. */
  lemma PendingIff(s: State, id: int)
    requires id in s.books
    ensures id !in s.layers ==> id in Pending(s)
    ensures id in s.layers && s.layers[id].status != "" ==> id !in Pending(s)
    ensures id in s.layers && s.layers[id].status == "" ==>
      var b, l := s.books[id].epub, s.layers[id];
      (id !in Pending(s) <==>
        && !Lacks(l.series, b.series) && !Lacks(l.publishedDate, b.publishedDate)
        && !Lacks(l.description, b.description) && !Lacks(l.publisher, b.publisher)
        && !LacksText(l.genres) && !LacksText(l.isbn)
        && l.pages != None && l.pages != Some(0) && l.rating != None && l.rating != Some(0.0)
        && s.books[id].hasCover)
  {
    if id in s.layers {
      GenresShownIff(s.layers[id].genres);
    }
  }

  lemma GenresShownIff(v: Option<string>)
    ensures SplitCsv(Text(v)) == [] <==> LacksText(v)
  {
  }

  // ---------------------------------------------------------------------------
  // What readers see
  // ---------------------------------------------------------------------------

  /** A book without an enrichment row shows its EPUB's values. */
  lemma EpubShows(b: Epub)
    ensures var shown := Shown(b, None);
            && shown.title == b.title
            && shown.series == (if b.series.Some? then b.series.value else "")
            && shown.seriesIndex == (if b.seriesIndex.Some? then b.seriesIndex.value else 0.0)
            && shown.publishedDate == (if b.publishedDate.Some? then b.publishedDate.value else "")
            && shown.description == (if b.description.Some? then b.description.value else "")
            && shown.publisher == (if b.publisher.Some? then b.publisher.value else "")
            && shown.genres == [] && shown.pages == 0 && shown.isbn == "" && shown.rating == 0.0
  {
  }

  /** Recording a status changes nothing that readers see, the book had a row or not. */
  lemma StatusHidesNothing(s: State, id: int, column: Column, status: string, fold: char -> char)
    requires id in s.books
    ensures var t, b := After(s, SetStatus(id, column, status), fold), s.books[id].epub;
            t.books == s.books && Shown(b, LayerOf(t, id)) == Shown(b, LayerOf(s, id))
  {
  }

  /** The new value where there is one, else the old. */
  predicate Takes(text: string, new_: string, old_: string) {
    (new_ != "" ==> text == new_) && (new_ == "" ==> text == old_)
  }

  /** In a manual save every field of the form that is filled in wins. */
  lemma FormWins(cur: Patch, form: Patch)
    ensures var m := MergeManual(cur, form);
            && Takes(m.title, form.title, cur.title) && Takes(m.series, form.series, cur.series)
            && Takes(m.publishedDate, form.publishedDate, cur.publishedDate)
            && Takes(m.description, form.description, cur.description)
            && Takes(m.publisher, form.publisher, cur.publisher) && Takes(m.isbn, form.isbn, cur.isbn)
            && (form.series != "" ==> m.seriesIndex == form.seriesIndex)
            && (form.series == "" ==> m.seriesIndex == cur.seriesIndex)
            && (form.genres != [] ==> m.genres == form.genres) && (form.genres == [] ==> m.genres == cur.genres)
            && (form.pages != 0 ==> m.pages == form.pages) && (form.pages == 0 ==> m.pages == cur.pages)
            && (form.rating != 0.0 ==> m.rating == form.rating) && (form.rating == 0.0 ==> m.rating == cur.rating)
  {
  }

  /** Letter by letter the same, up to case. */
  predicate SameText(a: string, b: string, fold: char -> char) {
    Fold(a, fold) == Fold(b, fold)
  }

  lemma EqualFoldIff(a: string, b: string, fold: char -> char)
    ensures EqualFold(a, b, fold) <==> SameText(a, b, fold)
  {
    if EqualFold(a, b, fold) {
      assert forall i | 0 <= i < |a| :: Fold(a, fold)[i] == Fold(b, fold)[i];
    }
    if SameText(a, b, fold) {
      assert |a| == |Fold(a, fold)| == |b|;
      forall i | 0 <= i < |a| ensures fold(a[i]) == fold(b[i]) {
        assert Fold(a, fold)[i] == Fold(b, fold)[i];
      }
    }
  }

  /** A provider's match wins wherever it has a title, publisher, ISBN, genres, pages or
      rating; a date it brings counts only if none was known. */
  lemma MatchWins(cur: Patch, match_: Patch, fold: char -> char)
    ensures var m := MergeProvider(cur, match_, fold);
            && Takes(m.title, match_.title, cur.title)
            && Takes(m.publisher, match_.publisher, cur.publisher) && Takes(m.isbn, match_.isbn, cur.isbn)
            && (match_.genres != [] ==> m.genres == match_.genres) && (match_.genres == [] ==> m.genres == cur.genres)
            && (match_.pages != 0 ==> m.pages == match_.pages) && (match_.pages == 0 ==> m.pages == cur.pages)
            && (match_.rating != 0.0 ==> m.rating == match_.rating)
            && (match_.rating == 0.0 ==> m.rating == cur.rating)
            && Takes(m.publishedDate, cur.publishedDate, match_.publishedDate)
  {
  }

  /** A known series goes, with its index, only for one of another name; case does not make
      a name another. */
  lemma SeriesGoesIff(cur: Patch, match_: Patch, fold: char -> char)
    ensures var m := MergeProvider(cur, match_, fold);
            if match_.series == "" || SameText(cur.series, match_.series, fold)
            then m.series == cur.series && m.seriesIndex == cur.seriesIndex
            else m.series == match_.series && m.seriesIndex == match_.seriesIndex
  {
    EqualFoldIff(cur.series, match_.series, fold);
  }

  lemma PlaceholderIff(d: string, title: string, known: string, fold: char -> char)
    requires known == TrimSpace(d)
    ensures IsPlaceholder(d, title, fold) <==> Utf8Len(known) < 40 || SameText(known, TrimSpace(title), fold)
  {
    EqualFoldIff(known, TrimSpace(title), fold);
  }

  /** A description goes only if it is shorter than 40 bytes or just the book's title,
      spaces around either and case not counted. */
  lemma DescriptionGoesIff(cur: Patch, match_: Patch, known: string, fold: char -> char)
    requires known == TrimSpace(cur.description)
    ensures var m := MergeProvider(cur, match_, fold);
            m.description ==
              if match_.description == "" || (Utf8Len(known) >= 40 && !SameText(known, TrimSpace(m.title), fold))
              then cur.description else match_.description
  {
    PlaceholderIff(cur.description, Prefer(match_.title, cur.title), known, fold);
  }

  // ---------------------------------------------------------------------------
  // What readers see after a write
  // ---------------------------------------------------------------------------

  /** The values but the genres, which pass through a comma-separated column. */
  predicate ShowsForm(now: Patch, was: Patch, form: Patch) {
    && Takes(now.title, form.title, was.title) && Takes(now.series, form.series, was.series)
    && (form.series != "" ==> now.seriesIndex == form.seriesIndex)
    && (form.series == "" ==> now.seriesIndex == was.seriesIndex)
    && Takes(now.publishedDate, form.publishedDate, was.publishedDate)
    && Takes(now.description, form.description, was.description)
    && Takes(now.publisher, form.publisher, was.publisher) && Takes(now.isbn, form.isbn, was.isbn)
    && (form.pages != 0 ==> now.pages == form.pages) && (form.pages == 0 ==> now.pages == was.pages)
    && (form.rating != 0.0 ==> now.rating == form.rating) && (form.rating == 0.0 ==> now.rating == was.rating)
  }

  /** After a manual save readers see what the form has, and else what they saw before. */
  lemma SaveShowsForm(s: State, id: int, form: Patch, fold: char -> char)
    requires id in s.books && Tidy(LayerOf(s, id))
    ensures var t, b := After(s, Save(id, form), fold), s.books[id].epub;
            && ShowsForm(Shown(b, LayerOf(t, id)), Shown(b, LayerOf(s, id)), form)
            && (form.genres == [] ==> Shown(b, LayerOf(t, id)).genres == Shown(b, LayerOf(s, id)).genres)
            && (form.genres != [] && CsvSafe(form.genres) ==> Shown(b, LayerOf(t, id)).genres == form.genres)
            && BothFinal(t, id, "manual")
  {
    var b, e := s.books[id].epub, LayerOf(s, id);
    SaveShowsMerge(b, e, form);
    FormWins(Shown(b, e), form);
    ShownGenresAreSafe(b, e);
    GenresRoundTripIff(MergeManual(Shown(b, e), form).genres);
  }

  predicate BothFinal(t: State, id: int, source: string) {
    id in t.layers && t.layers[id].status == "done" && t.layers[id].source == source
  }

  /** After a provider's match readers see its title, publisher, ISBN, pages and rating
      where it has them; its date if none was shown; its series unless the one shown differs
      by case only; its description if the one shown is short or just the title. */
  lemma ApplyShowsMatch(s: State, id: int, match_: Patch, source: Source, known: string, fold: char -> char)
    requires id in s.books && Tidy(LayerOf(s, id))
    requires known == TrimSpace(Shown(s.books[id].epub, LayerOf(s, id)).description)
    ensures var t, b := After(s, Apply(id, match_, source), fold), s.books[id].epub;
            var now, was := Shown(b, LayerOf(t, id)), Shown(b, LayerOf(s, id));
            && Takes(now.title, match_.title, was.title) && Takes(now.publisher, match_.publisher, was.publisher)
            && Takes(now.isbn, match_.isbn, was.isbn)
            && Takes(now.publishedDate, was.publishedDate, match_.publishedDate)
            && (if match_.pages != 0 then now.pages == match_.pages else now.pages == was.pages)
            && (if match_.rating != 0.0 then now.rating == match_.rating else now.rating == was.rating)
            && (if match_.series == "" || SameText(was.series, match_.series, fold)
                then now.series == was.series && now.seriesIndex == was.seriesIndex
                else now.series == match_.series && now.seriesIndex == match_.seriesIndex)
            && now.description ==
                 if match_.description == "" || (Utf8Len(known) >= 40 && !SameText(known, TrimSpace(now.title), fold))
                 then was.description else match_.description
  {
    var b, e := s.books[id].epub, LayerOf(s, id);
    ApplyShowsMerge(b, e, match_, source, fold);
    MatchWins(Shown(b, e), match_, fold);
    SeriesGoesIff(Shown(b, e), match_, fold);
    DescriptionGoesIff(Shown(b, e), match_, known, fold);
  }
}
