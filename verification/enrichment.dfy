/** Metadata in two layers: what a scan read from the EPUB, and book_enrichment over it. */
module Enrichment {

  import opened Wrappers
  import opened Strings

  /** The books columns that enrichment can cover; a rescan rewrites them. */
  datatype Epub = Epub(
    title: string, series: Option<string>, seriesIndex: Option<real>, publishedDate: Option<string>,
    description: Option<string>, publisher: Option<string>)

  datatype Book = Book(epub: Epub, filePath: string, addedAt: int, hasCover: bool)

  /** A book_enrichment row. */
  datatype Layer = Layer(
    title: Option<string>, series: Option<string>, seriesIndex: Option<real>, publishedDate: Option<string>,
    description: Option<string>, genres: Option<string>, publisher: Option<string>, pages: Option<int>,
    isbn: Option<string>, rating: Option<real>,
    status: string, source: string, chaptarrStatus: string, hardcoverStatus: string)

  datatype Patch = Patch(
    title: string, series: string, seriesIndex: real, publishedDate: string, description: string,
    genres: seq<string>, publisher: string, pages: int, isbn: string, rating: real)

  // ---------------------------------------------------------------------------
  // Column conversions
  // ---------------------------------------------------------------------------

  function Coalesce<T>(over: Option<T>, under: Option<T>): Option<T> {
    if over.Some? then over else under
  }

  function Text(v: Option<string>): string {
    if v.Some? then v.value else ""
  }

  function Number(v: Option<real>): real {
    if v.Some? then v.value else 0.0
  }

  function Count(v: Option<int>): int {
    if v.Some? then v.value else 0
  }

  function NullIfEmpty(s: string): Option<string> {
    if s == "" then None else Some(s)
  }

  function NullIfZero(n: int): Option<int> {
    if n == 0 then None else Some(n)
  }

  function NullIfZeroReal(r: real): Option<real> {
    if r == 0.0 then None else Some(r)
  }

  function JoinCsv(items: seq<string>): string {
    Join(items, ",")
  }

  function CommaAt(s: string): (n: nat)
    ensures n <= |s|
    ensures n < |s| ==> s[n] == ','
    ensures forall i | 0 <= i < n :: s[i] != ','
  {
    if s == "" || s[0] == ',' then 0 else 1 + CommaAt(s[1..])
  }

  /** strings.Split(s, ","). */
  function Split(s: string): seq<string>
    decreases |s|
  {
    var n := CommaAt(s);
    if n == |s| then [s] else [s[..n]] + Split(s[n + 1..])
  }

  function SplitCsv(s: string): seq<string> {
    if s == "" then [] else Split(s)
  }

  // ---------------------------------------------------------------------------
  // Reading, merging and writing
  // ---------------------------------------------------------------------------

  /** currentEnrichmentMerged: the values a listing shows. */
  function Shown(b: Epub, e: Option<Layer>): Patch {
    match e
    case None =>
      Patch(b.title, Text(b.series), Number(b.seriesIndex), Text(b.publishedDate), Text(b.description), [],
        Text(b.publisher), 0, "", 0.0)
    case Some(l) =>
      Patch(Text(Coalesce(l.title, Some(b.title))), Text(Coalesce(l.series, b.series)),
            Number(Coalesce(l.seriesIndex, b.seriesIndex)), Text(Coalesce(l.publishedDate, b.publishedDate)),
            Text(Coalesce(l.description, b.description)), SplitCsv(Text(l.genres)),
            Text(Coalesce(l.publisher, b.publisher)), Count(l.pages), Text(l.isbn), Number(l.rating))
  }

  const PLACEHOLDER_MAX_LEN := 40

  /** strings.EqualFold, for a given case folding of characters. */
  predicate EqualFold(a: string, b: string, fold: char -> char) {
    |a| == |b| && forall i | 0 <= i < |a| :: fold(a[i]) == fold(b[i])
  }

  predicate IsPlaceholder(description: string, title: string, fold: char -> char) {
    var cur := TrimSpace(description);
    cur == "" || Utf8Len(cur) < PLACEHOLDER_MAX_LEN || EqualFold(cur, TrimSpace(title), fold)
  }

  function Prefer(new_: string, old_: string): string {
    if new_ != "" then new_ else old_
  }

  /** mergeProviderMetadata. */
  function MergeProvider(cur: Patch, patch: Patch, fold: char -> char): Patch {
    var title := Prefer(patch.title, cur.title);
    var newSeries := patch.series != "" && (cur.series == "" || !EqualFold(cur.series, patch.series, fold));
    Patch(
      title,
      if newSeries then patch.series else cur.series,
      if newSeries then patch.seriesIndex else cur.seriesIndex,
      if cur.publishedDate == "" then patch.publishedDate else cur.publishedDate,
      if patch.description != "" && IsPlaceholder(cur.description, title, fold) then patch.description
      else cur.description,
      if |patch.genres| > 0 then patch.genres else cur.genres,
      Prefer(patch.publisher, cur.publisher),
      if patch.pages != 0 then patch.pages else cur.pages,
      Prefer(patch.isbn, cur.isbn),
      if patch.rating != 0.0 then patch.rating else cur.rating)
  }

  /** mergeManualMetadata. */
  function MergeManual(cur: Patch, patch: Patch): Patch {
    Patch(
      Prefer(patch.title, cur.title),
      Prefer(patch.series, cur.series),
      if patch.series != "" then patch.seriesIndex else cur.seriesIndex,
      Prefer(patch.publishedDate, cur.publishedDate),
      Prefer(patch.description, cur.description),
      if |patch.genres| > 0 then patch.genres else cur.genres,
      Prefer(patch.publisher, cur.publisher),
      if patch.pages != 0 then patch.pages else cur.pages,
      Prefer(patch.isbn, cur.isbn),
      if patch.rating != 0.0 then patch.rating else cur.rating)
  }

  const BLANK := Layer(None, None, None, None, None, None, None, None, None, None, "", "", "", "")

  /** upsertEnrichment: every metadata column is replaced, the providers' own statuses stay. */
  function Written(e: Option<Layer>, f: Patch, status: string, source: string): Layer {
    var old_ := if e.Some? then e.value else BLANK;
    Layer(NullIfEmpty(f.title), NullIfEmpty(f.series), Some(f.seriesIndex), NullIfEmpty(f.publishedDate),
          NullIfEmpty(f.description), NullIfEmpty(JoinCsv(f.genres)), NullIfEmpty(f.publisher), NullIfZero(f.pages),
          NullIfEmpty(f.isbn), NullIfZeroReal(f.rating), status, source, old_.chaptarrStatus, old_.hardcoverStatus)
  }

  datatype Source = Hardcover | Chaptarr | Manual

  function SourceName(s: Source): string {
    match s case Hardcover => "hardcover" case Chaptarr => "chaptarr" case Manual => "manual"
  }

  datatype Column = Status | ChaptarrStatus | HardcoverStatus

  function WithStatus(l: Layer, column: Column, status: string): Layer {
    match column
    case Status => l.(status := status)
    case ChaptarrStatus => l.(chaptarrStatus := status)
    case HardcoverStatus => l.(hardcoverStatus := status)
  }

  function AppliedLayer(b: Epub, e: Option<Layer>, patch: Patch, source: Source, fold: char -> char): Layer {
    var l := Written(e, MergeProvider(Shown(b, e), patch, fold), "done", SourceName(source));
    match source
    case Chaptarr => WithStatus(l, ChaptarrStatus, "done")
    case Hardcover => WithStatus(l, HardcoverStatus, "done")
    case Manual => l
  }

  function SavedLayer(b: Epub, e: Option<Layer>, patch: Patch): Layer {
    Written(e, MergeManual(Shown(b, e), patch), "done", SourceName(Manual))
  }

  // ---------------------------------------------------------------------------
  // The store
  // ---------------------------------------------------------------------------

  datatype State = State(books: map<int, Book>, layers: map<int, Layer>)

  function LayerOf(s: State, id: int): Option<Layer> {
    if id in s.layers then Some(s.layers[id]) else None
  }

  datatype Event =
    | Apply(id: int, patch: Patch, source: Source)
    | Save(id: int, patch: Patch)
    | SetStatus(id: int, column: Column, status: string)
    | Rescan(id: int, epub: Epub)
    | Remove(id: int)

  /** What each call leaves behind. A layer outlives its book: the foreign key is not enforced. */
  function After(s: State, ev: Event, fold: char -> char): State {
    match ev
    case Apply(id, patch, source) =>
      if id !in s.books then s
      else s.(layers := s.layers[id := AppliedLayer(s.books[id].epub, LayerOf(s, id), patch, source, fold)])
    case Save(id, patch) =>
      if id in s.books then s.(layers := s.layers[id := SavedLayer(s.books[id].epub, LayerOf(s, id), patch)]) else s
    case SetStatus(id, column, status) =>
      s.(layers := s.layers[id := WithStatus(if id in s.layers then s.layers[id] else BLANK, column, status)])
    case Rescan(id, epub) =>
      if id in s.books then s.(books := s.books[id := s.books[id].(epub := epub)]) else s
    case Remove(id) =>
      s.(books := s.books - {id})
  }

  class Store {
    var books: map<int, Book>
    var layers: map<int, Layer>

    constructor ()
      ensures Now() == State(map[], map[])
    {
      books, layers := map[], map[];
    }

    function Now(): State
      reads this
    {
      State(books, layers)
    }

    method UpsertEnrichment(id: int, f: Patch, status: string, source: string)
      modifies this`layers
      ensures layers == old(layers)[id := Written(LayerOf(old(Now()), id), f, status, source)]
    {
      layers := layers[id := Written(LayerOf(Now(), id), f, status, source)];
    }

    method SetProviderStatus(id: int, column: Column, status: string, ghost fold: char -> char)
      modifies this`layers
      ensures Now() == After(old(Now()), SetStatus(id, column, status), fold)
    {
      layers := layers[id := WithStatus(if id in layers then layers[id] else BLANK, column, status)];
    }

    /** A missing book makes the read fail and the transaction roll back. */
    method ApplyEnrichment(id: int, patch: Patch, source: Source, fold: char -> char) returns (ok: bool)
      modifies this`layers
      ensures ok == (id in old(books))
      ensures Now() == After(old(Now()), Apply(id, patch, source), fold)
    {
      if id !in books {
        return false;
      }
      var final := MergeProvider(Shown(books[id].epub, LayerOf(Now(), id)), patch, fold);
      UpsertEnrichment(id, final, "done", SourceName(source));
      match source {
        case Chaptarr => SetProviderStatus(id, ChaptarrStatus, "done", fold);
        case Hardcover => SetProviderStatus(id, HardcoverStatus, "done", fold);
        case Manual =>
      }
      return true;
    }

    method SaveMetadata(id: int, patch: Patch, ghost fold: char -> char) returns (ok: bool)
      modifies this`layers
      ensures ok == (id in old(books))
      ensures Now() == After(old(Now()), Save(id, patch), fold)
    {
      if id !in books {
        return false;
      }
      var final := MergeManual(Shown(books[id].epub, LayerOf(Now(), id)), patch);
      UpsertEnrichment(id, final, "done", SourceName(Manual));
      return true;
    }

    method ResetEnrichment()
      modifies this`layers
      ensures Now() == old(Now()).(layers := map[])
    {
      layers := map[];
    }
  }
}
