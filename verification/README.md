# Verified models of a sideloaded e-book library

Dafny models of the parts of the library server where several functions have to agree: the
index of files and books, the queue of background jobs, author bylines and their filter,
metadata enrichment, and five smaller protocols. `dafny verify dfyconfig.toml` checks all
of them.

## What is modelled

**Library index** (`library_*.dfy`). `books` holds one canonical file per book,
`book_locations` every further copy. Abstractly the index is a set of file keys split into
classes, one per book. `library_tables` gives each call as a relation between the tables
before and after and proves what it does to the classes; `library_index` is the mutable
store, whose methods and loops are proved against those relations; `library_runs`,
`library_scan`, `library_convergence`, `library_exactness` and `library_reimport` are about
whole runs and repeated scans; `library_survivors` and `library_metadata` say in terms of the
rows which of them stay and what they hold, and `library_examples` holds runs from the empty
tables that go wrong. Values that the source leaves open are left open here: clock readings,
`LIMIT 1` without an order, ties of `added_at`, the order in which a directory is read.

- Each upsert, each loss of a canonical file, each location delete and each pick-and-merge
  is one atomic step. The source wraps the promotion and the merge in transactions but not
  the upsert, and the scanner and the watcher run in different goroutines.
  `LibraryRuns.InterleavedUpsertsSplitAKey` shows what two interleaved upserts can do.
- Foreign keys are not enforced: `src/internal/index/db.go:44` sets no such pragma, so the
  cascade that the comment at `src/internal/index/dedup.go:93-98` counts on does not
  happen. Enrichment rows and shelf memberships can outlive their book.
- A walk or stat error leaves a file out of the walk, or seen but unread (`Disk`). Other
  SQL errors do not occur.

**Background jobs** (`task_*.dfy`). The table of runs as a mutable store, and a state
machine in which enqueuers, workers, services and restarts take one statement at a time:
exclusive runs (`task_protocol`), claims in order (`task_order`) and wakeups
(`task_wakeup`).

**Authors** (`author_*.dfy`, `strings.dfy`). Splitting, normalising and de-duplicating
bylines, and what becomes of the usual forms of a name (`author_forms`); SQLite's LIKE with
%, _, ESCAPE and ASCII case folding; the browse index. Unicode lowercasing maps character by
character and is otherwise a parameter, required only to identify what ASCII lowercasing
does.

**Enrichment** (`enrichment*.dfy`). The two-layer store of EPUB columns and enrichment
rows, the provider's and the manual merge, and the queue with its batches of 200, provider
precedence and progress. `enrichment_progress` also lets scans, edits and resets interleave
with the queue, candidate by candidate; `enrichment_reach` says which books the queue comes
to, `enrichment_starvation` what blocks it, and `enrichment_outcomes` what a batch leaves on
record.

**Smaller protocols.** The Hardcover rate limiter (`rate_limiter`), the watcher's debounce
(`watcher`) and its work on the index (`watched_index`), password-reset and invite tokens
(`tokens`), shelf slugs (`shelf_slugs`), and the provenance of the Chaptarr snapshot
(`snapshot_cache`). Hashes are injective, new tokens are fresh, and token lifetimes assume a
clock that does not run backwards.

## Where the code does not do all its comments promise

- One scan can leave a key that is not on disk, when all copies of a book vanish together
  (`LibraryExamples.StaleAfterOneScan`, and `LibraryExactness.OneScanIsExactIff` for when).
  So can two (`LibraryExamples.StaleAfterTwoScans`, `LibraryExactness.TwoScansAreExactIff`).
  Three cannot (`LibraryConvergence.ThreeScansConverge`).
- A merge of duplicate ISBNs can be skipped because of a vanished book's enrichment row
  (`LibraryExamples.DuplicateIsbnSkipped`, `LibraryDedup.IsbnMergeIsCertainIff`).
- A promoted file keeps the lost file's metadata until it changes or a reimport is forced
  (`LibraryExamples.PromotedKeepsLostMetadata`, `LibraryReimport.PromotionKeepsFaithfulIff`,
  and `LibraryReimport.ForceMattersToScanIff` for whole scans).
- A series that an EPUB gains after enrichment is shown with the stored index
  (`EnrichmentLaws.NewSeriesShowsIndexZero`, `EnrichmentLaws.SeriesPairIsMixedIff`).
- A book behind 200 pending ones that no enabled integration works on is never looked at
  (`EnrichmentReach.ReachedIff`, `EnrichmentStarvation.LastBookIsReachedIff`).
- A delayed watcher action can run after a newer one for the same file
  (`FileWatcher.EarlierActionCanRunLast`, `FileWatcher.LastEventActsLastIff`), and a file
  that is removed and written again can be left out of the index
  (`WatchedIndex.FileOnDiskIsLost`, `WatchedIndex.InStepAtRestIff`).
- A second worker would lose wakeups (`TaskWakeup.TwoWorkersLoseAWakeup`); the program
  starts one.
- Changing the Chaptarr URL during a refresh files the old catalogue under the new URL
  (`SnapshotCache.OverlapMixesServers`, `SnapshotCache.RefreshInstallsRightIff`).

## Model

| member | source | states |
|---|---|---|
| LibraryTables.ValidIsPartition | src/internal/index/migrations/0004_book_locations.sql:2-10 | a valid pair of tables is a partition: a key is indexed if and only if some book owns it, its owner is unique, and it is never in both tables |
| LibraryTables.UpsertAddsItsKey | src/internal/index/scan.go:111-233 | an upsert adds exactly its key, moves no other file, and gives a new file to a book of the same title and author if there is one, else to a new book |
| LibraryTables.PromotionDropsKey | src/internal/index/scan.go:334-343 | promoting a location never meets the UNIQUE index, loses exactly the old canonical key and copies path, size and mtime but no metadata |
| LibraryTables.RemoveDropsItsKey | src/internal/index/scan.go:293-344 | losing a canonical file removes exactly its key; the book goes only when it owns no other file |
| LibraryTables.DeleteByPathDropsItsKey | src/internal/index/scan.go:350-361 | deleting a path removes exactly that key, whichever table holds it |
| LibraryMetadata.UpsertStoresMetadata | src/internal/index/scan.go:119-215 | whenever an upsert reads its file into a row, new, changed or forced, every parsed value is in its own column, or the row has the last path element for title, the parse error and nothing else; size and mtime are the file's, and added_at of a known row stays |
| LibraryMetadata.NewFileJoinsIff | src/internal/index/scan.go:195-215 | a new file becomes a further copy if and only if it can be read, has a title and an author and some book has the same; else it becomes a book |
| LibraryMetadata.OldestCopyTakesOver | src/internal/index/scan.go:306-343 | a lost canonical file is replaced by the oldest copy seen, or the oldest of all if none was seen |
| LibraryMetadata.PruningPromotesOldest | src/internal/index/scan.go:235-291 | the same of every book to which a scan's pruning gives another file |
| LibraryMetadata.ForcedScanStoresMetadata | src/internal/index/scan.go:30-41 | after a forced scan every row whose file is on the disk and readable holds that file's metadata, except rows that the scan gave another file, which hold what they held |
| LibraryTables.MergeIsQuotient | src/internal/index/dedup.go:99-139 | merging two existing books identifies them and nothing else; the INSERT OR IGNORE never drops a location |
| LibraryTables.QuotientUnitesClasses | src/internal/index/dedup.go:110-139 | folding books into representatives unites their files: a survivor owns exactly the files of the books it stands for |
| LibraryTables.QuotientKeepsKeys | src/internal/index/dedup.go:99-139 | folding books keeps the key set, and every file's new book is on all shelves of its old one |
| LibraryTables.QuotientUnitesShelves | src/internal/index/dedup.go:127-136 | a survivor's shelves are exactly the union of the shelves of the books it stands for |
| LibraryTables.QuotientsCompose | src/internal/index/dedup.go:169-217 | merging in several steps equals merging at once along the composed representatives |
| LibraryDedup.MergeNeedsItsKeeper | src/internal/index/dedup.go:99-139 | a merge, which does not look whether the kept book exists, leaves valid tables if and only if it does nothing or the kept book exists |
| LibraryDedup.FoldKeepsFiles | src/internal/index/dedup.go:37-139 | picking a survivor and merging keeps validity, the key set and every file's shelves |
| LibraryDedup.IsbnMergeIsCertainIff | src/internal/index/dedup.go:219-253 | because enrichment rows outlive their book, a duplicate by ISBN is sure to be merged if and only if no row of a vanished book shares the ISBN |
| LibraryExamples.DuplicateIsbnSkipped | src/internal/index/dedup.go:219-253 | a run from the empty tables after which two live books share an ISBN and the merge may do nothing |
| LibraryDedup.SurvivorsAreUnique | src/internal/index/dedup.go:30-91 | each group's survivor does not depend on the order of visiting |
| LibraryDedup.ConsolidationTheorem | src/internal/index/dedup.go:164-217 | afterwards no two books share a non-blank normalised title and author; the survivors are exactly the least members of their groups by root rank, added_at and id, with their rows untouched; files and shelves are conserved |
| LibraryDedup.ConsolidationIdleIff | src/internal/index/dedup.go:169-217 | consolidation changes nothing if and only if there is no duplicate |
| LibrarySurvivors.FoldedAgreeIff | src/internal/index/dedup.go:141-162 | titles and authors count as the same if and only if, blanks at the ends apart, they agree letter by letter up to the case of A to Z |
| LibrarySurvivors.EarlierRootStays | src/internal/index/dedup.go:30-91 | of two rows to be merged the one in the root configured first stays, whatever their ages and ids |
| LibrarySurvivors.WinnerStays | src/internal/index/dedup.go:30-91 | exactly one of two rows wins, by earlier configured root, a configured root against an unknown one, earlier added_at, lower id, and the other one goes |
| LibrarySurvivors.SurvivesIff | src/internal/index/dedup.go:164-217 | a row survives consolidation if and only if it wins so against every other row of its non-blank title and author |
| LibrarySurvivors.FilesGoToTheirWork | src/internal/index/dedup.go:164-217 | no file goes to a book of another title or author |
| LibrarySurvivors.IsbnMergeMeans | src/internal/index/dedup.go:219-253 | a merge by ISBN joins the book with a live book of the same non-empty ISBN, the winner staying; it does nothing only if there is none or a row sharing the ISBN has lost its book |
| LibraryRuns.ReachableIsPartition | src/internal/index/scan.go:111-361 | in every state reachable by atomic calls each key has exactly one owner; only an upsert of a key adds it and only losing that very file removes it |
| LibraryRuns.RunKeepsShelves | src/internal/index/scan.go:293-344 | over any run of scans, watcher events, merges and edits, a file that stays indexed stays on every shelf, until a user takes it off or the library is cleared |
| LibraryRuns.InterleavedUpsertsSplitAKey | src/internal/index/scan.go:111-233 | why upserts are taken as atomic: two interleaved upserts of one new file put its key into both tables |
| LibraryRuns.MoveCreateFirst | src/internal/index/watch.go:121-133 | a move seen as creation, then removal, keeps the book and its shelves |
| LibraryRuns.MoveDeleteFirst | src/internal/index/watch.go:121-133 | a move seen as removal, then creation, keeps the shelves if and only if the book had another copy or had no shelf to lose |
| LibraryScan.ScanIndexesDisk | src/internal/index/scan.go:62-109 | after one scan an on-disk key is indexed if and only if it could be read or was known; a key not on disk only as the canonical key promoted for a book whose files all vanished |
| LibraryScan.OneStaleKeyPerBook | src/internal/index/scan.go:319-331 | one scan leaves at most one stale key per book |
| LibraryExactness.OneScanSuffices | src/internal/index/scan.go:235-344 | one scan leaves no stale key whenever no book with further copies had, before the scan, lost all its files |
| LibraryExactness.OneScanIsExactIff | src/internal/index/scan.go:235-344 | that condition, read off the tables before the scan, is exact unless a file that is new to the index has a lost book's title and author and may attach to it |
| LibraryExactness.LostBookNeedsNewFile | src/internal/index/scan.go:165-233 | such a file is the only thing that can save a lost book with copies from leaving a stale key |
| LibraryExactness.KnownFilesScanIsExactIff | src/internal/index/scan.go:235-344 | when every readable file is indexed already, one scan leaves no stale key if and only if no book with further copies has lost all its files |
| LibraryExamples.StaleAfterOneScan | src/internal/index/scan.go:319-331 | a run from the empty tables after which both copies of a book vanish and one scan leaves the second one's key |
| LibraryScan.ScanKeepsShelves | src/internal/index/scan.go:62-109 | every file indexed before and still on disk ends in a book that is on all shelves of its earlier book |
| LibraryScan.MovedFileKeepsShelves | src/internal/index/scan.go:62-109 | a book whose file was moved between scans keeps its shelves, because the new path is read before the old one is pruned, if before the scan it is the only row of its title and author and no indexed file on the disk parses to them |
| LibraryScan.WalkRecordsStats | src/internal/index/scan.go:111-146 | a visited file has its current size and mtime on record |
| LibraryExactness.TwoScansSuffice | src/internal/index/scan.go:62-109 | on an unchanging disk two scans leave exactly the on-disk keys, unless before them two books of one title and author had each lost several files |
| LibraryExactness.TwoScansAreExactIff | src/internal/index/scan.go:62-109 | two scans leave no stale key if and only if pruning in the first one left no title group of several rows with every canonical file off the disk |
| LibraryExactness.SecondScanIsExactIff | src/internal/index/scan.go:62-109 | the same judged from the tables between the two scans: no book with further copies has lost all its files |
| LibraryExamples.StaleAfterTwoScans | src/internal/index/scan.go:62-109 | a run from the empty tables after which two scans in a row still leave a stale key |
| LibraryConvergence.ThreeScansConverge | src/internal/index/scan.go:62-109 | three scans, forced or not and in any order of visiting, always leave exactly the on-disk keys |
| LibraryConvergence.ScanIsIdleIff | src/internal/index/scan.go:62-109 | an unforced scan changes nothing if and only if nothing is stale, every file's size and mtime are on record and there is no duplicate |
| LibraryConvergence.FourthScanIsIdle | src/internal/index/scan.go:62-109 | after three scans a further scan changes no row |
| LibraryConvergence.StaleKeyMakesProgress | src/internal/index/scan.go:235-344 | a scan that starts with a stale key removes some key |
| LibraryReimport.ForceMattersIff | src/internal/index/scan.go:119-146 | forcing makes no difference to an upsert if and only if an unchanged canonical row already holds what its file parses to |
| LibraryReimport.PromotionKeepsFaithfulIff | src/internal/index/scan.go:334-343 | promotion keeps rows true to their files if and only if the promoted file parses to the columns already there |
| LibraryExamples.PromotedKeepsLostMetadata | src/internal/index/scan.go:119-146 | a run from the empty tables after which a promoted row shows the deleted file's description, which an unforced upsert of the remaining file keeps and a forced one replaces |
| LibraryReimport.RunsWithoutPromotionAreFaithful | src/internal/index/scan.go:111-233 | in every run without a promotion each canonical row holds exactly what its recorded file parses to |
| LibraryReimport.ForceMattersToScanIff | src/internal/index/scan.go:30-41 | a scan that skips unchanged files and the forced reimport are the same transition if and only if, before them, every row whose file has its recorded size and mtime holds what that file parses to |
| LibraryIndex.DB.FindBookByTitleAuthor | src/internal/index/dedup.go:145-162 | answers some book of the same normalised title and author, or 0 if and only if there is none or the title or author is blank |
| LibraryIndex.DB.UpsertIfChanged | src/internal/index/scan.go:111-233 | refreshes a location, re-reads a canonical row, attaches a copy or inserts a book, as the upsert relation says |
| LibraryIndex.DB.RemoveCanonicalFile | src/internal/index/scan.go:293-344 | the loop over locations by age promotes the oldest one seen, else the oldest of all, or deletes the book |
| LibraryIndex.DB.DeleteByPath | src/internal/index/scan.go:350-361 | drops a location or hands a canonical key to the removal above |
| LibraryIndex.DB.MergeBooks | src/internal/index/dedup.go:99-139 | inserts the dropped book's file, redirects its locations and memberships, deletes its row |
| LibraryIndex.DB.PruneMissing | src/internal/index/scan.go:235-291 | the two loops of pruning bring the tables to the state pruning is specified by |
| LibraryIndex.DB.PickCanonical | src/internal/index/dedup.go:37-91 | the root map and the comparisons pick the first of two rows by root rank, added_at and id, and fail when a row is missing |
| LibraryIndex.DB.MergeDuplicateISBN | src/internal/index/dedup.go:224-253 | merges with any other row of the same non-empty ISBN |
| LibraryIndex.DB.ConsolidateDuplicateTitles | src/internal/index/dedup.go:169-217 | the loop over i, j and keepID folds every group into its least member |
| LibraryIndex.DB.UpsertPath | src/internal/index/scan.go:364-371 | a file that cannot be stat-ed changes nothing; else an unforced upsert |
| LibraryIndex.DB.Scan | src/internal/index/scan.go:62-109 | the walk with its seen map, pruning and consolidation together make a scan as the theorems above take it |
| TaskStore.Store.Enqueue | src/internal/tasks/tasks.go:91-119 | a new queued row if and only if the job has no active one; the answer is an active row of the job |
| TaskStore.Store.ClaimNext | src/internal/tasks/tasks.go:131-151 | claims the first queued row by (queued_at, id), or finds none queued |
| TaskStore.Store.TryClaim | src/internal/tasks/tasks.go:140-150 | the conditional update claims a row if and only if it is still queued |
| TaskProtocol.RunsAreExclusive | src/internal/tasks/tasks.go:86-166 | over all interleavings of enqueuers, any number of claimers, services and restarts: at most one active row per job, one handler per row, no row claimed twice |
| TaskProtocol.CommitAddsIff | src/internal/tasks/tasks.go:91-119 | an enqueuer adds a row, queued now, if and only if no row of the job is queued or running |
| TaskProtocol.TerminalIsFinal | src/internal/tasks/tasks.go:153-166 | rows never move back and a finished row never changes |
| TaskProtocol.StepMovesRows | src/internal/tasks/tasks.go:86-166 | a row moves only from queued to running or interrupted and from running to an end |
| TaskProtocol.DirectRunIsExclusiveIff | src/internal/tasks/tasks.go:295-320 | running a job directly keeps the one-active-row rule if and only if the job has no active row |
| TaskWakeup.NoWakeupIsLost | src/internal/tasks/tasks.go:278-293 | with one worker and no failing claim query, the worker never waits beside a queued row unless a token is buffered or an enqueuer has yet to signal |
| TaskWakeup.ClaimComesSoon | src/internal/tasks/tasks.go:367-395 | in every such run, the one-second poll left out, a queued row waits for at most two steps of the worker and the signals, plus one for each signal pending and each enqueue meanwhile, and such a step is always possible; so a claim comes |
| TaskOrder.ClaimsFollowOrder | src/internal/tasks/tasks.go:131-151 | over all runs of any number of enqueuers, workers, services and restarts, failed statements included, rows are claimed in (queued_at, id) order while the clock does not run backwards |
| TaskWakeup.TwoWorkersLoseAWakeup | src/internal/tasks/tasks.go:367-395 | a run in which a second worker sleeps beside a queued row with no token and no enqueuer left |
| AuthorNames.SplitAuthorNames | src/internal/epub/opf.go:236-253 | the splitting loop cuts at every separator match and drops blank pieces |
| AuthorNames.CleanAuthorNames | src/internal/epub/opf.go:280-298 | the loops with the seen map give the names in order of first appearance, each once ignoring case |
| AuthorRoundTrip.NormalizeTwice | src/internal/epub/opf.go:258-268 | normalising is idempotent, the Last, First swap included |
| AuthorForms.LastFirst | src/internal/epub/opf.go:258-268 | Last, First becomes First Last |
| AuthorForms.OtherNamesStay | src/internal/epub/opf.go:258-268 | a collapsed name with no comma, or with two or more, stays as it is |
| AuthorForms.LooseCommaStays | src/internal/epub/opf.go:258-268 | so does one whose comma has nothing before or after it |
| AuthorForms.TwoWords | src/internal/epub/opf.go:258-259 | spaces of any kind around a name go, and a run of them inside becomes one blank |
| AuthorForms.SeparatorsCut | src/internal/epub/opf.go:229-253 | two names with &, ; or / between them, or the word and in any case between blanks, are split into the two |
| AuthorForms.WholeStays | src/internal/epub/opf.go:229-253 | a name in which none of these stands is not split, as Anderson or Sandy |
| AuthorForms.BothFormsAgree | src/internal/epub/opf.go:280-298 | Last, First and First Last clean to the same one-name list |
| AuthorForms.FirstSpellingsInOrder | src/internal/epub/opf.go:280-298 | the cleaned list has every name of the creators and no other, in its first spelling, and later creators neither move nor replace what is there |
| AuthorRoundTrip.CleanIsClean | src/internal/epub/opf.go:280-298 | cleaned names are non-empty, separator-free, normalised and pairwise distinct ignoring case |
| AuthorRoundTrip.SplitJoin | src/internal/epub/opf.go:174-175 | splitting a joined list of such names gives the names back |
| AuthorRoundTrip.RoundTrip | src/internal/epub/opf.go:174-175 | cleaning any creators, joining with the ampersand and cleaning again gives the same list |
| AuthorFilter.EscapeIsPerCharacter | src/internal/index/queries.go:237-242 | the three replacements together escape each metacharacter once |
| AuthorFilter.LikeLiteral | src/internal/index/queries.go:123-136 | an escaped pattern matches exactly its own text ignoring ASCII case, whatever %, _ or backslash it holds |
| AuthorComponents.ConditionFindsComponents | src/internal/index/queries.go:123-136 | the four-way author condition holds of a stored byline if and only if the name is its only component, or one of several ignoring ASCII case |
| AuthorIndex.ListAuthors | src/internal/index/queries.go:192-229 | the counts map holds for every folded name the number of rows whose byline contains it, the display map one of its spellings |
| AuthorIndex.BlankBylineIsNotFound | src/internal/index/queries.go:193-198 | rows without an author, left out by the browse query, match no name |
| AuthorIndex.BrowseAgreesIff | src/internal/index/queries.go:192-229 | a name's browse count equals the number of books its filter finds if and only if no stored byline spells it with a difference the filter does not ignore |
| AuthorIndex.BrowseAgrees | src/internal/index/queries.go:192-229 | if no two stored names differ only by case, every count equals the number of books the filter finds |
| Enrichment.Store.ApplyEnrichment | src/internal/index/enrichment.go:274-292 | a missing book changes nothing; else the row is the provider merge over what was shown, marked done |
| Enrichment.Store.SaveMetadata | src/internal/index/enrichment.go:333-341 | a missing book changes nothing; else the row is the manual merge over what was shown |
| EnrichmentLaws.GenresRoundTripIff | src/internal/index/enrichment.go:413-422 | a list reads back from the comma-separated column as written if and only if no item holds a comma and it is not one blank item |
| EnrichmentLaws.StoredGenresAreStable | src/internal/index/enrichment.go:413-422 | any stored text survives being read as a list and written back |
| EnrichmentLaws.MergesNeverBlank | src/internal/index/enrichment.go:294-371 | neither merge blanks a text that was shown |
| EnrichmentLaws.EmptyPatchIsNeutral | src/internal/index/enrichment.go:294-371 | an empty patch changes nothing, through either merge |
| EnrichmentLaws.PatchOverNothingIff | src/internal/index/enrichment.go:294-371 | a patch over nothing shows as it is, field by field, if and only if it does not carry an index without a series; both merges agree there |
| EnrichmentLaws.ProviderDiffersFromManualIff | src/internal/index/enrichment.go:255-371 | the provider merge equals the manual one if and only if it meets no series that differs by case only, no date known already and no description of substance, unless the values agree |
| EnrichmentLaws.SavesCompose | src/internal/index/enrichment.go:333-371 | two saves leave the row that one save of the later form over the earlier leaves |
| EnrichmentLaws.ApplyShowsMerge | src/internal/index/enrichment.go:274-325 | after a provider's write readers see the merge of what they saw before with the patch; genres exactly so if and only if the column can hold the patch's genres |
| EnrichmentLaws.SaveShowsMerge | src/internal/index/enrichment.go:333-371 | the same of a manual save |
| EnrichmentOutcomes.SaveShowsForm | src/internal/index/enrichment.go:327-371 | after a manual save readers see every value the form has and else what they saw before |
| EnrichmentOutcomes.StatusHidesNothing | src/internal/index/enrichment.go:110-165 | recording a status changes nothing that readers see, whether the book had an enrichment row or not |
| EnrichmentOutcomes.ApplyShowsMatch | src/internal/index/enrichment.go:233-325 | after a provider's match readers see its title, publisher, ISBN, pages and rating where it has them, its date if none was shown, its series unless the shown one differs by case only, its description only if the shown one is under 40 bytes or just the title |
| EnrichmentLaws.ApplyTwiceIsOnce | src/internal/index/enrichment.go:274-325 | applying the same patch again leaves the row as it is, whatever its genres |
| EnrichmentLaws.SaveTwiceIsOnce | src/internal/index/enrichment.go:333-371 | saving the same form again leaves the row as it is |
| EnrichmentLaws.RunStaysTidy | src/internal/index/enrichment.go:209-231 | the condition of these laws, no empty string in place of NULL, holds in every reachable state |
| EnrichmentLaws.PinnedTextsStayShown | src/internal/index/enrichment.go:209-231 | a text that a row covers can, after any writes and rescans, be neither changed nor blanked by whatever EPUB is read |
| EnrichmentLaws.WriteSurvivesRescans | src/internal/index/queries.go:22-36 | after a write any run without another write to the book still shows the written values, except texts that were blank then |
| EnrichmentLaws.SeriesPairIsMixedIff | src/internal/index/enrichment.go:209-231 | series and index shown together come from different sources if and only if the written series was blank, the EPUB now has one and its index differs from the stored one |
| EnrichmentLaws.NewSeriesShowsIndexZero | src/internal/index/enrichment.go:225-231 | a concrete match and rescan that show a new series with index 0 |
| EnrichmentQueue.BooksNeedingEnrichment | src/internal/index/enrichment.go:67-108 | the pending books of lowest id, in order, as many as the limit allows |
| EnrichmentOutcomes.PendingIff | src/internal/index/enrichment.go:62-78 | a book without a status is pending until series, date, description and publisher have come from the row or the EPUB, genres, pages, ISBN and rating from the row, and a cover; one with a status is not |
| EnrichmentQueue.ProcessChaptarrMatch | src/internal/web/enrichment_queue.go:95-135 | applies a path match, then merges a duplicate ISBN; says whether there was a match |
| EnrichmentQueue.ProcessHardcoverMatch | src/internal/web/enrichment_queue.go:137-195 | records error, no_match or the match; a candidate whose book is gone is marked error |
| EnrichmentQueue.Round | src/internal/web/enrichment_queue.go:24-92 | one round of the loop handles the batch in order when an integration is on and the snapshot is fresh, says whether it processed anything, and asks Hardcover about exactly the candidates that Chaptarr has yielded, with a fresh snapshot if Chaptarr is on |
| EnrichmentOutcomes.BatchIsRecorded | src/internal/web/enrichment_queue.go:95-195 | after a batch each candidate has the statuses its lookup earned: error or no_match from Hardcover, done with the provider's name for a match, no_match from Chaptarr before Hardcover is asked; no later candidate changes them |
| EnrichmentOutcomes.OthersAreLeftAlone | src/internal/web/enrichment_queue.go:68-92 | books outside the batch, or newer than the snapshot, keep their enrichment rows |
| EnrichmentOutcomes.RoundIsRecorded | src/internal/web/enrichment_queue.go:24-92 | with Chaptarr on a round changes nothing if the snapshot is missing or twelve hours old; a round that runs records every candidate so |
| EnrichmentOutcomes.VanishedIsRecorded | src/internal/web/enrichment_queue.go:116-179 | if a candidate's book has gone, a match of Chaptarr is passed over and one of Hardcover leaves an error |
| EnrichmentOutcomes.NoIsbnNoMerge | src/internal/web/enrichment_queue.go:129-134 | a batch whose matches bring no ISBN drops no book |
| EnrichmentProgress.RoundShrinksPending | src/internal/web/enrichment_queue.go:68-92 | no round adds a pending book, and every candidate worked on leaves the pending set |
| EnrichmentProgress.RoundProgressIff | src/internal/web/enrichment_queue.go:89-91 | the pending set shrinks if and only if the round processed something, which is when the loop does not sleep |
| EnrichmentProgress.RoundsDrain | src/internal/web/enrichment_queue.go:16-92 | k rounds with Hardcover enabled and no candidate waiting for a newer snapshot take 200 k books off the pending set or empty it |
| EnrichmentStarvation.StarvedForGood | src/internal/web/enrichment_queue.go:68-92 | a round that works on nothing repeats for ever on the same candidates until something outside changes |
| EnrichmentReach.ReachedIff | src/internal/web/enrichment_queue.go:16-92 | over rounds that run while nothing else changes, a book that an enabled integration would work on comes into a batch and is worked on if and only if fewer than 200 pending books with lower ids are ones that none works on; as many rounds as there are workable books up to it are enough |
| EnrichmentReach.ReachedWithin | src/internal/web/enrichment_queue.go:16-92 | it takes no more rounds than the workable books up to it, divided by what 200 leaves after the unworkable ones before it |
| EnrichmentReach.IsbnsStaySettled | src/internal/index/enrichment.go:209-292 | the condition of these two, a row with an ISBN has a status, holds in every run of scans, edits, resets and the queue; so a merge of duplicates drops no pending book |
| EnrichmentStarvation.ChaptarrAloneReachesIff | src/internal/web/enrichment_queue.go:68-92 | with Chaptarr alone a book in its snapshot is reached if and only if fewer than 200 pending books with lower ids are newer than the snapshot or missing from it |
| EnrichmentStarvation.BothReachIff | src/internal/web/enrichment_queue.go:68-92 | with both integrations only books newer than the snapshot count |
| EnrichmentStarvation.HardcoverAloneReaches | src/internal/web/enrichment_queue.go:68-92 | with Hardcover alone every pending book is reached |
| EnrichmentStarvation.LastBookIsReachedIff | src/internal/web/enrichment_queue.go:16-92 | of n books with different paths, only the last of which Chaptarr knows, that one is ever looked at if and only if n is at most 200 |
| EnrichmentStarvation.CrowdRounds | src/internal/web/enrichment_queue.go:16-92 | that library is reachable from the empty tables, and any number of rounds can follow |
| EnrichmentProgress.HardcoverOnlyMarksYielded | src/internal/web/enrichment_queue.go:22-92 | Hardcover leaves a mark on a book only if Chaptarr is off, or its snapshot is newer than the book and does not hold its path |
| EnrichmentProgress.EnrichedOnceBetweenResets | src/internal/index/enrichment.go:81-108 | however scans, edits and the queue interleave, the queue works on no book twice without a reset in between |
| RateLimiter.Client.Throttle | src/internal/hardcover/client.go:154-161 | a call leaves at least 1100 ms after the previous one |
| RateLimiter.RateBound | src/internal/hardcover/client.go:22-42 | for any number of callers and any interleaving, exits are 1100 ms apart and no minute, ends included, holds more than 55 |
| RateLimiter.BoundIsMet | src/internal/hardcover/client.go:40-42 | 55 exits in a minute do occur |
| FileWatcher.RootFor | src/internal/index/watch.go:136-152 | the longest configured root that contains the path, if any non-empty root does |
| FileWatcher.FilesHaveTheirOwnKeys | src/internal/index/watch.go:121 | two files share a debounce key if and only if they have the same root and path |
| FileWatcher.Watcher.Debounced | src/internal/index/watch.go:154-167 | an event stops the tracked timer unless it has fired, and tracks a new one |
| FileWatcher.OnlyEventsStop | src/internal/index/watch.go:154-160 | a timer is stopped only by a later event of its own file, while it is armed and tracked |
| FileWatcher.LastEventActs | src/internal/index/watch.go:154-167 | once the watcher is quiet and the delay is over, the last event of a file has had its action run, exactly once |
| FileWatcher.ActionWaits | src/internal/index/watch.go:16 | no event's action runs within two seconds of it |
| FileWatcher.QuietIsReached | src/internal/index/watch.go:161-166 | a run without new events holds at most as many timer steps as there is work left, and once every delay is over the watcher is quiet if and only if all of them are taken |
| FileWatcher.LastEventActsLastIff | src/internal/index/watch.go:154-167 | an event's action is sure to be the last run for its file if and only if no callback of the file is under way and no timer of the file has lost its map entry |
| FileWatcher.EarlierActionCanRunLast | src/internal/index/watch.go:161-166 | a run from the start in which the first of two events of a file has its action run last |
| FileWatcher.LostEntryIsReachable | src/internal/index/watch.go:161-166 | a run from the start after which an armed timer has lost its map entry to an earlier callback of its file |
| WatchedIndex.InStepAtRestIff | src/internal/index/watch.go:96-167 | once the watcher is at rest after a file's last event, whatever its other timers and the index's other calls did, the file is indexed if and only if it is on the disk; this is sure exactly when that event is a removal, or met no earlier removal of the file whose callback was under way or whose timer had lost its map entry |
| WatchedIndex.FileOnDiskIsLost | src/internal/index/watch.go:121-133 | a run from the start, a removal and a rewriting of a file, after which the watcher is at rest and the file is on the disk but not indexed |
| Tokens.Store.IssueTimedToken | src/internal/users/tokens.go:166-174 | stores the new token's hash and instant for an existing user and changes nothing for an unknown one |
| Tokens.Store.VerifyTimedToken | src/internal/users/tokens.go:204-227 | finds an enabled user whose stored token fits and is no older than its lifetime, or none exists |
| Tokens.Store.ConsumeTimedToken | src/internal/users/tokens.go:176-195 | sets the password and clears the token together, or changes nothing |
| Tokens.Store.RequestPasswordReset | src/internal/users/tokens.go:73-91 | a reset token is made if and only if an enabled user has the address |
| Tokens.Store.ResendInvite | src/internal/users/tokens.go:143-156 | an invite is renewed if and only if the enabled user has one pending |
| Tokens.TokensAreUnique | src/internal/users/tokens.go:166-227 | at most one token of a kind verifies for a user, and a token for at most one user and kind |
| Tokens.VerifiesIff | src/internal/users/tokens.go:166-227 | a token verifies if and only if the user is enabled and a step within its lifetime gave it, with no newer token, use or deletion since |
| Tokens.ReissueKills | src/internal/users/tokens.go:166-174 | issuing a new token ends the user's earlier one of the kind |
| Tokens.DeadForGood | src/internal/users/tokens.go:176-227 | a used, replaced or expired token never verifies again and presenting it changes no user |
| Tokens.OldTokenIsRefused | src/internal/users/tokens.go:23-30 | in any run, presenting a reset token given more than an hour ago, or an invite more than seven days ago, changes no user |
| Tokens.PresentingSetsPassword | src/internal/users/tokens.go:176-195 | presenting a token sets the password of the one user it verifies for and takes the token away, touching nothing else, or changes nothing; an empty password is refused |
| Tokens.UsedOnce | src/internal/users/tokens.go:176-195 | no token is used twice |
| Tokens.PasswordNeedsToken | src/internal/users/tokens.go:176-195 | apart from an administrator's reset, a password changes only with a token that verifies for that user |
| ShelfSlugs.SlugBase | src/internal/index/shelves.go:514-527 | the loop and the trim give the runs of letters and digits of the lowered name joined by single hyphens, or shelf when there are none |
| ShelfSlugs.BaseKeepsLetters | src/internal/index/shelves.go:516-522 | the text built holds every letter and digit of the lowered name, in order |
| ShelfSlugs.BaseSpells | src/internal/index/shelves.go:514-527 | a base holds small letters, digits and hyphens only, and of these the letters and digits of the lowered name in order; it is shelf when there are none |
| ShelfSlugs.GapsCutWords | src/internal/index/shelves.go:516-522 | runs of letters and digits with anything else between them are words of their own |
| ShelfSlugs.ItoaIsDecimal | src/internal/index/shelves.go:529-532 | suffixes are decimal numbers without leading zeros |
| ShelfSlugs.ItoaIsInjective | src/internal/index/shelves.go:529-532 | different counters give different suffixes |
| ShelfSlugs.ShelfSlug | src/internal/index/shelves.go:528-540 | the unbounded search ends within one try more than the user has slugs and answers the first free candidate, a well-formed slug |
| ShelfSlugs.Store.CreateShelf | src/internal/index/shelves.go:224-266 | the outcome by name, length, limit and name clash; a created shelf meets neither unique index |
| SnapshotCache.Client.SetCacheStore | src/internal/chaptarr/client.go:72-93 | a stored snapshot of the configured URL replaces the one in memory, and nothing else does |
| SnapshotCache.Client.SetConfig | src/internal/chaptarr/client.go:98-124 | nothing crawled from the old URL stays in memory; its row is cleared when the scope changes, and unless that fails the new URL's row comes back |
| SnapshotCache.OnlySlashesGo | src/internal/chaptarr/client.go:98-104 | a configured URL loses its trailing slashes and nothing else |
| SnapshotCache.Client.RefreshBooks | src/internal/chaptarr/client.go:391-410 | a failed crawl or save leaves the old snapshot in memory and store; else both hold the new one |
| SnapshotCache.ProvenanceHolds | src/internal/chaptarr/client.go:74-124 | in every run that changes the configuration only while no other call is under way, what is held or stored for a server was crawled from it |
| SnapshotCache.RefreshInstallsRightIff | src/internal/chaptarr/client.go:391-410 | whatever overlaps a refresh, its install keeps that if and only if the URL configured then is the one configured at its crawl |
| SnapshotCache.RefreshSavesRightIff | src/internal/chaptarr/client.go:391-410 | its save keeps that if and only if there is nothing to save for, or the URL configured when it read the scope is the one configured at its crawl |
| SnapshotCache.OverlapMixesServers | src/internal/chaptarr/client.go:391-410 | a refresh overtaken by a change of configuration holds and stores the old server's catalogue for the new one |

## Left out

- LibraryIndex.DB.UpsertIfChanged: does not model covers, `updated_at` or statement-level interleaving; one call is one step.
- LibraryIndex.DB.MergeBooks: does not model `shelf_books.added_at`, which the merge copies along.
- LibraryTables.ColumnsOf: the fallback title is lowered for ASCII only, and parsing an EPUB is a function of the file's content.
- LibraryScan.ScanIndexesDisk: stands on what the walk found; files below a directory that cannot be read count as not found.
- LibraryIndex.DB.RowsByTitle: stands for the SQL query with its ORDER BY; the SQL engine is not modelled.
- TaskProtocol.RunsAreExclusive: leaves out direct runs, which do not look for an active row; `TaskProtocol.DirectRunIsExclusiveIff` says when they break the rule.
- LibraryExactness.OneScanIsExactIff: does not say when a new file attaches to a lost book; which of several rows of one title the source's unordered query returns is left open.
- TaskWakeup.NoWakeupIsLost: is about one worker, as the program starts, and claim queries that do not fail.
- TaskWakeup.ClaimComesSoon: counts steps between claims; that the scheduler keeps running the worker is not part of the model.
- AuthorIndex.ListAuthors: does not model the order of the listing or the filters that hide unmatched books.
- AuthorFilter.Like: strings without NUL, compared character by character; no Unicode normalisation.
- Enrichment.EqualFold: case folding of single characters, given as a parameter.
- Enrichment.Written: series index and rating are reals; float rounding is not modelled.
- EnrichmentQueue.Round: settings, snapshot and answers are fixed for the round; the match heuristics of both services are functions of the candidate, and cover downloads are left out.
- EnrichmentQueue.MergeDuplicateISBN: only which book disappears; the merge itself is in `LibraryIndex`.
- EnrichmentReach.ReachedIff: settings, snapshot and answers stay as they are over the rounds; no book is added, edited or rescanned between them; which book a merge of duplicate ISBNs drops is a parameter that names a row with an ISBN.
- WatchedIndex.InStepAtRestIff: an action is one step, and other calls on the same file, such as a scan's, come before its last event.
- RateLimiter.RateBound: bounds the exits from throttle; a caller may send its request any time after its exit.
- FileWatcher.LastEventActs: the action is one step; events that a full kernel queue drops are never seen.
- Tokens.VerifiesIff: bookmark tokens, roles and e-mail changes are left out.
- ShelfSlugs.Store.CreateShelf: renaming, sharing and deleting shelves are left out.
- SnapshotCache.ProvenanceHolds: a crawl reads the configuration once; the time at which a snapshot expires is part of `EnrichmentQueue` only.
- HTTP handlers, templates, the browser code and the command-line scripts.
- Reading EPUB archives, XML and images, KEPUB conversion, mail, and the GraphQL and REST transports.
- Settings, roles, permission look-ups and schema migrations: facts of one branch each.
