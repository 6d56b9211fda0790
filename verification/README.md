# Verified model of the election-nomination core

A Dafny model of the parts of an election-nomination system where a mistake is hard to see: the
optimistic write protocol with its limits, the CSV bounds check and the export/import round trip, the
established lists and the documents of the central electoral committee, the single-use store of pending
login requests, the session store, and three small text cores (endpoint hosts, PEM wrapping, letter
numbering). `dafny verify dfyconfig.toml` checks everything.

## How the model is laid out

| file | what it holds |
|---|---|
| `Sequences.dfy`, `Ordering.dfy`, `Grouping.dfy` | filters, the stable sort and why it is unique, rows per person, a map kept in label order |
| `RateLimits.dfy`, `OptimisticWrites.dfy` | limits over a log in time order; the write protocol as interleaved steps of any number of processes, handles and writes |
| `CsvRecords.dfy`, `CsvExport.dfy`, `CsvImport.dfy` | the record grammar and the single-pass scanner; escaping, printing, parsing; reading an upload |
| `Nominations.dfy`, `EstablishedLists.dfy`, `Publications.dfy` | what omissions scrap; sets of equal lists; the I 4 and the publication |
| `DistrictLabels.dfy`, `OmissionLetter.dfy`, `RemovedCandidates.dfy` | district labels, the sections of the omission letter, the removed candidates |
| `PendingRequests.dfy`, `Sessions.dfy` | the two stores, each in memory and as a table |
| `EndpointUrl.dfy`, `Pem.dfy`, `UpperAlpha.dfy` | hosts and domains, certificates as text, letter numbering |

Code that changes state in place is a class or a method with loops, proved against a function of the old
state; the laws are lemmas about that function over every input or every run. A protocol or a store is a
function `Do`/`After`/`Execute` over operations and its laws quantify over every sequence of operations.

Clock readings, fresh tokens and decoded values are parameters. Integers are unbounded where the source's
width cannot be reached and saturate explicitly where it can (the set number, the window start, the
position of an unknown candidate or group).

## Findings

- The documentation of the error `RecordTooWide` speaks of 64 fields or more; the code refuses a record
  with 64 separators, so 65 fields or more. The model follows the code (src/core/csv.rs:348-417).
- Export followed by import is not always the identity. `CsvExport.ExportImportRoundTrip` proves exactly
  when it is: the header has at most 64 fields and 4096 bytes, and no row opens with a byte-order mark in
  an unquoted first cell. Such a row goes through the staging reader of `write_record_safely`, which takes
  the mark for its own and drops it (src/core/csv.rs:253-273); `CsvExport.MarkIsLost` is such a row. This
  is a property of the generic writer. The one export there is, that of a candidate list, opens with the
  initials (src/pg/candidate_lists/candidate_record.rs:65-66), and an initial is alphanumeric
  (src/structs/common/initials.rs:93-95), so no validated candidate loses anything.
- The two pending-request stores differ for an id presented at exactly the time-to-live: the table grants
  it, the memory does not (`PendingRequests.StoresAgreeButAtTheLimit`, and `PendingRequests.LimitShows` at
  an input).
- The documentation of the sweep promises that when it runs never affects whether an expired id can match
  (auth-service/src/pending.rs:54-60). That holds in every run (`PendingRequests.GrantedIsFresh`), but a
  sweep can cost an id that is not expired. `PendingRequests.GrantedUnlessSwept` proves for every run when:
  an id that a store without sweeps would grant is refused exactly when a call that found the map large, at
  a reading by which the id had expired, took the lock before this one. The clock is read before the lock is
  taken, so a later reading can get the lock first; `PendingRequests.RaceForTheLockShows` is such a race,
  of one millisecond. Without a later reading before it no consume sees a difference
  (`PendingRequests.SweepingIsInvisible`).
- The two session stores differ for a session in its last second at cleanup: the memory removes it, the
  table keeps it and a touch under way revives it (`Sessions.CleanupsAgree`, `Sessions.LastSecondShows`).
  They hold the same sessions throughout a run exactly when no cleanup meets such a session and no insert
  replaces a session of another creation time or agent (`Sessions.BackendsAgree`).
- The I 4 and the publication agree on a district exactly when no group that the list order leaves out has
  a valid list there; the I 4 prints such lists behind the others (`Publications.AgreementMeansNothingLeftOut`,
  and `Publications.LeftOutGroupShows` at two groups).
- The label of an omission is documented as one per set of districts (src/models/csb_model_inputs.rs:113-119).
  Collected districts come once each, and then it is (`DistrictLabels.OneLabelPerSet`, for titles without a
  closing parenthesis). A declaration of support is labelled with its districts as they were submitted
  (src/models/csb_model_inputs.rs:677), and the form takes those as they come
  (src/csb/examination/pages/omission/mod.rs:275), so a district can be named twice. Next to naming each
  once, that shows exactly when not all districts of the election are covered
  (`DistrictLabels.RepetitionShowsUnlessCovered`, and `DistrictLabels.NamedTwiceShows` at an input).
- A row that fails to decode is reported under its ordinal (src/core/csv.rs:463-469), a record that is too
  wide under the line it starts on (src/core/csv.rs:388-397). `CsvImport.LinesAgreeWhenBalanced` proves when
  the two agree on a record; with line feeds alone, exactly when no blank line and no quoted line break comes
  before it (`CsvImport.LinesAgreeWithoutSurprises`, and `CsvImport.BlankLineShows` at an input).
- A request that the table refuses for its age stays in the table and can be granted to a later call with an
  earlier reading, which the memory never does (`PendingRequests.RefusedRowIsGrantedLater`). What the table
  answers for readings in any order is `PendingRequests.TableGrantsUnlessGone`.

## Model

| member | source | states |
|---|---|---|
| `RateLimits.PartitionPointSplits` | src/projection/pg_store.rs:142-196 | where no entry created at or before the window start stands behind one created after it, the binary search finds the boundary |
| `RateLimits.WindowIsFilter` | src/projection/pg_store.rs:142-196 | the counted tail of the log equals the filter "created after the start of the window" if and only if no entry created at or before that start stands behind one created after it |
| `RateLimits.WindowIsFilterInOrder` | src/projection/pg_store.rs:142-196 | on a log in time order the counted tail is always that filter |
| `RateLimits.CheckLimitsMeans` | src/projection/pg_store.rs:142-196 | on a log in time order: refuses exactly when the total is reached, as many entries as allowed were created within the window, or for a download as many downloads; which of these is reported when several hold; a maximum of zero never refuses |
| `RateLimits.SpacedBoundsEveryWindow` | src/core/rate_limit.rs:30-51 | when entries `max` apart lie a window apart, no half-open window holds more than `max` entries |
| `RateLimits.AcceptedKeepsSpacing` | src/projection/pg_store.rs:142-196 | an entry the event check lets through keeps that spacing |
| `RateLimits.DownloadsKeepSpacing` | src/projection/pg_store.rs:142-196 | the same for downloads among other events, which are checked on downloads only |
| `RateLimits.ReadingsOutOfOrderShow` | src/projection/pg_store.rs:142-196 | a log that violates that condition: four events that each pass the check on the log before them, and a window with three where two are allowed |
| `RateLimits.AcceptedKeepsCaps` | src/projection/pg_store.rs:203-231 | an accepted event takes no collection past its cap, and one already past it never grows |
| `RateLimits.CheckCollectionLimitsMeans` | src/projection/pg_store.rs:203-231 | refuses exactly an event that creates persons, a list or a substitute past its cap; every other event passes, so a full stream stays editable |
| `RateLimits.ReplayMeans` | src/projection/pg_data/event.rs:125-136 | a person or list is held exactly when some event created it and none deleted it since |
| `RateLimits.ReplaySubstitutes` | src/projection/pg_data/event.rs:125-136 | substitutes are held in order of creation, each creation that was not deleted since once |
| `OptimisticWrites.StepKeepsInv` | src/projection/pg_store.rs:103-126 | every step of every write, handle and process keeps the protocol invariant |
| `OptimisticWrites.RunKeepsInv` | src/projection/pg_store.rs:63-126 | the invariant holds after every interleaving from a stream with any history |
| `OptimisticWrites.AcceptedPassedOnItsOwnLog` | src/projection/pg_store.rs:103-112 | in every interleaving an accepted event passed both checks against exactly the log it is appended to, and takes the next event id |
| `OptimisticWrites.LogIsHistoryPlusAccepted` | src/store/persistence.rs:332-395 | the log is the history followed by the accepted events in order: none lost, repeated or reordered |
| `OptimisticWrites.SeenNeverPassesTheLog` | src/projection/pg_store.rs:103-112 | `seen_event_id` never exceeds the last event id, also with clones sharing the cell |
| `OptimisticWrites.NothingMovesBack` | src/projection/pg_store.rs:103-112 | the log only grows and no seen cell ever moves back |
| `OptimisticWrites.AcceptedWritesHaveDistinctPredecessors` | src/store/database.rs:361-477 | no two accepted writes of a run were decided on the same predecessor |
| `OptimisticWrites.StaleHandleNeverWrites` | src/projection/pg_store.rs:103-112 | a handle the stream moved past never gets a write accepted again |
| `OptimisticWrites.SoloWriteLands` | src/projection/pg_store.rs:103-112 | an up-to-date handle whose checks pass lands its write when nothing intervenes and is up to date again |
| `OptimisticWrites.OwnRemembersTheProjection` | src/projection/pg_store.rs:63-71 | a handle remembers exactly the last event of the projection it was taken of |
| `OptimisticWrites.OwnedHandleIsCurrent` | src/projection/pg_store.rs:63-71 | a process that starts, catches up and takes a handle is up to date, and nothing else has changed |
| `OptimisticWrites.RefusedCheckEndsTheWrite` | src/projection/pg_store.rs:103-112 | a check that refuses ends the write and changes nothing else |
| `OptimisticWrites.RefusedCommitCatchesUp` | src/store/persistence.rs:332-395 | a commit on a stream that has moved appends nothing, catches the projection up and ends the write |
| `OptimisticWrites.LimitsHoldInEveryRun` | src/projection/pg_store.rs:142-231 | over every run from an empty stream with one set of limits, no window holds more events or downloads than its maximum, the log keeps its total and persons, lists and substitutes keep their caps |
| `CsvRecords.CheckRecordBounds` | src/core/csv.rs:348-417 | accepts exactly when no record of the grammar offends; otherwise reports the first that does, with one plus the line feeds before it as its line |
| `CsvRecords.ScanRecords` | src/core/csv.rs:348-417 | the single pass over the bytes agrees with the record-by-record check |
| `CsvRecords.VerdictMeaning` | src/core/csv.rs:348-417 | the record-by-record check means: none offends, or this is the first that does and this is its error |
| `CsvRecords.RecordsTile` | src/core/csv.rs:348-417 | the records of the grammar cover the data without gap or overlap, each ended by a line break |
| `CsvExport.UnescapeUndoesEscape` | src/core/csv.rs:277-306 | import undoes the formula escape on every cell |
| `CsvExport.UnescapeStripsOnlyEscapes` | src/core/csv.rs:286-300 | an apostrophe is stripped if and only if the escape of some cell put it there |
| `CsvExport.TownKeepsItsApostrophe` | src/core/csv.rs:286-300 | a name that starts with an apostrophe and an s comes in as it is |
| `CsvExport.EscapedIsNoFormula` | src/core/csv.rs:277-306 | no exported cell starts with a formula character, and nothing is put in front of other cells |
| `CsvExport.TrimMeans` | src/core/csv.rs:318-330 | trimming takes white space off both ends, all of it and nothing else |
| `CsvExport.EscapedStaysTrimmed` | src/core/csv.rs:277-330 | escaping a trimmed cell leaves nothing to trim |
| `CsvExport.PrintedFieldsAreRead` | src/core/csv.rs:253-273 | a printed record of n fields is one record with n - 1 separators whatever its cells contain, and its fields are read back |
| `CsvExport.TextBehindQuotesIsRead` | src/core/csv.rs:318-330 | text between a closing quote and the end of the field belongs to the field |
| `CsvExport.PrintedRecordsAreRead` | src/core/csv.rs:214-242 | what was printed record by record is read back row by row |
| `CsvExport.StagingKeepsRow` | src/core/csv.rs:253-273 | the staging writer and reader keep a row but for a byte-order mark it opens with unquoted |
| `CsvExport.DelimiterIsDetected` | src/core/csv.rs:333-435 | the delimiter of an export with two or more names is found again |
| `CsvExport.DelimiterMeans` | src/core/csv.rs:427-435 | the delimiter is a semicolon if and only if more semicolons than commas stand before the first line feed, and otherwise a comma |
| `CsvExport.SingleColumnReadsWithComma` | src/core/csv.rs:427-435 | a single column has no separator to count, so the reader falls back to the comma |
| `CsvExport.PrintedFilePasses` | src/core/csv.rs:348-417 | the bounds check passes an export exactly when its header fits |
| `CsvExport.ReadBack` | src/core/csv.rs:318-330 | reading an export gives the header and the written rows, trimmed, or refuses an oversized header |
| `CsvExport.PrintedFileIsRead` | src/core/csv.rs:318-435 | a file printed with either delimiter, with or without a mark, under two or more names is read back as header and rows, trimmed, or refused for its header |
| `CsvExport.ExportImportRoundTrip` | src/core/csv.rs:214-478 | for rows of trimmed cells under two or more plain names, export then import is the identity if and only if the header fits and no row loses a byte-order mark |
| `CsvExport.MarkIsLost` | src/core/csv.rs:253-273 | a header and a row whose first cell opens with the mark: it comes back without it |
| `CsvImport.FromBytes` | src/core/csv.rs:442-478 | reports on the shortest prefix of rows at which reading stops: all records, or the failed lines, capped, with the final error that says so |
| `CsvImport.ReadRows` | src/core/csv.rs:452-478 | the loop over the rows does the same below a header |
| `CsvImport.ReportMeans` | src/core/csv.rs:452-478 | a report is a success if and only if no row fails, and then holds what each row decodes to, in order |
| `CsvImport.FailedLinesMeans` | src/core/csv.rs:452-469 | a line is reported if and only if its row is not as wide as the header or its unescaped cells do not decode, by its ordinal |
| `CsvImport.RowIsRecord` | src/core/csv.rs:442-478 | rows are the records that are not blank, in order |
| `CsvImport.LinesAgreeWhenBalanced` | src/core/csv.rs:388-469 | the reported ordinal is the line the record starts on if and only if the records before it take as many lines as there are rows among them |
| `CsvImport.LinesAgreeWithoutSurprises` | src/core/csv.rs:388-469 | with line feeds alone, if and only if every record before it is one line that is not blank |
| `CsvImport.BlankLineShows` | src/core/csv.rs:388-469 | behind a blank line, the record on the third line is reported under the second |
| `CsvImport.ImportExported` | src/core/csv.rs:442-478 | reading an export that round-trips, with room for its rows, answers with exactly those rows |
| `Nominations.ValidListsByDistrict` | src/models/csb_model_inputs.rs:612-629 | the loop over lists and districts gives the valid pairs in order |
| `Nominations.ValidPairsMembers` | src/projection/csb_data/scrapped.rs:68-165 | a pair is there exactly when list and district both stand |
| `Nominations.DeriveScrapped` | src/projection/csb_data/scrapped.rs:68-165 | going through omissions and lists fills sets that hold exactly what is scrapped: districts, lists, candidates, the appellation and the omissions that cause it |
| `EstablishedLists.NewListSets` | src/models/established_lists.rs:30-61 | the loop with its running, saturating number gives the numbered sets |
| `EstablishedLists.FromLists` | src/models/established_lists.rs:149-173 | batching the lists by candidates gives the established lists |
| `EstablishedLists.SetsAreRight` | src/models/established_lists.rs:30-61 | the sets are the classes of equal candidate sequences, each in region order, ascending by lowest region, covering every established district |
| `EstablishedLists.SetsAreUnique` | src/models/established_lists.rs:30-61 | that description leaves one possibility |
| `EstablishedLists.SetsIgnoreListOrder` | src/models/established_lists.rs:149-173 | sets and numbers are the same for every permutation of the lists |
| `EstablishedLists.SameSetMeansEqualCandidates` | src/models/established_lists.rs:149-173 | two districts are in the same set if and only if their candidate sequences are equal, and none is in two sets |
| `EstablishedLists.NumbersAscend` | src/models/established_lists.rs:46-61 | numbers ascend with the sets, and single-district sets have none |
| `EstablishedLists.NumbersAreOneToCount` | src/models/established_lists.rs:46-61 | the numbers in use are exactly 1 to the number of multi-district sets |
| `EstablishedLists.LookupFindsTheSet` | src/models/established_lists.rs:75-91 | looking up established districts finds the same set exactly for equal candidates |
| `EstablishedLists.NumbersSayWhichListsAreEqual` | src/models/established_lists.rs:80-91 | two districts have the same set number if and only if their candidates are equal and the set spans several districts; a district alone has none |
| `EstablishedLists.ContainsMeansEstablished` | src/models/established_lists.rs:75-78 | `contains` holds exactly for established districts |
| `EstablishedLists.TypeSaysHowListsCompare` | src/models/established_lists.rs:67-73 | stand-alone, set of equal lists or group of lists exactly when one district, several equal ones, or two that differ are established |
| `EstablishedLists.NewEstablishedLists` | src/models/established_lists.rs:129-147 | for a group whose regions tell its districts apart: nothing exactly when no district is established, otherwise its lists with the sets of equal lists, numbered |
| `EstablishedLists.EstablishedListIsFirst` | src/models/established_lists.rs:129-186 | the list of a district is the first created list of the group that is valid there and has a candidate left, and there is none exactly when no list is |
| `EstablishedLists.FirstPairIsFirstCreated` | src/models/csb_model_inputs.rs:612-629 | the valid pairs come in order of creation: the first pair of a district with a candidate left is that of the first created list |
| `EstablishedLists.EstablishedIsRight` | src/models/established_lists.rs:129-173 | from a group to its sets: what is established meets the description of the sets of equal lists |
| `EstablishedLists.EstablishedOnePerDistrict` | src/models/established_lists.rs:129-147 | each district is established once, with the remaining candidates of a list valid there |
| `Publications.CandidateHasOneClass` | src/models/csb_model_inputs.rs:586-646 | every candidate of a list in a district is in exactly one class: list or district gone, scrapped from a list valid there, or printed |
| `Publications.CandidateIsScrappedOrPrinted` | src/models/csb_model_inputs.rs:632-646 | a candidate who stays is printed at the own position, positions run from one without gap and keep the order of the list |
| `Publications.PrintedIsNotScrapped` | src/models/csb_model_inputs.rs:632-646 | each printed row is a candidate of the list who is not scrapped |
| `Publications.ListsInMeans` | src/models/csb_model_inputs.rs:586-646 | what a group prints in a district is exactly its lists valid there, as they are to be printed, in order of creation |
| `Publications.ReadableMeans` | src/models/csb_model_inputs.rs:632-646 | a group can be printed if and only if every remaining candidate of a list valid somewhere is known |
| `Publications.PrintedMeansOnTheDocument` | src/models/csb_model_inputs.rs:586-646 | a candidate who stays on a list valid in a district stands on a list printed there, under the own number, and nobody else does |
| `Publications.I4ValidLists` | src/models/csb_model_inputs.rs:236-301 | the map filled in store order and sorted by group position holds for each district exactly the lists valid there, each with its group's appellation and its remaining candidates numbered from one |
| `Publications.PublishedListsByDistrict` | src/models/csb_model_inputs.rs:372-406 | numbers ascend, and under each number stands what the group at that place prints: its valid lists in order of creation with their own remaining candidates; or the failure of the first group that has one |
| `Publications.GroupFailureMeans` | src/models/csb_model_inputs.rs:372-406 | a group stops the publication exactly when it was not examined, a person to be printed is unknown, or a list is valid outside the election |
| `Publications.I4IsPublicationThenUnlisted` | src/models/csb_model_inputs.rs:236-406 | the I 4 of a district is its publication followed by the lists of the groups the order leaves out |
| `Publications.I4AgreesWithPublication` | src/models/csb_model_inputs.rs:236-406 | when the order lists every examined group once, both print the same lists with the same rows |
| `Publications.AgreementMeansNothingLeftOut` | src/models/csb_model_inputs.rs:236-406 | they agree on a district if and only if no left-out group has a valid list there |
| `Publications.BothViews` | src/models/csb_model_inputs.rs:236-406 | the two maps as computed: the I 4 holds what was published and then what the order leaves out, and a publication over an order of all groups is the I 4 |
| `Publications.LeftOutGroupShows` | src/models/csb_model_inputs.rs:236-406 | two groups and an order that omits one, where the views differ |
| `DistrictLabels.CollectDistricts` | src/models/csb_model_inputs.rs:683-710 | the loop over lists and districts collects the chosen districts |
| `DistrictLabels.CollectsEachOnce` | src/models/csb_model_inputs.rs:683-710 | each district of the chosen lists is collected exactly once |
| `DistrictLabels.AllDistrictsMeansCovered` | src/models/csb_model_inputs.rs:712-725 | the label of all districts is written exactly for no districts or all of them |
| `DistrictLabels.LabelIgnoresOrder` | src/models/csb_model_inputs.rs:712-725 | the label does not depend on the order in which districts come, also when one is named twice |
| `DistrictLabels.LabelIsForASet` | src/models/csb_model_inputs.rs:683-725 | two collections of the same districts that each name none twice have the same label |
| `DistrictLabels.RepetitionShowsUnlessCovered` | src/models/csb_model_inputs.rs:677-725 | a label equals that of the same districts named once each if and only if all districts are covered or none is named twice |
| `DistrictLabels.LabelTellsDistricts` | src/models/csb_model_inputs.rs:712-725 | for titles without a closing parenthesis, two labels are equal if and only if both stand for all districts or for the same districts named equally often |
| `DistrictLabels.OneLabelPerSet` | src/models/csb_model_inputs.rs:113-119 | where none is named twice, two labels are equal if and only if both stand for all districts or for the same set |
| `DistrictLabels.NamedTwiceShows` | src/models/csb_model_inputs.rs:663-725 | at an input that leaves a district uncovered: naming a district twice gives another label than naming it once |
| `DistrictLabels.ElectoralDistrict` | src/models/csb_model_inputs.rs:663-681 | the label of an omission, or none when it names an unknown list |
| `DistrictLabels.LabelMeans` | src/models/csb_model_inputs.rs:663-710 | the group's omissions are labelled with the districts of all its lists, those about lists or candidates with the districts of the lists named, declarations of support with their own |
| `DistrictLabels.LabelAsDocumented` | src/models/csb_model_inputs.rs:711-725 | the label of the documentation's example |
| `OmissionLetter.ReadingOrderIgnoresStoreOrder` | src/models/csb_model_inputs.rs:417-450 | the reading order does not depend on the order in which the omissions come out of their map |
| `OmissionLetter.SortedOmissionsAreInReadingOrder` | src/models/csb_model_inputs.rs:417-440 | all omissions, the group first, then declarations of support, lists and candidates; candidates by position; within a place by time and id |
| `OmissionLetter.CandidatePositionMeans` | src/models/csb_model_inputs.rs:441-450 | the position is that of the person's first mention on the first list named |
| `OmissionLetter.FailureMeans` | src/models/csb_model_inputs.rs:138-151 | an omission cannot be put in the letter if and only if it names a list or a person the group does not have |
| `OmissionLetter.OmissionLetterSections` | src/models/csb_model_inputs.rs:120-166 | succeeds exactly when every recoverable omission names known lists and a known person; then each of those is in the letter exactly once and no other, in sections of exactly the omissions with their label, the one of all districts first and the rest strictly ascending; otherwise the failure is that of the first in letter order |
| `OmissionLetter.AddOmission` | src/models/csb_model_inputs.rs:138-151 | one omission goes to the section of its label, or fails |
| `OmissionLetter.FoldIsSection` | src/models/csb_model_inputs.rs:168-204 | a section grown one omission at a time holds the plain ones in order and a row per candidate |
| `OmissionLetter.SupportComesLast` | src/models/csb_model_inputs.rs:124-136 | the plain bullets are the others in reading order, then the declarations of support in reading order |
| `OmissionLetter.BulletsInThreeBlocks` | src/models/csb_model_inputs.rs:113-136 | the plain bullets are those about the group, then those about its lists, then the declarations of support |
| `OmissionLetter.BlocksAreInReadingOrder` | src/models/csb_model_inputs.rs:424-440 | within a block the older comes first |
| `OmissionLetter.OneHeadingPerCandidate` | src/models/csb_model_inputs.rs:168-203 | each candidate with an omission in the section has one heading with all of those omissions in order |
| `OmissionLetter.HeadingMeans` | src/models/csb_model_inputs.rs:178-203 | a heading has the candidate's name and the position on the first list of the first omission |
| `OmissionLetter.HeadingsAscend` | src/models/csb_model_inputs.rs:424-450 | headings ascend by position on the list |
| `OmissionLetter.UnknownPositionsLast` | src/models/csb_model_inputs.rs:424-450 | candidates without a position come behind those with one |
| `RemovedCandidates.ValidDistrictsWithCandidate` | src/models/csb_model_inputs.rs:528-547 | the loop collects the districts, or fails on an unknown list |
| `RemovedCandidates.ValidDistrictsMeans` | src/models/csb_model_inputs.rs:528-547 | exactly the districts where a named list is valid and carries the person, each once |
| `RemovedCandidates.CollectRemoved` | src/models/csb_model_inputs.rs:481-525 | succeeds exactly when nothing needed is unknown; each reported omission then contributes exactly one reason |
| `RemovedCandidates.RowsPerLabel` | src/models/csb_model_inputs.rs:494-525 | labels ascend strictly; under each, one row per person with every reason of that label in reading order |
| `RemovedCandidates.RowLabelMeans` | src/models/csb_model_inputs.rs:494-503 | a row stands under the districts where a list that the omission names is valid and carries the person |
| `RemovedCandidates.RowCarriesTheName` | src/models/csb_model_inputs.rs:505-516 | a row carries the name of its person |
| `RemovedCandidates.RowFailureMeans` | src/models/csb_model_inputs.rs:488-516 | the table fails if and only if an unresolved candidate omission names an unknown list, or is to be reported of an unknown person |
| `RemovedCandidates.RowMeansRemoved` | src/models/csb_model_inputs.rs:481-547 | a person has a row if and only if scrapped from a list that carries the person and stays valid somewhere |
| `PendingRequests.PendingStore.SweepIfLarge` | auth-service/src/pending.rs:46-52 | sweeps exactly when the map has 1024 entries and its mark; then drops the expired entries and no others and doubles the mark to the rest |
| `PendingRequests.PendingStore.RegisterRequest` | auth-service/src/pending.rs:81-87 | one register step of the store: the id is there since now, other entries stay unless expired |
| `PendingRequests.PendingStore.ConsumeIfPending` | auth-service/src/pending.rs:96-104 | one consume step: granted exactly for an entry that is there and not expired, gone either way |
| `PendingRequests.GrantedAtMostRegistered` | auth-service/src/pending.rs:81-104 | in every run, whatever the clock, an id is granted at most as often as it was registered |
| `PendingRequests.GrantedIsFresh` | auth-service/src/pending.rs:66-104 | a grant goes to an outstanding id younger than the time-to-live |
| `PendingRequests.HeldUnlessSwept` | auth-service/src/pending.rs:46-104 | in every run the map holds exactly the outstanding ids no sweep has met after they expired |
| `PendingRequests.GrantedUnlessSwept` | auth-service/src/pending.rs:46-104 | in every run, whatever the clock, an id is granted if and only if a store that never sweeps would grant it and no sweep has met it after it expired |
| `PendingRequests.SweepingIsInvisible` | auth-service/src/pending.rs:46-104 | with no reading before it later than its own, a consume is answered as by a store that never sweeps |
| `PendingRequests.RaceForTheLockShows` | auth-service/src/pending.rs:81-104 | a race of one millisecond for the lock in which a sweep does show |
| `PendingRequests.StepIsPaid` | auth-service/src/pending.rs:39-52 | what a step's sweep visits is paid from the potential and at most two per registration |
| `PendingRequests.SweepsAreAmortised` | auth-service/src/pending.rs:31-104 | over every run sweeps visit at most twice the registrations, and the map never exceeds the larger of the sweep mark and the threshold |
| `PendingRequests.PendingTable.RegisterRequest` | src/auth/pending_request_db.rs:17-34 | the delete and the upsert on the table; only rows before the cutoff are lost |
| `PendingRequests.PendingTable.ConsumeIfPending` | src/auth/pending_request_db.rs:36-49 | the delete that returns: grants and removes the row, or changes nothing |
| `PendingRequests.TableGrantsOutstanding` | src/auth/pending_request_db.rs:12-49 | with readings in order the table grants exactly the outstanding ids not older than the time-to-live |
| `PendingRequests.TableGrantsUnlessGone` | src/auth/pending_request_db.rs:12-49 | for every sequence of statements, whatever the clock, the table grants an id if and only if its last registration is not past the cutoff and its row was not deleted since |
| `PendingRequests.RefusedRowIsGrantedLater` | src/auth/pending_request_db.rs:36-49 | a row refused for its age is granted to a later call with an earlier reading; the memory refuses both |
| `PendingRequests.TableGrantsAtMostRegistered` | src/auth/pending_request_db.rs:17-49 | single use on the table, however the statements of callers interleave |
| `PendingRequests.StoresAgreeButAtTheLimit` | src/auth/pending_request_db.rs:12-49 | the two stores differ exactly for an id presented at the time-to-live itself |
| `PendingRequests.LimitShows` | src/auth/pending_request_db.rs:12-49 | registered at zero and presented at the time-to-live, an id is granted by the table and refused by the memory |
| `Sessions.LiveMeansASecondLeft` | src/auth/session.rs:261-287 | a session is live exactly while a whole second is left before both deadlines |
| `Sessions.RemainingSecondsFit` | src/auth/session.rs:276-287 | the remaining seconds are as many as fit before both deadlines |
| `Sessions.ExtendableMeansActivityHelps` | src/auth/session.rs:276-287 | `extendable` is set exactly when the session is live and later activity moves its deadline |
| `Sessions.SessionStore.GetSession` | src/auth/session_store.rs:61-72 | hands out a session with a second left before both deadlines, drops an expired one, leaves the others |
| `Sessions.SessionStore.InsertSession` | src/auth/session_store.rs:84-98 | stores the session and leaves the others |
| `Sessions.SessionStore.ChangeLocale` | src/auth/session_store.rs:102-118 | changes the locale only, or reports a conflict |
| `Sessions.SessionStore.ChangeElection` | src/auth/session_store.rs:120-150 | a success is the old session with the given election and the renewed token and nothing else changed, on a matching token; anything else changes nothing |
| `Sessions.SessionStore.ChangePaperStream` | src/auth/session_store.rs:152-182 | the same for the paper stream of a committee member |
| `Sessions.SessionStore.TouchSession` | src/auth/session_store.rs:186-202 | moves the activity forward, never back, and revives nothing |
| `Sessions.SessionStore.RemoveSession` | src/auth/session_store.rs:207-214 | the session is gone and handed back, the others stay |
| `Sessions.SessionStore.CleanupExpired` | src/auth/session_store.rs:230-243 | removes the expired sessions and nothing else |
| `Sessions.SessionTable.UpsertRow` | src/auth/session_db.rs:34-58 | the upsert on the table |
| `Sessions.SessionTable.UpdateLocale` | src/auth/session_db.rs:114-127 | changes the locale only, or reports a conflict |
| `Sessions.SessionTable.UpdateElection` | src/auth/session_db.rs:129-151 | the guarded update stores the election and the token and nothing else, or reports a conflict |
| `Sessions.SessionTable.UpdatePaperStream` | src/auth/session_db.rs:153-185 | the same for the paper stream |
| `Sessions.SessionTable.TouchRow` | src/auth/session_db.rs:187-198 | the greatest of both activities |
| `Sessions.SessionTable.DeleteRow` | src/auth/session_db.rs:211-220 | the row is gone and handed back, the others stay |
| `Sessions.SessionTable.DeleteExpired` | src/auth/session_db.rs:255-265 | deletes the rows past either cutoff, all of them expired, and leaves the others |
| `Sessions.LogoutIsTerminal` | src/auth/session_store.rs:207-214 | after a removal no operations make the session readable again without an insert, on either backend |
| `Sessions.FoundHasASecondLeft` | src/auth/session_store.rs:61-72 | what a lookup returns has a whole second left before both deadlines |
| `Sessions.SessionOnlyMovesForward` | src/auth/session_store.rs:102-202 | between inserts role, stream or member, creation time and agent stay and the activity never decreases |
| `Sessions.OnlySwitchesChangeContext` | src/auth/session_store.rs:102-202 | locale, touch, lookup and cleanup never undo or forge a switch |
| `Sessions.OneSwitchPerToken` | src/auth/session_store.rs:120-182 | with tokens that never repeat, at most one switch of a run succeeds per token |
| `Sessions.SwitchAnswersDone` | src/auth/session_store.rs:120-182 | a switch succeeds if and only if the session is there, the token is current and the role fits |
| `Sessions.ContextIsThatOfTheLastSwitch` | src/auth/session_store.rs:84-182 | over every run, on either backend, a session has the election or paper stream of its last successful switch, or of its insert when there was none |
| `Sessions.CleanupRemovesOnlyRefused` | src/auth/session_store.rs:230-243 | cleanup removes only sessions a lookup would refuse; which ones, on each backend |
| `Sessions.CleanupsAgree` | src/auth/session_db.rs:255-265 | the backends' cleanups agree if and only if no session is in its last second |
| `Sessions.BackendsAgree` | src/auth/session_db.rs:34-265 | the backends hold the same sessions after every prefix of a run if and only if no cleanup meets a session in its last second and no insert replaces one of another creation time or agent |
| `Sessions.AnswersDifferOnlyForWrongRole` | src/auth/session_db.rs:129-185 | on the same sessions the answers differ exactly for a matching token of the wrong role |
| `Sessions.LastSecondShows` | src/auth/session_db.rs:187-265 | the last second makes a difference: a touched session lives on in the table only |
| `EndpointUrl.HostIsTheDecomposition` | auth-service/src/types.rs:204-227 | the host is h exactly when the URL is a scheme, h, an optional numeric port and a rest that is empty or opens a path, query or fragment, with h a dotted name whose last label is not all digits |
| `EndpointUrl.DecompositionIsUnique` | auth-service/src/types.rs:204-227 | a URL is taken apart in one way only: scheme, host, port and rest are all fixed |
| `EndpointUrl.DnsNameMeans` | auth-service/src/types.rs:219-226 | a host name is letters, digits, hyphens and dots, with no dot at either end or next to another and something that is not a digit behind the last dot |
| `EndpointUrl.JoinUndoesSplit` | auth-service/src/types.rs:204-227 | labels hold no dot and joined by dots give the name back |
| `EndpointUrl.DomainIsALabelSuffix` | auth-service/src/types.rs:179-199 | the domain check accepts exactly the hosts whose lowered labels end in those of the domain |
| `EndpointUrl.LowerIgnoresCaseOnly` | auth-service/src/types.rs:179-199 | two names are compared as equal if and only if they differ in the case of the letters A to Z only |
| `EndpointUrl.LowerKeepsLabels` | auth-service/src/types.rs:179-199 | lowering a name lowers each label, so the comparison is label by label |
| `Pem.ChunksFillLines` | auth-service/src/keys.rs:79-97 | every body line but the last has 64 characters, the last one to 64, and together they are the body |
| `Pem.WrappedLines` | auth-service/src/keys.rs:79-97 | the wrapped text is the armour around the body lines |
| `Pem.StripUndoesWrap` | auth-service/src/keys.rs:226-233 | stripping the wrapped text gives back exactly the body |
| `Pem.WrappedPemParses` | auth-service/src/keys.rs:147-173 | the wrapped text of every valid body parses |
| `Pem.ParseMeans` | auth-service/src/keys.rs:147-173 | refuses exactly a text without both marks, with nothing between them, or whose body is not base64, and hands any other back |
| `Pem.EncodedIsBase64` | auth-service/src/keys.rs:79-97 | every encoding of bytes is a valid body |
| `Pem.Base64IsEncoded` | auth-service/src/keys.rs:147-173 | every valid body encodes some bytes |
| `Pem.WrappedCertificateParses` | auth-service/src/keys.rs:79-97 | a certificate of any bytes, encoded and wrapped, parses |
| `UpperAlpha.Render` | src/models/markdown.rs:75-85 | the loop ends and renders the label of the number |
| `UpperAlpha.ValueUndoesLabel` | src/models/markdown.rs:75-85 | reading a label as bijective base 26 gives the number back |
| `UpperAlpha.LabelUndoesValue` | src/models/markdown.rs:75-85 | every text of letters is the label of its number |
| `UpperAlpha.LabelsAscend` | src/models/markdown.rs:75-85 | labels are strictly monotone: shorter first, then alphabetical |

## Left out

- Paper corrections: writes to the committee's own stream carry no limits and no expected id; `candidate_limit` and the logging of limit hits would only add easy members.
- Retries of `update_when`, encryption, signatures and the hash chain of the stored events; the append is one atomic step guarded by the last event id, and a projection is a prefix of the log.
- Events keep only what the limits look at: inserted and deleted persons, lists and substitutes, and downloads.
- `OptimisticWrites.LimitsHoldInEveryRun`: the clock never steps back and lies after the earliest representable instant; `RateLimits.ReadingsOutOfOrderShow` is an input for which the order is needed.
- The `csv` crate enters as the grammar of `CsvRecords` and `CsvExport`; decoding rows into records, column-name normalisation, UTF-8 validity and the texts of the error messages are parameters or absent.
- White space is trimmed by its UTF-8 encodings from either end of the bytes.
- The constructor of contests that fails on an invalid identifier; `EstablishedLists.NumbersAreOneToCount` needs fewer multi-district sets than the largest 64-bit number, at which the running number saturates.
- The order of the districts in the printed I 4, the submitted lists, the found and recovered omissions, invalid lists and appellations; a group's appellation is taken after scrapping.
- Region numbers are taken to tell the districts of one election apart.
- The order of creation of a group's lists is given: the source sorts the values of a map by creation time with an unstable sort (src/projection/pg_data/getters.rs:97-101), so lists created at the same instant have no fixed order there.
- `SectionOmissions` and the maps of sections are values that the loops reassign, not objects; rows keep the person they are about, which the printed headings leave out.
- `OmissionLetter.UnknownPositionsLast` is stated for lists shorter than the largest `usize`, which every list in memory is.
- `DistrictLabels.LabelTellsDistricts` is stated for titles without a closing parenthesis; the titles come from data that is not part of this model.
- Hashing of session tokens, unreadable rows, rounding of instants to microseconds, `remove_other_sessions_of` and storage errors.
- The parts of a certificate beyond its text, key loading, and DER decoding.
- HTTP routing, forms, rendering of documents, SAML messages, the ACME client and the frontend.
