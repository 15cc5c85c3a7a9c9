# Verification of the math center backend

A Dafny model of the stateful core of the backend and proofs of what it promises. `dafny verify dfyconfig.toml`
checks all of it. No module depends on a library outside this directory.

| files | part of the backend |
|---|---|
| `HomeworkState`, `HomeworkLog`, `HomeworkHandlers`, `ClaimLease` | homework threads: the append-only event log, the cached row, the claim lease |
| `SheetText`, `SheetHeaders`, `SheetGrid` | worksheet text, problem and series headers, A1 addresses, update requests |
| `SeriesLayout`, `SeriesSections`, `SeriesMerge`, `SeriesSync` | series columns of a conduit tab and the two-way series synchronization |
| `RosterSheet`, `RosterPeople`, `RosterRun`, `RosterSync` | rosters of a conduit tab and the two-way student synchronization |
| `SheetMarkers`, `SheetImport` | marks of a conduit tab and their import into homework threads |
| `CenterGrid` | the sparse center grid, the cross-product query, the dense pivot |
| `RateLimit` | the fixed-window limiter in memory and in Redis |
| `Alerts` | Telegram alert texts and batches, UTF-8 (section 4 of RFC 3629) |
| `Presets`, `Registration` | invitation presets, and registrations under the token row lock |

How things are represented:

- A worksheet is a sequence of rows of cells; two readings with the same cells may differ in trailing blanks.
  Every statement about a tab is about its cells, so it holds for any such reading.
- A database is the tables an operation touches, as maps and sequences, with the unique constraints, foreign keys
  and column widths that matter. A failed transaction leaves them unchanged.
- Objects the Go code updates in place are classes (`ThreadStore`, `Center`, `Term`, `Conduit`, `AxisBuilder`,
  `MemoryLimiter`, `RedisLimiter`, `MemberTables`); loops are loops, proved against functions or predicates.
- Homework threads appear at two granularities: whole handlers as atomic steps (`HomeworkHandlers`), and handlers
  that read first and commit later (`ClaimLease`), where `NOW()` is the instant the transaction started and only
  the claim condition of an UPDATE is checked again.
- Instants are integers; characters are Unicode characters with case folding for Latin and Cyrillic letters;
  alert texts are bytes.

Where the code does not do what its comments or a first reading suggest, the model follows the code and says
exactly when the expectation holds:

- A retraction refers to the newest graded event, even when the verdict it takes back is a later offline accept
  (`RetractionTarget`, `RetractionCanMissTheGradeInForce`).
- Undoing an offline accept is said to restore the state it superseded; a superseded rejection comes back as
  submitted or appealed (`OfflineUndoRestores`, `OfflineUndoCanLoseARejection`).
- Two transactions computed from the same read can leave the cached columns in disagreement with the log; a
  transaction keeps the agreement exactly when its read is still current (`CommitKeepsAgreement`), and a whole
  interleaving does exactly when that holds of each of its commits (`RunAgreesExactly`,
  `InterleavedGradesDisagree`).
- An accepted problem header prints back to itself except for labels with an inner blank, or with a leading digit
  after a positive number; both arise from cells that hold white space other than a blank (`HeaderRetraction`,
  `HeaderRetractionCanFail`).
- The student synchronization is said to be idempotent; it is, except that a student whose name no roster lists is
  written below the tab again by every run (`RunOfJoined`, `RunsOfJoined`, `NamesAreWrittenAgain`).
- The memory limiter reads the clock before it takes its lock (`backend/pkg/ratelimit/memory.go:49-53`), so calls may
  be counted in another order than that of their instants, and a sweep may then drop a window that is still in use.
  The count of a window is exact exactly when that did not happen (`MemoryCountsExactly`, `BackwardClockForgets`). A
  Redis counter expires by the clock of the server and is exact exactly when no call of its window arrives a whole
  window later than another (`RedisCountsExactly`).
- Applying a preset does not by itself keep a user from becoming student and teacher of one center, because only the
  active term is looked at (`AppointingSeparates`, `BothExactly`, `UnvalidatedPresetsCanContradict`); validating the
  preset first does (`ValidatedPresetsApply`). Every path that mints such presets validates them first
  (`backend/cmd/token-generator/main.go:138`, `backend/internal/handlers/admin/tokens.go:114`,
  `backend/internal/handlers/mathcenter/manage.go:1572`). The one that does not
  (`backend/internal/handlers/mathcenter/manage.go:1477`) mints a personal claim only, so the contradictory preset of
  the lemma cannot reach `Apply` today.

## Model

| member | source | states |
|---|---|---|
| `HomeworkLog.LegalAppend` | `backend/internal/homework/state.go:43-64` | A log the handlers can write stays one under an append exactly when the guards of the appending handler enabled that event: transition table, role, references and verdict together |
| `HomeworkLog.AttemptBehindGrade` | `backend/internal/handlers/homework/retract.go:121-136` | In every reachable log a pending, rejected or ever graded thread has an attempt, so the "no current attempt" fallback of a retraction is never taken |
| `HomeworkLog.StatusBackedByGrade` | `backend/internal/handlers/homework/grade.go:152-182` | Accepted implies an accepting verdict in force, rejected a rejecting graded event in force, and an offline verdict is an accepted_offline event |
| `HomeworkLog.ReferencesAreSound` | `backend/internal/handlers/homework/appeal.go:77-88` | Every graded event refers to the newest attempt before it, every appeal to the rejecting grade in force, every offline undo to the offline accept in force |
| `HomeworkLog.RetractionTarget` | `backend/internal/handlers/homework/retract.go:82-108` | A retraction refers to the verdict it takes back exactly when that verdict was not an offline accept: the handler looks up the newest graded event, not the grade in force |
| `HomeworkLog.RetractionCanMissTheGradeInForce` | `backend/internal/handlers/homework/retract.go:82-108` | A reachable log whose retraction refers to a rejection while an offline accept was in force |
| `HomeworkLog.OfflineUndoRestores` | `backend/internal/handlers/homework/offline.go:268-283` | Undoing an offline accept restores the status it superseded exactly when that was neither rejected nor accepted; the attempt is always the one from before |
| `HomeworkLog.OfflineUndoCanLoseARejection` | `backend/internal/handlers/homework/offline.go:268-283` | A reachable log on which a rejection, an offline accept and its undo leave the thread submitted |
| `HomeworkLog.PendingMeansPending` | `backend/internal/handlers/homework/submit.go:212-228` | A thread waiting for a grader is in the status its newest attempt implies, and an ungraded thread has no attempt |
| `HomeworkLog.VerdictsAreSeparated` | `backend/internal/handlers/homework/grade.go:75-82` | Between a verdict and a later graded event lies a new attempt or an undo |
| `HomeworkLog.AppealsGoBackToTheirGrader` | `backend/internal/handlers/homework/grade.go:83-88` | An appeal not answered by an administrator is answered by whoever issued the disputed rejection, unless another verdict came between |
| `HomeworkHandlers.ThreadStore.SubmitAttempt` | `backend/internal/handlers/homework/submit.go:76-117` | Submits exactly from ungraded or rejected while the series is open, appends the submitted event, and keeps the log legal and the cached columns equal to its replay |
| `HomeworkHandlers.ThreadStore.AppealGrade` | `backend/internal/handlers/homework/appeal.go:77-95` | Appeals exactly from rejected, refers to the grade in force, and keeps the log legal and the cached columns equal to its replay |
| `HomeworkHandlers.ThreadStore.Grade` | `backend/internal/handlers/homework/grade.go:75-104` | Commits exactly when the thread is pending, an appeal is answered by its grader or an administrator, and the row names the caller as holder with an expiry still ahead; then appends the event and sets the row; otherwise changes nothing; log and cache stay in agreement |
| `HomeworkHandlers.ThreadStore.RollbackStatus` | `backend/internal/handlers/homework/offline.go:271-283` | The status read from the cached attempt is the one implied by the newest submit or appeal event of the log |
| `HomeworkHandlers.ThreadStore.Retract` | `backend/internal/handlers/homework/retract.go:66-109` | Who may retract, from which statuses, which event the retraction refers to, and that the thread falls back to the status of its last attempt with log and cache in agreement |
| `HomeworkHandlers.ThreadStore.OfflineAccept` | `backend/internal/handlers/homework/offline.go:87-118` | Accepts from every state but an online accept, clears the claim, and keeps log and cache in agreement |
| `HomeworkHandlers.ThreadStore.OfflineUndo` | `backend/internal/handlers/homework/offline.go:165-205` | Undoes exactly an offline accept in force and keeps log and cache in agreement |
| `HomeworkHandlers.ThreadStore.Claim` | `backend/internal/store/homework.sql.go:1150-1160` | Succeeds exactly when the claim is free, expired or already the caller's; renews it for fifteen minutes and touches nothing else |
| `HomeworkHandlers.ThreadStore.Heartbeat` | `backend/internal/store/homework.sql.go:391-398` | Succeeds exactly when the row names the caller as holder with an expiry still ahead, and then moves the expiry only |
| `HomeworkHandlers.ThreadStore.Release` | `backend/internal/store/homework.sql.go:611-618` | Clears exactly the caller's own claim |
| `ClaimLease.FreshIsEnabled` | `backend/internal/handlers/homework/offline.go:165-198` | On a thread whose log and cache agree, a handler could have read this plan exactly when the event it will append is enabled and its rollback status is the one the log implies |
| `ClaimLease.CommitKeepsAgreement` | `backend/internal/handlers/homework/offline.go:287-351` | A landing transaction keeps log and cache in agreement exactly when its plan is not stale |
| `ClaimLease.RunAgreesExactly` | `backend/internal/handlers/homework/grade.go:144-188` | In every run, whatever the interleaving, log and cache agree in all states up to n exactly when each landing commit before n that appends an event was planned from a reading still current |
| `ClaimLease.SerialRunsAgree` | `backend/internal/handlers/homework/grade.go:144-188` | In every run whose event-appending handlers read right before they commit, log and cache agree in every state, however claims, heartbeats and releases interleave |
| `ClaimLease.InterleavedGradesDisagree` | `backend/internal/handlers/homework/grade.go:144-188` | A valid interleaving of one grader's two grade requests ends with log and cache in disagreement |
| `ClaimLease.HolderLost` | `backend/internal/store/homework.sql.go:1209-1223` | The only commits that take the claim from a grader: their own grade or release, an offline accept, or a claim granted to somebody else after expiry |
| `ClaimLease.LeaseRunsFromNewestRenewal` | `backend/internal/store/homework.sql.go:391-398` | While a grader keeps the claim, its expiry is fifteen minutes after the newest claim or heartbeat of theirs |
| `ClaimLease.LandsWithinTheLease` | `backend/internal/store/homework.sql.go:1209-1223` | Over every interleaving, a grade or heartbeat of g lands less than fifteen minutes after the newest landed claim or heartbeat of g, and g has held the claim ever since |
| `ClaimLease.LeaseIsExclusive` | `backend/internal/store/homework.sql.go:1209-1223` | Over every interleaving of read-then-transaction handlers, after a grant to g another grader's grade commits only after g ended the claim, an offline accept cleared it, or somebody was granted it more than fifteen minutes after g's newest renewal |
| `ClaimLease.GradesNeverOutnumberGrants` | `backend/internal/store/homework.sql.go:1150-1160` | Over every interleaving, committed graded events plus the claim now held never outnumber the claims granted |
| `SheetText.FieldsOfJoin` | `backend/internal/googlesheets/structure_sync.go:487-502` | Joining words with blanks and splitting at white space gives the words back |
| `SheetText.TrimExactly` | `backend/internal/googlesheets/structure_sync.go:745-749` | Trimming removes white space at both ends and nothing else |
| `SheetText.NormalizeLabelIsIdempotent` | `backend/internal/googlesheets/service.go:438-445` | A label normalised without an inner blank normalises to itself |
| `SheetText.NormalizedAlike` | `backend/internal/googlesheets/service.go:438-441` | Two words normalise alike exactly when they differ in letter case and in ё for е only |
| `SheetText.LookAlikes` | `backend/internal/googlesheets/service.go:443-445` | The twelve Cyrillic letters that look like Latin ones are taken for them in labels |
| `SheetText.NumberOfItoa` | `backend/internal/googlesheets/structure_sync.go:750-757` | A printed natural number reads back as itself |
| `SheetHeaders.ProblemHeaderExactly` | `backend/internal/googlesheets/service.go:419-436` | Which cells are problem headers and of which problem: the longest of the three spellings of the exercise in any letter case, or all leading digits that fit an int64 with no line break after them; the rest is the label; no other cell is one |
| `SheetHeaders.SeriesNumberExactly` | `backend/internal/googlesheets/service.go:361-361` | A section is a series header exactly when it is the word «серия» in any letter case, white space and digits; numbers beyond an int64 saturate |
| `SheetHeaders.PrintThenParse` | `backend/internal/googlesheets/structure_sync.go:750-757` | An exported problem header parses back to its problem exactly when the label is normalised, has no blank, and does not continue a positive number with a digit |
| `SheetHeaders.HeaderRetraction` | `backend/internal/googlesheets/service.go:419-445` | Whatever cell was accepted as (number, label), the exported header parses back to the same pair exactly when the label has no inner blank and, after a positive number, no leading digit |
| `SheetHeaders.HeaderRetractionCanFail` | `backend/internal/googlesheets/service.go:419-445` | Two accepted cells, each holding white space other than a blank, whose exported headers do not parse back |
| `SheetHeaders.SeriesTitleRoundTrip` | `backend/internal/googlesheets/structure_sync.go:745-749` | An exported series title is its own trimmed form and is recognised as the series of its number |
| `SheetAddress.ColumnName` | `backend/internal/googlesheets/service.go:447-454` | The loop prints the bijective base-26 numeral of the column |
| `SheetAddress.ColumnIndexOfName` | `backend/internal/googlesheets/service.go:447-454` | Every column name is a non-empty word over A-Z that reads back as its index |
| `SheetAddress.ColumnNameOfIndex` | `backend/internal/googlesheets/service.go:447-454` | Every non-empty word over A-Z is the name of exactly the column it reads as |
| `SheetAddress.ColumnNamesAreOrdered` | `backend/internal/googlesheets/service.go:447-454` | Columns are ordered as their names are: shorter first, then by the first difference |
| `SheetAddress.DecodeCellName` | `backend/internal/googlesheets/service.go:413-413` | Printed cell addresses read back as their row and column |
| `SheetAddress.PrintRange` | `backend/internal/googlesheets/structure_sync.go:256-257` | The range both synchronizations print is the A1 name of the rectangle |
| `SheetAddress.DecodeRangeName` | `backend/internal/googlesheets/structure_sync.go:378-380` | A printed range decodes to exactly its rectangle |
| `SheetGrid.LastUsedColumn` | `backend/internal/googlesheets/structure_sync.go:725-733` | No cell right of the result is used, and the result is the last cell of some row when positive |
| `SheetGrid.FindConduitHeader` | `backend/internal/googlesheets/structure_sync.go:476-485` | The first header cell in reading order, or that there is none |
| `SeriesSections.LayoutIsDescribed` | `backend/internal/googlesheets/structure_sync.go:440-474` | The layout has one series for each series header right of the name column, from left to right, with the problems in the columns whose nearest section it is, in order |
| `SeriesSections.ListedExactly` | `backend/internal/googlesheets/structure_sync.go:446-473` | A tab lists a problem under a series exactly when some column has that problem header and the nearest non-blank section at or left of it is a header of that series |
| `SeriesSections.CurrentExactly` | `backend/internal/googlesheets/service.go:386-400` | For the marks reader too, a column belongs to a series exactly when its nearest section is a header of that series; any other section ends the series |
| `SeriesSections.MarkedExactly` | `backend/internal/googlesheets/service.go:386-415` | The markers of a tab are exactly the non-blank cells of named rows below the header whose column says which problem of which series they are about, with that name, text and address |
| `SeriesScan.FoldTitled` | `backend/internal/googlesheets/structure_sync.go:452-472` | A titled run of columns adds one series with the problems it lists, whatever columns came before |
| `SeriesLayout.ReadColumns` | `backend/internal/googlesheets/structure_sync.go:446-473` | The column loop computes the left-to-right reading of both header rows |
| `SeriesLayout.ParseSheetSeries` | `backend/internal/googlesheets/structure_sync.go:440-474` | A tab is read as its layout, and refused exactly when no layout exists |
| `SeriesLayout.LayoutIsUnique` | `backend/internal/googlesheets/structure_sync.go:440-474` | A tab has one layout, whatever trailing blank cells the API returned |
| `SeriesLayout.SeriesExportRows` | `backend/internal/googlesheets/structure_sync.go:735-761` | The two loops write the title row and the header row of all exported series |
| `SeriesLayout.FoldExported` | `backend/internal/googlesheets/structure_sync.go:735-761` | Reading exported columns after any others adds exactly the exported series in order, including those without problems |
| `SeriesLayout.AppendThenParse` | `backend/internal/googlesheets/structure_sync.go:375-380` | Writing the exported columns right of everything used and parsing again yields the old series followed by exactly the exported ones, whatever trailing blanks are returned |
| `SeriesLayout.ReadBackIsIdentity` | `backend/internal/googlesheets/structure_sync.go:735-761` | The exported series come back unchanged exactly when every problem of theirs is exportable |
| `SeriesMerge.SortedIsCanonical` | `backend/internal/googlesheets/structure_sync.go:631-637` | A strictly sorted column list is determined by its set of columns |
| `SeriesMerge.LessExactly` | `backend/internal/googlesheets/structure_sync.go:631-637` | Columns are ordered by number, the exercise first, and then by the first difference of their labels |
| `SeriesMerge.MergeSeriesLayout` | `backend/internal/googlesheets/structure_sync.go:619-638` | The merge is the sorted, duplicate-free union of both lists under the left number |
| `SeriesMerge.MergeCommutes` | `backend/internal/googlesheets/structure_sync.go:619-638` | Merging two layouts of one series does not depend on their order |
| `SeriesMerge.MergeAssociates` | `backend/internal/googlesheets/structure_sync.go:619-638` | Merging three layouts does not depend on the grouping |
| `SeriesMerge.MergeAbsorbs` | `backend/internal/googlesheets/structure_sync.go:619-638` | Merging in columns already present changes nothing |
| `SeriesMerge.SeenKeyIsInjective` | `backend/internal/googlesheets/structure_sync.go:663-667` | The duplicate key of a column determines the column |
| `SeriesMerge.CreateSeriesProblems` | `backend/internal/googlesheets/structure_sync.go:659-682` | Inserts each problem number and each column exactly once, and fails exactly when some column does not fit the database columns |
| `SeriesSync.ReadTabs` | `backend/internal/googlesheets/structure_sync.go:282-312` | All tabs are read exactly when all have a layout, and then the import holds per number the union of all tabs' columns |
| `SeriesSync.ImportSeries` | `backend/internal/googlesheets/structure_sync.go:317-351` | The database becomes the union: old series untouched, each sheet-only number with the columns of all tabs, sorted and each once; or nothing when one does not fit |
| `SeriesSync.UnionIsFromTabs` | `backend/internal/googlesheets/structure_sync.go:282-351` | A series is in the database after an import exactly when it was before or some tab has a header of its number, and a new one has exactly the columns that some tab says are its own |
| `SeriesSync.LinkOrderIsIrrelevant` | `backend/internal/googlesheets/structure_sync.go:301-306` | The database after an import does not depend on the order or repetition of the links |
| `SeriesSync.AppendSeries` | `backend/internal/googlesheets/structure_sync.go:375-384` | The update request is accepted, overwrites blank cells only, and the tab then parses to the old series followed by the missing ones |
| `SeriesSync.ExportTab` | `backend/internal/googlesheets/structure_sync.go:357-385` | A read-only or complete tab is untouched; any other gets exactly the series of the database it misses, in order |
| `SeriesSync.SettledStays` | `backend/internal/googlesheets/structure_sync.go:270-387` | A run from a settled state creates nothing and writes nothing |
| `SeriesSync.SettledSurvivesRereading` | `backend/internal/googlesheets/structure_sync.go:270-387` | Settledness does not depend on trailing blank cells of the next reading |
| `SeriesSync.Center.SyncSeries` | `backend/internal/googlesheets/structure_sync.go:270-387` | One run makes the database what the cells of the tabs say, exports what they miss and reaches a settled state, or fails and changes nothing, exactly when a tab has no header or a new series does not fit; the counters are exact; a run from a settled state changes nothing |
| `SheetNames.SplitThenJoin` | `backend/internal/googlesheets/structure_sync.go:491-510` | An account created from a sheet name is found under that name's key again |
| `SheetNames.KeyExactly` | `backend/internal/googlesheets/structure_sync.go:491-502` | An account is found under the words of surname, first name and middle name, in this order, with single blanks between them |
| `RosterSheet.NamesAreCells` | `backend/internal/googlesheets/structure_sync.go:418-436` | A roster lists exactly the listable names in the name column below the header |
| `RosterSheet.ListableExactly` | `backend/internal/googlesheets/structure_sync.go:422-432` | Only blank cells and the ideal student, in any letter case and spelling of ё, are left out of a roster |
| `RosterSheet.NamesAreKeys` | `backend/internal/googlesheets/structure_sync.go:422-436` | The names of a roster are listable, distinct, and equal to their own lookup keys |
| `RosterSheet.ParseConduitRoster` | `backend/internal/googlesheets/structure_sync.go:405-438` | A tab is read as its roster, and refused exactly when it has none |
| `RosterSheet.RosterIsUnique` | `backend/internal/googlesheets/structure_sync.go:405-438` | Two readings of the same cells find the same names |
| `RosterSheet.AppendThenRoster` | `backend/internal/googlesheets/structure_sync.go:250-258` | Names written right below everything used join the roster and disturb nothing else |
| `RosterPeople.ChoiceIs` | `backend/internal/googlesheets/structure_sync.go:550-564` | The chosen account bears the name, and no other account of that name is enrolled |
| `RosterPeople.ChosenExactly` | `backend/internal/googlesheets/structure_sync.go:550-564` | A name stands for an account exactly when that is its only bearer, or the only enrolled one of its bearers |
| `RosterPeople.DecidesExactly` | `backend/internal/googlesheets/structure_sync.go:160-226` | What is decided on a name, told by who bears it, where they are enrolled, which group lists it first and whether another does |
| `RosterPeople.ApplyElsewhere` | `backend/internal/googlesheets/structure_sync.go:160-226` | Carrying out the decision of one name changes nothing for any other name |
| `RosterPeople.ApplyPlaces` | `backend/internal/googlesheets/structure_sync.go:160-226` | Carrying out the decision of a name leaves nothing to do for it |
| `RosterRun.DecidedAlone` | `backend/internal/googlesheets/structure_sync.go:160-226` | Each name of a run is decided as in the initial state, whatever its place in the run |
| `RosterRun.RunPlaces` | `backend/internal/googlesheets/structure_sync.go:160-226` | After a run every name of it is placed |
| `RosterRun.RunSettles` | `backend/internal/googlesheets/structure_sync.go:160-226` | What a run makes of each of its names: nobody bears it and it has two words: a new student of that spelling in the first listing group; else the account it stands for is enrolled there if it was not enrolled, moved there if no other group lists the name, and all other bearers stay where they were |
| `RosterRun.RunAccounts` | `backend/internal/googlesheets/structure_sync.go:160-226` | No account or enrollment is dropped, and every new or changed enrollment is one a listed name asked for |
| `RosterRun.OneNamePerAccount` | `backend/internal/googlesheets/structure_sync.go:160-226` | Two different names never lead to the same account, so each is processed at most once |
| `RosterRun.TalliedExactly` | `backend/internal/googlesheets/structure_sync.go:160-226` | The four counters are the numbers of names whose bearers put them in each of the four kinds |
| `RosterRun.FitsExactly` | `backend/internal/googlesheets/structure_sync.go:170-195` | The database refuses a name exactly when nobody bears it and a part of its account is longer than 255 characters |
| `RosterRun.LoadUsersByName` | `backend/internal/googlesheets/structure_sync.go:512-531` | The index finds under each key exactly the accounts whose sheet name has it |
| `RosterRun.ChooseUser` | `backend/internal/googlesheets/structure_sync.go:550-564` | Returns the only candidate, or the only enrolled one of several, and none exactly when there is no such candidate |
| `RosterRun.PlaceNames` | `backend/internal/googlesheets/structure_sync.go:145-229` | The transaction carries out all decisions and tallies them, or fails exactly when a name to create does not fit the database, and then changes nothing |
| `RosterSync.SingleGroup` | `backend/internal/googlesheets/structure_sync.go:131-134` | A name has a single listing group exactly when all tabs that list it are linked to that group |
| `RosterSync.FirstGroup` | `backend/internal/googlesheets/structure_sync.go:116-141` | The first of the groups of a name is that of the first tab listing it |
| `RosterSync.ListedIsPlaced` | `backend/internal/googlesheets/structure_sync.go:160-226` | After a run, the only bearer of a name, or the only enrolled one, is in the group that alone lists the name |
| `RosterSync.ReadRosters` | `backend/internal/googlesheets/structure_sync.go:106-141` | All tabs are read exactly when all have a roster, and each listed name is gathered once with the groups that list it |
| `RosterSync.ExportTab` | `backend/internal/googlesheets/structure_sync.go:233-262` | A read-only tab is untouched; any other gets exactly the students of its group it does not list, one cell each, below everything used |
| `RosterSync.ExportJoins` | `backend/internal/googlesheets/structure_sync.go:233-262` | After a run and its export every listed name is placed and every writable tab lists the listable students of its group |
| `RosterSync.RunOfJoined` | `backend/internal/googlesheets/structure_sync.go:92-264` | A run over a joined term changes no account or enrollment, and writes nothing exactly when every student of a writable tab's group has a listable name |
| `RosterSync.RunsOfJoined` | `backend/internal/googlesheets/structure_sync.go:92-264` | However often a joined term is synchronised, its accounts and enrollments stay as they are, and either no run writes a cell or every run writes names again; which of the two is decided by whether all students of writable tabs are listable |
| `RosterSync.UnlistableTerm` | `backend/internal/googlesheets/structure_sync.go:427-432` | Every student whose name no roster lists makes a joined term with an unlistable student: a writable tab of their group holding the header only |
| `RosterSync.NamesAreWrittenAgain` | `backend/internal/googlesheets/structure_sync.go:233-262` | A joined term with a student named «Идеальный Ученик» on which every run, however often repeated, writes a positive number of cells |
| `RosterSync.UnlistableStudents` | `backend/internal/googlesheets/structure_sync.go:427-432` | Students named «Идеальный Ученик» or with a blank name are never listed |
| `RosterSync.JoinedSurvivesRereading` | `backend/internal/googlesheets/structure_sync.go:92-264` | Being joined does not depend on trailing blank cells of the next reading |
| `RosterSync.Term.SyncStudents` | `backend/internal/googlesheets/structure_sync.go:92-264` | One run settles every listed name by who bore it before and which tabs list it, and joins the term, or fails and changes nothing; nobody is dropped, the four counters are the numbers of names of each kind, and a second run adds and moves nobody and writes exactly the unlistable students |
| `SheetMarkers.ReadersAgree` | `backend/internal/googlesheets/service.go:388-408` | Every mark names a (series, problem, label) that parseSheetSeries lists for the same tab |
| `SheetMarkers.ParseConduitMarkers` | `backend/internal/googlesheets/service.go:368-417` | One marker for each marked cell, in reading order, or the missing-header error |
| `SheetMarkers.OneMarkerPerCell` | `backend/internal/googlesheets/service.go:405-415` | Each non-blank cell of a named row under a listed column of a series other than 0 has exactly one marker, identified by its cell address |
| `SheetImport.TargetKeySeparates` | `backend/internal/googlesheets/service.go:548-550` | Target keys of names without a bar are equal exactly when normalised name, series, problem and normalised label are |
| `SheetImport.ConduitTargets` | `backend/internal/googlesheets/service.go:552-596` | A key survives exactly when one candidate has it, and then stands for that candidate with its current status |
| `SheetImport.FlipsExactly` | `backend/internal/googlesheets/service.go:464-546` | With names without a bar, exactly the ungraded threads are accepted whose candidate some mark is about, and about no other, up to spelling |
| `SheetImport.AcceptAgrees` | `backend/internal/googlesheets/service.go:502-541` | Importing a mark into an ungraded thread accepts it and keeps its log and cache in agreement |
| `SheetImport.FlippedAreAccepted` | `backend/internal/googlesheets/service.go:502-541` | Each accepted thread has one more event, an offline accept of the importing user that credits only the initials of the first mark for it, and a row that says the same and holds no claim |
| `SheetImport.ImportMarkers` | `backend/internal/googlesheets/service.go:490-541` | Exactly the ungraded threads some mark stands for are accepted, each crediting the initials of its first mark; all others are untouched; the counters are the accepted threads and the marks without a target |
| `SheetImport.ImportSettles` | `backend/internal/googlesheets/service.go:490-541` | After an import no mark of the tab stands for an ungraded thread |
| `SheetImport.NothingLeft` | `backend/internal/googlesheets/service.go:490-541` | When all marks have been imported, importing again flips no thread |
| `SheetImport.Conduit.ImportLink` | `backend/internal/googlesheets/service.go:464-546` | An import only accepts ungraded threads, each crediting the initials of its first mark, and counts them; importing the same sheet again imports zero and changes nothing; log and cache of every thread stay in agreement |
| `RateLimit.MemoryCountsExactly` | `backend/pkg/ratelimit/memory.go:48-81` | Whatever the instants of the callers, the bucket of a window never counts too much, and counts its calls exactly when no call after its first hit was later than both the sweep due and the end of the window |
| `RateLimit.MemoryAnswer` | `backend/pkg/ratelimit/memory.go:48-73` | Whatever the instants, no call within its limit is refused, one beyond it is let through only when its window was forgotten, and a refused caller is told to wait the whole seconds left of the window, at least one |
| `RateLimit.MemoryIsACounter` | `backend/pkg/ratelimit/memory.go:48-73` | When calls take the lock in the order of the instants they read, a call is allowed exactly when fewer than its limit came before it in its window, whenever sweeps happened |
| `RateLimit.BackwardClockForgets` | `backend/pkg/ratelimit/memory.go:49-64` | Two callers two nanoseconds apart that take the lock in the other order: the sweep of one forgets the window of the other, and a call beyond the limit is let through |
| `RateLimit.RedisCountsExactly` | `backend/pkg/ratelimit/redis.go:21-28` | Whatever instants the callers read, a counter never counts too much, and counts its window exactly when no call of the window reached the server a whole window or more after an earlier one |
| `RateLimit.RedisAnswer` | `backend/pkg/ratelimit/redis.go:56-82` | Redis refuses no call within its limit, and lets one beyond it through only when its counter had expired; the wait of a refused caller is the whole seconds left of a window length from the call that opened the counter, at least one, which is the first of the window while the counter has not expired |
| `RateLimit.RedisDecidesTheSame` | `backend/pkg/ratelimit/redis.go:21-28` | On one clock and in its order, Redis and the memory limiter allow and refuse exactly the same calls, and Redis never tells a refused caller to wait less |
| `RateLimit.AtMostTwiceTheLimit` | `backend/pkg/ratelimit/memory.go:48-73` | On one clock and in its order, neither limiter allows more than twice the limit in any stretch of one window length |
| `RateLimit.MemoryLimiter.SweepLocked` | `backend/pkg/ratelimit/memory.go:75-81` | The loop drops exactly the buckets that have expired |
| `RateLimit.MemoryLimiter.AllowKey` | `backend/pkg/ratelimit/memory.go:48-73` | After any calls with one window length per name, a call within its limit is allowed and one beyond it is refused unless its window was forgotten; a refused caller is to wait the whole seconds left of the window, at least one |
| `RateLimit.RedisLimiter.Script` | `backend/pkg/ratelimit/redis.go:21-28` | The reply is the new count and the rest of the life of the key, which runs from its first hit; no other counter changes |
| `RateLimit.RedisLimiter.AllowKey` | `backend/pkg/ratelimit/redis.go:56-82` | After any calls with one window length per name, a call within its limit is allowed and one beyond it is refused unless its counter had expired; a refused caller is to wait between one second and the window |
| `Utf8.BoundaryNear` | `backend/internal/telegramalerts/service.go:455-467` | Every cut of a valid UTF-8 string is at most three bytes past a character boundary |
| `Utf8.RuneIsEncoded` | `backend/internal/telegramalerts/service.go:463-463` | A string starts with a character only where its first bytes are the encoding of a Unicode character that is no surrogate |
| `Utf8.EncodedIsRune` | `backend/internal/telegramalerts/service.go:463-463` | The encoding of every such character is recognised, whatever follows it |
| `Alerts.TruncateBytes` | `backend/internal/telegramalerts/service.go:455-467` | The loop keeps the longest valid prefix that leaves room for the dots |
| `Alerts.TruncationIsTight` | `backend/internal/telegramalerts/service.go:455-467` | The result fits the bound; a valid string stays valid and loses at most three bytes beyond the dots |
| `Alerts.CleanedIsPrintable` | `backend/internal/telegramalerts/service.go:442-453` | Cleaned text is valid UTF-8 without control characters other than tab and line breaks, and cleaning changes exactly the text that was not |
| `Alerts.CleanedExactly` | `backend/internal/telegramalerts/service.go:442-453` | Cleaning goes character by character: control characters but tab and line breaks are dropped, all others kept, and each byte of no character replaced by U+FFFD |
| `Alerts.ControlExactly` | `backend/internal/telegramalerts/service.go:442-453` | The characters taken for control characters are U+0000 to U+001F and U+007F to U+009F |
| `Alerts.OtherExactly` | `backend/internal/telegramalerts/service.go:431-440` | Besides the named ones an attribute is shown exactly when its key contains none of the six words in any letter case |
| `Alerts.FormatEvent` | `backend/internal/telegramalerts/service.go:387-420` | The text is environment and level, time, message, one line for each known attribute that is not empty, one line in key order for each other attribute that is neither empty nor sensitive, and the stack; cut to the bound with three dots when it is longer |
| `Alerts.HeadIsTold` | `backend/internal/telegramalerts/service.go:387-397` | However long the rest, the text starts with environment, level, time and cleaned message |
| `Alerts.LinesAreTold` | `backend/internal/telegramalerts/service.go:398-429` | A text below the bound has a line of its own for each known attribute and for each other attribute that is not sensitive, unless empty |
| `Alerts.FormattedFits` | `backend/internal/telegramalerts/service.go:387-420` | Whatever bytes an event carries, its text is valid UTF-8, not empty and at most 3900 bytes |
| `Alerts.SensitiveLeavesNoTrace` | `backend/internal/telegramalerts/service.go:404-413` | The text of an event is that of the event without its sensitive attributes |
| `Alerts.FormatBatch` | `backend/internal/telegramalerts/service.go:367-385` | The loop packs the texts in order into groups no one of which could take the next text; the messages join to all texts, and each is valid UTF-8 within the bound |
| `Alerts.BatchesAreLossless` | `backend/internal/telegramalerts/service.go:367-385` | Joining the messages with blank lines gives all texts in order |
| `Alerts.MessagesFit` | `backend/internal/telegramalerts/service.go:367-385` | Every message is valid UTF-8 of at most 3900 bytes and holds at least one text |
| `Alerts.BatchesAreFewest` | `backend/internal/telegramalerts/service.go:367-385` | No order-preserving packing within the bound uses fewer messages |
| `Presets.Validate` | `backend/internal/tokenpreset/tokenpreset.go:150-249` | Accepts exactly the presets with one form per grant, a claim alone, existing groups of different terms, existing different centers, and no center on both sides |
| `Presets.AcceptedExactly` | `backend/internal/tokenpreset/tokenpreset.go:150-249` | A claim is accepted exactly when it is positive and nothing else is granted; any other preset exactly when no grant has two forms, no list is empty, everything exists, and no term, no center and no side of a center is granted twice |
| `Presets.EnrollFresh` | `backend/internal/tokenpreset/tokenpreset.go:302-331` | Enrolling a fresh user succeeds exactly when the groups exist and their terms differ, and adds exactly those enrollments |
| `Presets.AppointFresh` | `backend/internal/tokenpreset/tokenpreset.go:333-360` | Appointing a user who teaches nowhere succeeds exactly when the centers exist, differ, and do not see the user as their student, and adds exactly those centers |
| `Presets.AppliesExactly` | `backend/internal/tokenpreset/tokenpreset.go:262-295` | Applying a preset without a claim to a fresh user succeeds exactly when its groups and centers exist without repeats and no center sees its future teacher among its students; it grants exactly what is listed |
| `Presets.BothExactly` | `backend/internal/store/math_center_series.sql.go:321-339` | A successful application leaves the user student and teacher of a center exactly when the preset named the center on both sides |
| `Presets.ValidatedPresetsApply` | `backend/internal/tokenpreset/tokenpreset.go:150-249` | On the same directory an accepted preset without a claim applies to every fresh user, grants exactly its memberships, and never makes the user student and teacher of one center |
| `Presets.UnvalidatedPresetsCanContradict` | `backend/internal/store/math_center_series.sql.go:321-339` | A preset that was never validated can make its user student and teacher of one center, through a group of an inactive term |
| `Presets.EnrollingSeparates` | `backend/internal/tokenpreset/tokenpreset.go:302-331` | An enrollment that succeeds puts nobody on both sides of a center |
| `Presets.AppointingSeparates` | `backend/internal/tokenpreset/tokenpreset.go:333-360` | An appointment that succeeds puts its user on both sides of the center exactly when they have an enrollment there, which is then one of an inactive term; everybody else stays as they were |
| `Presets.MemberTables.ApplyStudent` | `backend/internal/tokenpreset/tokenpreset.go:302-331` | Which error is given exactly when; success adds the one row and touches no other; nobody newly is student and teacher of one center |
| `Presets.MemberTables.ApplyTeacher` | `backend/internal/tokenpreset/tokenpreset.go:333-360` | Which error is given exactly when; success adds the one row and touches no other; the user newly is student and teacher of the center exactly when they have an enrollment the check did not see |
| `Presets.MemberTables.Apply` | `backend/internal/tokenpreset/tokenpreset.go:262-295` | The loops carry out the grants in order and stop at the first error |
| `Registration.StepUses` | `backend/internal/handlers/auth/register.go:217-221` | A commit adds one use to its own token, a deletion takes the use of the deleted user away, and no other step changes the uses of any token |
| `Registration.StepKeepsInvariant` | `backend/internal/handlers/auth/register.go:70-95` | Every step keeps a transaction past its count alone with its token and its user row, with room for one more use |
| `Registration.UsesAreBounded` | `backend/internal/handlers/auth/register.go:70-95` | In every state of every interleaving of registrations, the committed uses of each token are at most its max_uses |
| `Registration.CommitsAreUses` | `backend/internal/handlers/auth/register.go:109-164` | In every run, the uses of a token and the deletions of its users add up to the uses at the start and the committed registrations |
| `Registration.RegistrationSucceeds` | `backend/internal/handlers/auth/register.go:70-164` | Wherever a run has come to, a token with a use left that no open transaction holds lets a registration through, of a new user or of an unclaimed placeholder, and counts it |
| `Registration.EveryUseIsAvailable` | `backend/internal/handlers/auth/register.go:92-95` | A token can be used exactly as often as it allows |
| `Registration.WithoutTheLock` | `backend/internal/store/invitation_tokens.sql.go:95-99` | Without the row lock an interleaving of two registrations uses a one-use token twice |
| `CenterGrid.CellKeyIsInjective` | `backend/internal/handlers/homework/teacher_center_grid.go:391-393` | A cell key determines the student and the subproblem |
| `CenterGrid.BuildCells` | `backend/internal/handlers/homework/teacher_center_grid.go:348-368` | The loop maps each key to the last row that has it |
| `CenterGrid.ThreadRowsHaveDistinctKeys` | `backend/internal/store/conduit_grid.go:98-166` | Rows of the cell queries never share a key |
| `CenterGrid.SparseDenotesCross` | `backend/internal/store/homework.sql.go:930-957` | For every rostered student and column, looking the sparse cell up with the ungraded default gives the row of the cross-product query, and only those rows exist |
| `CenterGrid.CellTellsThread` | `backend/internal/handlers/homework/teacher_center_grid.go:348-393` | For a rostered student and a column, the cell found tells the status, grader, claim and note of their thread, and is ungraded and blank where there is none |
| `CenterGrid.TermIsDisjointUnion` | `backend/internal/store/conduit_grid.go:98-166` | The term has a cell exactly where one of its series' refreshes has one, and no two series have a cell in common |
| `CenterGrid.SeriesCellsAgree` | `backend/internal/store/conduit_grid.go:134-166` | Where the refresh of a series returns a cell, the full load has the same one |
| `CenterGrid.RefreshIsReload` | `backend/internal/store/conduit_grid.go:134-166` | After threads of one series changed without going away, putting its refreshed cells over the shown ones equals a full reload |
| `CenterGrid.AddedIsAxis` | `backend/internal/handlers/homework/teacher_center_grid.go:427-448` | One more row keeps the axis the pairs of its rows without repeats, entries and items in the order in which the rows first show them |
| `CenterGrid.AxisBuilder.Add` | `backend/internal/handlers/homework/teacher_center_grid.go:427-448` | One row extends its entry or opens one, without repeats and in first-seen order, and the index and the seen-sets stay those of the output |
| `CenterGrid.BuildResponse` | `backend/internal/handlers/homework/teacher_center_grid.go:326-346` | The axes list exactly the pairs of their rows, each entry and item once and in first-seen order, and the cells are those of the cell rows |
| `CenterGrid.ResponseDenotesCross` | `backend/internal/handlers/homework/teacher_center_grid.go:326-346` | A whole response shows exactly the rows of the cross-product query |
| `CenterGrid.BuildGridColumns` | `backend/internal/handlers/homework/teacher_grid.go:134-153` | Each subproblem of the rows is a column once, in the order in which the rows first show them |
| `CenterGrid.BuildGridStudents` | `backend/internal/handlers/homework/teacher_grid.go:155-203` | The loop fills the matrix slot by slot as the pivot of the rows |
| `CenterGrid.PivotHolds` | `backend/internal/handlers/homework/teacher_grid.go:155-203` | The pivot of rows that do not repeat a slot shows every one of them and only their students, each once |
| `CenterGrid.DenseIsCross` | `backend/internal/store/homework.sql.go:1040-1077` | A student, a subproblem and a cell are a row of the cross-product query exactly when the dense matrix has a slot for them that shows the cell |
| `CenterGrid.DenseIsSparse` | `backend/internal/handlers/homework/teacher_grid.go:155-203` | The dense matrix of a series has a slot for exactly the rostered students and the columns of the series, and each slot shows the sparse cell of the term |

## Left out

- HTTP, JSON, routing, sessions, tokens, password hashing, metrics, logging and configuration.
- The Google, Telegram and S3 clients: a worksheet is read whole (the client reads columns A to ZZ and a thousand
  rows), update requests succeed when their range has the shape of their values, and write access is a given flag.
- A failure of one update request in the middle of a synchronization, which leaves the earlier tabs written.
- Concurrent edits of a worksheet or of the database while a synchronization runs.
- Photos of homework events and the validation of text lengths.
- Event identifiers are positions in the log of one thread; that identifiers grow with commits is assumed. The role
  an event was made in (`byAdmin`) is kept in the model only, and `claimed` and `released` events, which no handler
  appends, are not enabled.
- `ON DELETE SET NULL` on users and events: threads outlive neither their grader nor their events.
- Enrollment row ids, usernames and password hashes of created students; the order in which the database lists the
  students of a group, which the model leaves open.
- The database collation of problem labels; columns are ordered by character.
- Unicode beyond Latin and Cyrillic case folding, and normalisation forms.
- Series and problem numbers below zero, which the worksheet parser cannot produce.
- Identifiers are positive; nothing distinguishes a row with identifier 0.
- Window lengths of zero or less, and the textual form of a window's start in a bucket key.
- Network failures and restarts of Redis, on which the middleware lets calls through.
- The queue, the timing, the retries and the recipients of alerts; the sorting of attribute keys (attributes are
  listed by ascending key); the rendering of level and time, which are given as valid text.
- Registration.RegistrationSucceeds: is about tokens that have not expired; expiry, like any other refusal, shows in
  the model as a transaction that aborts.
- Personal student claims and placeholder matching by name: a registration claims some unclaimed placeholder or
  creates a user; which placeholder a name finds is open.
- Display names, colors, column labels and graders' initials of the grids.
- Seeding, solution publication, comments, queues and statistics: no property that spans operations.
- CenterGrid.RefreshIsReload: does not cover threads that disappear, because nothing deletes a thread of a live
  subproblem and the client only overwrites cells.
