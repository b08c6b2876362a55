# Student progress tracker — a Dafny model

The tracker keeps a list of students, each tied to a Codeforces handle. The server stores
each student with a snapshot of their Codeforces data: contests, submissions and ratings. It
refreshes that snapshot when a student is added, when a student's handle is edited, and when
a full sync runs. The client shows the list with a search box and a CSV export. A student's
page shows a rating colour, problem-solving statistics, a contest history with a rating
chart, and a submission heatmap.

This project models the following parts in Dafny and proves properties about them:

- the server's reconciliation logic: `editStudent`, `addStudent`, `deleteStudent`,
  `updateStudentData`, `syncAllStudentData` and `sync`;
- the stored document, with its defaults and its two unique keys (email and handle);
- the client's pure computations: `getRatingColor`, `calculateProblemStats`, the contest
  history transform, filter, sort, chart data and rating summary, the heatmap, the table's
  search filter, and the list handlers and CSV export of the main page.

Modules, one per file:

| module | file | models |
|---|---|---|
| `Wrappers` | wrappers.dfy | `Option` and `Result` |
| `Seqs` | seqs.dfy | `Array.prototype.filter`, counting, sums, max/min and their laws |
| `Text` | text.dfy | `toLowerCase` (ASCII), `includes`, `join`, `split`, integer `toString` |
| `Js` | js.dfy | JavaScript `\|\|` on numbers and strings |
| `Codeforces` | codeforces.dfy | the Codeforces records and the fetch oracle |
| `Schema` | schema.dfy | the student document, its defaults, the store and its unique keys |
| `Reconcile` | reconcile.dfy | the 7-day activity window and the rating fallbacks |
| `StudentController` | student_controller.dfy | edit, add and delete handlers |
| `SettingsController` | settings_controller.dfy | per-student refresh and the sync loop |
| `RatingColor` | rating_color.dfy | `getRatingColor` |
| `ProblemStats` | problem_stats.dfy | `calculateProblemStats` |
| `ContestHistory` | contest_history.dfy | contest history list, chart and rating summary |
| `Heatmap` | heatmap.dfy | submission heatmap |
| `ClientTypes` | client_types.dfy | the client's student row |
| `StudentTable` | student_table.dfy | search filter and table view |
| `App` | app.dfy | add/edit/delete list handlers and CSV export |

Modelling conventions:

- **Time.** The server's clock is a parameter `now` in milliseconds. Inside one handler call,
  and inside one student's refresh, every `new Date()` and `Date.now()` reads the same instant.
  A sync visits the students one after another, awaiting a fetch and a 1-second pause between
  them, so it gets one reading per student: the `k`-th visited student's refresh reads
  `nows[k]`. Codeforces times are in seconds. The
  heatmap uses whole UTC days: day `d` covers `[d*86400000, (d+1)*86400000)` milliseconds.
- **Fetching.** `fetchCodeforcesData` is a function `Fetch = string -> Option<Bundle>`.
  `None` means the call throws. The bundle's `user`, `contests` and `submissions` are
  themselves optional, so the code paths that dereference a missing field are modelled.
- **The database.** It is a map from id to `Student`. `Schema.Save` fails when a required
  field is empty or when the email or handle is already taken by another document. Both
  failures become a 500 reply.
- **JavaScript falsiness.** `x || y` on a number treats `0` and `undefined` as false. On a
  string it treats `""` and `undefined` as false. `x ?? y` is `Option.GetOr`.

Behaviour of the code that the model keeps, including some a reader might not expect:

- Only `editStudent` keeps the requested `isActive` when the fetched submission list is empty
  or missing. `addStudent` and `updateStudentData` always set `isActive` to "some submission in
  the last 7 days", so an empty list gives `false`.
- The activity window is strict, `creationTimeSeconds*1000 > now - 7 days`, and it has no
  upper bound. A submission dated in the future counts as recent.
- In `addStudent` the Codeforces fetch and the dereferences of `cfData.user` and
  `cfData.submissions` sit outside every `try`, and the route registers the async handler
  directly. The model assumes Express 4 behaviour: the rejected promise reaches no error
  handler, so the handler never replies (`Reply.NoReply`), nothing is stored, and the server
  keeps serving.
- `addStudent` and `updateStudentData` store `cfData.contests` as it arrives. When it is
  undefined the stored array defaults to `[]`.
- The main page's delete handler filters the row out and clears the selection even when the
  server call fails.
- A student added in the current session has no database id on the client: the add handler
  replies with the draft it saved, not the saved document. Deleting such a row passes an
  absent id, and the filter then removes every row without an id.

## Model

| member | source | states |
|---|---|---|
| Schema.CreateSnapshot | server/src/models/studentSchema.ts:15-61 | a missing snapshot becomes empty contests and submissions synced now; a missing sub-field takes its default and a present one is kept |
| Schema.Create | server/src/models/studentSchema.ts:3-14 | each absent field takes the schema default (ratings 0, lastUpdated now, reminders on, reminderCount 0, active) and each present field is stored unchanged; a given snapshot is completed by CreateSnapshot |
| Schema.CreateFullDraft | server/src/models/studentSchema.ts:3-61 | a draft with every field present creates exactly the student it was taken from, so defaults never override given values |
| Schema.Save | server/src/models/studentSchema.ts:5-8 | saving succeeds exactly when name, email and handle are non-empty and no other document has the same email or handle; on success only that id changes and the unique-key invariant is kept |
| Schema.Delete | server/src/controllers/studentController.ts:8-11 | reports whether the id existed, removes exactly that id, leaves every other document as it was and keeps the invariant |
| Reconcile.WasActiveIff | server/src/controllers/settingsController.ts:17-19 | the activity flag is true exactly when some submission is strictly later than now minus 7 days |
| Reconcile.WindowEdges | server/src/controllers/studentController.ts:57-60 | a submission exactly 7 days old is not recent, one dated after now is recent, and no submissions means inactive |
| Reconcile.RatingsFrom | server/src/controllers/settingsController.ts:8-9 | current rating is 0 exactly when the user's rating is 0 or missing; max rating is the user's max when truthy and otherwise falls back to the current rating |
| Reconcile.RatingsExamples | server/src/controllers/studentController.ts:133-134 | the fallback chain on missing, zero and present ratings (e.g. max 0 falls back to rating 1500) |
| StudentController.EditActivity | server/src/controllers/studentController.ts:56-65 | the requested activity is kept when the fetched submissions are missing or empty; otherwise activity is "some submission in the last 7 days" |
| StudentController.EditStudent | server/src/controllers/studentController.ts:18-98 | 400 on missing name/email/handle, 404 on unknown id, 400 on fetch failure or missing user when the handle changed; once the record is built, a successful save gives 200 with that record and writes it, and a rejected save gives 500 and writes nothing; phone defaults to "", reminders and activity default to true; an unchanged handle copies ratings and snapshot through; a changed handle takes fetched ratings with fallbacks, a fresh snapshot and guarded activity; the unique-key invariant is kept |
| StudentController.EditedRecord | server/src/controllers/studentController.ts:33-80 | a record is built exactly when the handle is unchanged or the fetch returns a user; otherwise the 400 message says which step failed |
| StudentController.EditSameHandleIgnoresFetch | server/src/controllers/studentController.ts:42-43 | when the handle is unchanged the outcome does not depend on what Codeforces returns |
| StudentController.AddStudent | server/src/controllers/studentController.ts:124-157 | 400 when any of name, email, phone or handle is empty; no reply (as under Express 4) and no write when the fetch throws or user or submissions are missing; with a complete bundle a successful save gives 201 with the new record (fetched ratings, a fresh snapshot, unconditional activity, reminderCount 0) and a rejected save gives 500 and no write; the invariant is kept |
| StudentController.DeleteStudent | server/src/controllers/studentController.ts:5-17 | 404 and no change for an unknown id; otherwise 200, that id removed and every other document unchanged |
| SettingsController.UpdateStudentData | server/src/controllers/settingsController.ts:4-31 | succeeds exactly when the fetch returns a user and a submission list, and names the failing step otherwise; on success sets ratings with fallbacks, a fresh snapshot, activity from the 7-day window and lastUpdated now, and changes no identity or reminder field |
| SettingsController.RefreshedSaveSucceeds | server/src/controllers/settingsController.ts:22-23 | in a store with unique keys and required fields, saving a refreshed record always passes the required and unique checks |
| SettingsController.SyncStudents | server/src/controllers/settingsController.ts:38-51 | the loop over students never adds or removes a document |
| SettingsController.SyncStudentsOutcome | server/src/controllers/settingsController.ts:38-51 | after the loop the `k`-th listed student is either refreshed at its own clock reading `nows[k]` or, if its refresh failed, untouched; unlisted students are untouched; the failures are exactly the listed students whose fetch is incomplete, in order |
| SettingsController.Sync | server/src/controllers/settingsController.ts:33-68 | always answers "Sync completed successfully"; if listing the students fails nothing changes; otherwise the `k`-th listed student ends up refreshed at `nows[k]` or untouched, and reminder settings never change |
| SettingsController.SyncKeepsIdentityAndReminders | server/src/controllers/settingsController.ts:4-23 | the loop never changes a student's name, email, handle, reminder count or reminder flag |
| SettingsController.PacedAfterSuccess | server/src/controllers/settingsController.ts:38-51 | with the loop's clock (never backwards, one pause after each successful refresh), a reading after a successful refresh is at least 1000 ms later |
| SettingsController.SyncStampsInOrder | server/src/controllers/settingsController.ts:14-21 | with that clock, of two students refreshed in one sync the later-listed one has a `lastUpdated` at least 1000 ms after the earlier one's |
| SettingsController.SyncSurvivesFailure | server/src/controllers/settingsController.ts:48-50 | a student whose refresh fails keeps the stored record it had before the sync |
| SettingsController.SyncPreservesValid | server/src/controllers/settingsController.ts:33-57 | a sync keeps emails and handles unique |
| RatingColor.RatingColor | client/src/components/getRatingColor.ts:1-12 | the colour is one of the nine rank colours: grey below 1200, red from 2600 |
| RatingColor.ColorIsTierColor | client/src/components/getRatingColor.ts:1-12 | the if-chain equals an independent definition: the colour indexed by how many thresholds the rating reaches |
| RatingColor.TierMonotone | client/src/components/getRatingColor.ts:2-11 | a higher rating never gets a lower tier |
| RatingColor.ColorsDistinct | client/src/components/getRatingColor.ts:3-11 | the nine tiers have nine different colours |
| RatingColor.ThresholdsAreInclusive | client/src/components/getRatingColor.ts:3-10 | each threshold belongs to the tier it starts, and one point below it belongs to the tier before |
| RatingColor.ConstantBetweenThresholds | client/src/components/getRatingColor.ts:3-11 | all ratings between two consecutive thresholds share one colour |
| RatingColor.TopAndBottom | client/src/components/getRatingColor.ts:2-3 | 2600 and 3000 get the same red, so the 3000 branch changes nothing; ratings of 0 or less are grey |
| ProblemStats.FirstOccurrences | client/src/components/problem-solving-data.tsx:91-100 | one submission per problem key, the same set of keys as the input, every result taken from the input |
| ProblemStats.FirstOccurrencesKeepsFirsts | client/src/components/problem-solving-data.tsx:95-97 | the kept submission for a key is its first accepted one |
| ProblemStats.UniqueProblems | client/src/components/problem-solving-data.tsx:92-100 | the map-based loop computes exactly the first occurrence of each problem key |
| ProblemStats.PositiveRatings | client/src/components/problem-solving-data.tsx:103-105 | only ratings above 0 are kept |
| ProblemStats.PositiveRatingsComplete | client/src/components/problem-solving-data.tsx:103-105 | every solved problem with a positive rating contributes its rating |
| ProblemStats.PositiveRatingsEmpty | client/src/components/problem-solving-data.tsx:103-109 | no ratings are kept exactly when no solved problem has a positive rating |
| ProblemStats.Hardest | client/src/components/problem-solving-data.tsx:107-109 | 0 exactly when no solved problem is rated; otherwise a rating that occurs and is at least every rated problem's rating |
| ProblemStats.Average | client/src/components/problem-solving-data.tsx:113-117 | 0 when nothing is rated; otherwise the integer nearest the mean with halves rounded up (m - 1/2 <= mean < m + 1/2), which lies between the smallest and the largest rating |
| ProblemStats.RoundedMeanBetween | client/src/components/problem-solving-data.tsx:114-116 | Math.round of the mean never leaves the range of the values |
| ProblemStats.RoundedMeanIsNearest | client/src/components/problem-solving-data.tsx:114-116 | Math.round(sum / n) is the integer m with m - 1/2 <= sum / n < m + 1/2 |
| ProblemStats.BucketsFor | client/src/components/problem-solving-data.tsx:135-139 | one bucket per range, counting the ratings inside it, bounds inclusive |
| ProblemStats.RangesTile | client/src/components/problem-solving-data.tsx:122-133 | the ten ranges cover 800..3999 with no gap or overlap |
| ProblemStats.RangesAscending | client/src/components/problem-solving-data.tsx:122-133 | the ranges are in ascending order |
| ProblemStats.TilingCounts | client/src/components/problem-solving-data.tsx:135-139 | over ranges that tile an interval, the bucket counts add up to the number of ratings in the interval |
| ProblemStats.NonEmptyKeepsTotal | client/src/components/problem-solving-data.tsx:140 | dropping empty buckets does not change the total |
| ProblemStats.DistributionTotal | client/src/components/problem-solving-data.tsx:135-140 | the distribution counts every rating in 800..3999 exactly once |
| ProblemStats.DistributionNonEmpty | client/src/components/problem-solving-data.tsx:140 | every bucket shown holds at least one problem |
| ProblemStats.NoRatingsNoBuckets | client/src/components/problem-solving-data.tsx:135-140 | with no ratings no bucket is shown |
| ProblemStats.OutsideNoBucket | client/src/components/problem-solving-data.tsx:122-139 | a rating below 800 or above 3999 falls in no bucket |
| ProblemStats.CalculateProblemStats | client/src/components/problem-solving-data.tsx:62-140 | no submissions gives all zeros; totalSolved counts the distinct accepted problems in the window; the hardest rating, the rounded mean and the non-empty buckets are those of exactly those solved problems; the distribution total equals the rated solved problems in 800..3999 and every listed bucket is non-empty |
| ContestHistory.ToEntry | client/src/components/contest-history.tsx:58-69 | name, rank, time and new rating are copied; the rating change recovers the old rating; the id is `_id` when truthy, otherwise the contest id as text |
| ContestHistory.ToEntries | client/src/components/contest-history.tsx:57-71 | one entry per contest, in order |
| ContestHistory.SortDesc | client/src/components/contest-history.tsx:79 | the sort is a permutation and puts the most recent first |
| ContestHistory.InsertSorted | client/src/components/contest-history.tsx:79 | one insertion step keeps the most-recent-first order |
| ContestHistory.SortStable | client/src/components/contest-history.tsx:79 | contests with the same time keep their input order, as a stable sort does |
| ContestHistory.ContestHistory | client/src/components/contest-history.tsx:52-81 | the list is most recent first, a permutation of the entries at or after the cutoff, and holds exactly those entries |
| ContestHistory.ContestHistoryStable | client/src/components/contest-history.tsx:74-79 | within one timestamp the list keeps the input order |
| ContestHistory.ChartName | client/src/components/contest-history.tsx:97 | names of at most 30 characters are kept; longer ones become their first 30 characters plus "..." |
| ContestHistory.ChartNameIdempotent | client/src/components/contest-history.tsx:97 | truncating a truncated name changes nothing |
| ContestHistory.ChartData | client/src/components/contest-history.tsx:90-101 | one point per contest, in reverse order |
| ContestHistory.ChartAscending | client/src/components/contest-history.tsx:101 | reversing the most-recent-first list gives the chart in chronological order |
| ContestHistory.RatingStats | client/src/components/contest-history.tsx:104-109 | none for an empty list; otherwise current is the most recent new rating, highest and lowest are attained bounds, and total change runs from the oldest contest's old rating to the current rating |
| ContestHistory.TotalChangeTelescopes | client/src/components/contest-history.tsx:108 | when each contest's old rating is the previous contest's new rating, the total change is the sum of the per-contest changes |
| Heatmap.Intensity | client/src/components/submission-heatmap.tsx:138-144 | the level is 0..4 and is 0 exactly for counts of 0 or less |
| Heatmap.IntensityIsCutsExceeded | client/src/components/submission-heatmap.tsx:138-144 | the if-chain equals the number of cut points 0, 2, 5, 10 that the count exceeds |
| Heatmap.IntensityMonotone | client/src/components/submission-heatmap.tsx:138-144 | more submissions never give a lighter level |
| Heatmap.IntensityColor | client/src/components/submission-heatmap.tsx:146-157 | out-of-range cells are transparent; an in-range cell at level 0..4 gets that level's colour, and the level-0 colour when its intensity has no colour |
| Heatmap.SameColorSameLevel | client/src/components/submission-heatmap.tsx:146-157 | two in-range days share a colour exactly when they share a level |
| Heatmap.DayCell | client/src/components/submission-heatmap.tsx:63-89 | a day's cell holds that day's submissions, its count is their number, and accepted is the number of them with verdict OK |
| Heatmap.DayCellMembers | client/src/components/submission-heatmap.tsx:65-74 | a submission is in a day's cell exactly when it was made that day |
| Heatmap.WindowOf | client/src/components/submission-heatmap.tsx:55-56 | the window ends today and spans exactly `filterDays` days |
| Heatmap.StartDayDroppedAsWritten | client/src/components/submission-heatmap.tsx:114 | as written, unless the page is built exactly at midnight, the first day of the window fails the range test and every other day passes it |
| Heatmap.StartDayDroppedExample | client/src/components/submission-heatmap.tsx:57 | built 1 ms after midnight of day 10 with 7 days, day 4 is dropped while days 5 and 10 are shown |
| Heatmap.ShownWindowIsAsWritten | client/src/components/submission-heatmap.tsx:114 | a day passes the as-written range test exactly when it lies in the window, less its first day unless the page is built at midnight |
| Heatmap.WeekStart | client/src/components/submission-heatmap.tsx:93 | the week starts on the Sunday on or before the day |
| Heatmap.Weeks | client/src/components/submission-heatmap.tsx:93-98 | the intended number of weeks: seven days per week cover exactly the first Sunday through the last Saturday |
| Heatmap.WeeksAsWrittenOneExtra | client/src/components/submission-heatmap.tsx:97-98 | the source's week count is always one more than needed |
| Heatmap.ExtraWeekIsBlank | client/src/components/submission-heatmap.tsx:103-133 | the source grid's last column holds only out-of-range placeholders; built at midnight, the columns before it are the intended grid |
| Heatmap.GridAsWritten | client/src/components/submission-heatmap.tsx:91-133 | the source grid, with its week count and range test, has one column more than needed, seven cells each |
| Heatmap.CellsAsWrittenAreShown | client/src/components/submission-heatmap.tsx:106-129 | a run of cells built with the as-written test is the run built for the shown days |
| Heatmap.GridAsWrittenIsShownGrid | client/src/components/submission-heatmap.tsx:91-133 | the source grid is the grid of the shown days, one week longer |
| Heatmap.GridShape | client/src/components/submission-heatmap.tsx:101-133 | every column has seven cells starting on a Sunday; a cell carries -1 exactly when its day is outside the window, and an in-range cell counts that day's submissions |
| Heatmap.ColumnShape | client/src/components/submission-heatmap.tsx:104-129 | one column: seven cells from a Sunday, -1 exactly outside the window, the day's count inside it |
| Heatmap.FlattenGridFrom | client/src/components/submission-heatmap.tsx:174 | reading the columns in order visits consecutive days |
| Heatmap.FlatIsWindow | client/src/components/submission-heatmap.tsx:174 | the in-range cells of the grid are exactly the window's days, once each, in order |
| Heatmap.Summarize | client/src/components/submission-heatmap.tsx:175 | total and accepted are the sums of the cells' counts and accepted figures; the maximum per day is at least 1, at least every day's count, and either 1 or some day's count; active days counts the days with a submission |
| Heatmap.WindowTotal | client/src/components/submission-heatmap.tsx:297 | the summed day counts equal the number of submissions made within the window |
| Heatmap.WindowSummary | client/src/components/submission-heatmap.tsx:295-317 | the total counts the window's submissions, accepted counts the window's submissions with verdict OK and is at most the total, and no window day exceeds the maximum |
| Heatmap.DayCellAccepted | client/src/components/submission-heatmap.tsx:81-86 | a day's accepted figure is the number of that day's submissions with verdict OK |
| Heatmap.SumAcceptedDays | client/src/components/submission-heatmap.tsx:302-304 | summing the accepted figures of consecutive days counts the OK submissions made on those days |
| Heatmap.WindowAccepted | client/src/components/submission-heatmap.tsx:302-304 | the summed accepted figures equal the number of OK submissions made within the window |
| Heatmap.HeatmapView | client/src/components/submission-heatmap.tsx:55-136 | the intended view: the total counts exactly the submissions on the window's days; accepted counts exactly the OK submissions on those days and is at most total; the maximum is at least 1 and bounds every window day; active days are the window days with submissions |
| Heatmap.FlatAsWritten | client/src/components/submission-heatmap.tsx:174 | the in-range cells of the source grid are the shown days, none when the shown days are empty |
| Heatmap.AsWrittenTotal | client/src/components/submission-heatmap.tsx:297 | the source total counts the submissions on the shown days |
| Heatmap.HeatmapViewAsWritten | client/src/components/submission-heatmap.tsx:55-136 | the view as the source builds it: one week too many, and a total that leaves out the window's first day unless the page is built at midnight; accepted counts the OK submissions on the shown days and stays within the total, and the maximum is at least 1 and bounds every shown day |
| Heatmap.AsWrittenSummary | client/src/components/submission-heatmap.tsx:175 | over the source grid, accepted counts the OK submissions on the shown days and stays within the total and `Math.max(...counts, 1)` bounds the count of every shown day |
| Heatmap.AsWrittenMissesStartDay | client/src/components/submission-heatmap.tsx:114 | off midnight the source total is short of the intended total by exactly the first day's submissions |
| Heatmap.StartDaySubmissionLostExample | client/src/components/submission-heatmap.tsx:56-57 | one submission at noon of day 4, page built 1 ms after midnight of day 10 with 7 days: the intended total is 1, the source shows 0 |
| Heatmap.TooltipOf | client/src/components/submission-heatmap.tsx:267-285 | the tooltip shows the first three submissions at most, plus a "+n more" line exactly when there are more than three, and shown + n covers them all |
| StudentTable.FilterStudents | client/src/components/student-table.tsx:26-31 | the shown rows are a sub-list of the list |
| StudentTable.FilterStudentsMembers | client/src/components/student-table.tsx:26-31 | a row is shown exactly when the lower-cased term occurs in its lower-cased name, email or handle |
| StudentTable.FilterStudentsOrdered | client/src/components/student-table.tsx:26-31 | the shown rows keep the list's order |
| StudentTable.EmptyTermShowsAll | client/src/components/student-table.tsx:26-31 | an empty search shows every row |
| StudentTable.SearchIgnoresTermCase | client/src/components/student-table.tsx:28-30 | upper- and lower-case terms give the same rows |
| StudentTable.SearchLooksOnlyAtNameEmailHandle | client/src/components/student-table.tsx:26-31 | rows that agree on name, email and handle are shown or hidden together, whatever their phone or ratings |
| StudentTable.TypingNarrows | client/src/components/student-table.tsx:26-31 | every row shown for a term is also shown for each prefix of it |
| StudentTable.TableView | client/src/components/student-table.tsx:54-161 | the title counts every student, the body lists the matching ones, and an empty body says "No students added yet." exactly when the search and the list are empty, and "No students found matching your search." when a non-empty search matches nothing |
| StudentTable.StatusLabel | client/src/components/student-table.tsx:114-116 | the status reads "Active" exactly for an active student and "Inactive" otherwise |
| StudentTable.ReminderBadge | client/src/components/student-table.tsx:122-126 | the badge appears exactly when reminderCount is positive and shows it |
| App.AddRow | client/src/App.tsx:44-52 | the created student is appended and the earlier rows are untouched; it gets the clock as its client id, now as last update and reminderCount 0, and keeps every other field |
| App.EditRow | client/src/App.tsx:54-56 | every row with the updated row's database id is replaced, two absent ids counting as equal, and no other row changes |
| App.EditRowIdempotent | client/src/App.tsx:54-56 | applying the same edit twice is the same as once |
| App.EditRowEffect | client/src/App.tsx:54-56 | after an edit every row is the updated one or an old row with a different id, and the updated row is present when its id was |
| App.DeleteRow | client/src/App.tsx:58-75 | for an id or an absent id, the rows whose database id equals it are removed and all others kept in order, with every copy of a kept row surviving; the selection is cleared exactly when its id equals it; the toast reports the server outcome |
| App.DeleteIgnoresServer | client/src/App.tsx:66-74 | the resulting list and selection do not depend on whether the server call succeeded |
| App.DeleteUnsavedRemovesAllUnsaved | client/src/App.tsx:62-71 | deleting with an absent id removes every row without a database id and keeps exactly the rows with one |
| App.DeleteClicked | client/src/App.tsx:58-75 | the intended delete: exactly the clicked row leaves the list, the rest keep their order, and the selection is cleared when it was that row |
| App.SavedDeleteIsIntended | client/src/App.tsx:62-71 | for a row whose database id no other row shares, the handler removes exactly that row |
| App.UnsavedDeleteExample | client/src/App.tsx:62-71 | two rows without a database id: deleting the first removes both, where only the first should go |
| App.HeaderIsOneLine | client/src/App.tsx:89-91 | the header line holds no line break |
| App.CsvLineRoundTrip | client/src/App.tsx:92-102 | a row whose text cells hold no comma or line break exports as one line that splits back into its seven cells |
| App.CsvRoundTrip | client/src/App.tsx:88-103 | the export of such rows splits back into the header plus one line per row, line i+1 holding row i's cells |
| App.Csv | client/src/App.tsx:88-103 | the export starts with the header line; it is the header alone exactly when there are no rows, and a line break follows the header otherwise |
| App.CommaInNameShiftsCells | client/src/App.tsx:92-101 | cells are not quoted: a name with one comma reads back as eight cells, the rest shifted right |

## Left out

- HTTP routing, Express, Mongoose persistence failures other than the two save errors, and ObjectId cast errors are left out. They are I/O. A failing write is modelled only as the `Save` error paths.
- `getAllStudents` and `getStudentDetails` are left out. They only project or look up stored documents.
- The HTTP client behind `fetchCodeforcesData` is a parameter. fetchCfdata.ts is not part of this model.
- Email reminders are left out. The source has only a TODO for them. Logging and scheduling are also left out. The 1-second pause between students appears only as the `PacedClock` assumption on the clock readings; the sync outcome holds for any readings.
- Concurrency is left out. Requests are modelled one at a time against one store.
- StudentController.AddStudent: the reply on a failed fetch or a missing `user` or `submissions` assumes Express 4 on a Node version that does not exit on an unhandled rejection. The framework and runtime versions are not part of this model. Under Express 5 the default error handler would answer 500. Under Express 4 on Node 15 or later the unhandled rejection ends the server process, which the model does not capture: it keeps serving from the same store.
- StudentController.AddStudent: the 201 reply body is the stored record, with defaults filled in. The source replies with the draft before defaults, which has no reminderCount and no `_id`.
- Schema.Create: the `createdAt` and `updatedAt` fields that `timestamps: true` adds are not modelled. No modelled operation reads them.
- SettingsController.UpdateStudentData: the three clock reads of one refresh (`lastSyncTime`, the 7-day window and `lastUpdated`) are one instant `now`. The source reads the clock three times, microseconds apart, so `lastSyncTime` and `lastUpdated` may differ slightly.
- SettingsController.UpdateStudentData: the `student.save()` of a refreshed record is taken to succeed. SettingsController.RefreshedSaveSucceeds shows that it passes the required and unique checks in a valid store; write errors are I/O.
- App.DeleteRow: the server request, which for an absent id asks to delete `/undefined`, is the `serverOk` parameter.
- StudentController.EditStudent: Mongoose's `runValidators` on update is modelled as the same required and unique checks as `Save`.
- ProblemStats.CalculateProblemStats: `averagePerDay` is left out. It is floating-point `toFixed(1)` arithmetic.
- ProblemStats.CalculateProblemStats: the cutoff is a parameter, because `setDate` works in local time.
- ProblemStats.CalculateProblemStats: the problem key `${contestId}-${index}` is modelled as the pair (contestId, index). That is the same key for integer contest ids.
- ContestHistory.ContestHistory: the `isValid(date)` filters are left out. Every integer time is a valid date here.
- ContestHistory.ContestHistory: the cutoff is a parameter in milliseconds.
- ContestHistory.ChartName: lengths count characters. JavaScript counts UTF-16 code units, so a name with characters outside the Basic Multilingual Plane is cut at a different place.
- ContestHistory.ChartData: the date formatting ("MMM dd") is left out.
- Heatmap.HeatmapView: this is the intended view, not the source's: every window day from the first day's midnight is in range and the grid has exactly the weeks it needs. The source's view, with the first day dropped and one week too many, is Heatmap.HeatmapViewAsWritten; both defects are under Findings.
- Heatmap.GridShape: states the shape of the intended grid. The source's grid is Heatmap.GridAsWritten.
- Heatmap.HeatmapView: days are UTC days. The local timezone, daylight-saving changes and `date-fns` calendar arithmetic are left out.
- Heatmap.TooltipOf: the success-rate percentage is left out. It is floating point.
- Heatmap.HeatmapView: mouse handling and the date format of the tooltip title are left out.
- Text.Lower: only ASCII letters are lower-cased. Unicode case mapping is left out.
- App.AddRow: the client id is the decimal text of the clock reading, and `lastUpdated` is carried as the text it prints as.
- App.CsvFields: `lastUpdated` is carried as text. A `Date` would join as its `toString()` form, which is not modelled.
- Loading the student list, the profile view, theme, dialogs and the Blob download are left out. They are UI and I/O.
- `averagePerDay`, the loading spinners and other React state are left out.

## Findings

| source | as written | input that shows it | evidently intended | confidence | as-written member | corrected member |
|---|---|---|---|---|---|---|
| client/src/components/submission-heatmap.tsx:56-114 | a grid cell's midnight is compared with `startDate`, which carries the current time of day, so `currentDate >= startDate` fails for the first day | `filterDays = 7`, page built at 00:00:00.001 on day 10, one submission at noon of day 4: day 4 becomes a placeholder and the total shows 0 instead of 1 | all `filterDays` days, from the start day's midnight, are in range | high (proved; not executed) | Heatmap.HeatmapViewAsWritten | Heatmap.HeatmapView |
| client/src/components/submission-heatmap.tsx:97-98 | `ceil((lastWeekEnd - firstWeekStart) / day) + 1` days, rounded up to weeks | any window: the end of the week is 23:59:59.999, so the ceiling already counts the last day, and `+ 1` adds an eighth day to the last week | exactly the weeks from the first Sunday to the last Saturday | high (proved; not executed) | Heatmap.WeeksAsWrittenOneExtra | Heatmap.Weeks |
| client/src/App.tsx:62-71 | rows are removed by `s._id !== studentId`; a student added in this session has no `_id`, because server/src/controllers/studentController.ts:152 replies with the draft, and its delete button (client/src/components/student-table.tsx:145) passes `undefined` | two students added this session, delete the first: both rows leave the list | only the clicked row leaves the list | medium (proved on the model; not executed) | App.UnsavedDeleteExample | App.DeleteClicked |
