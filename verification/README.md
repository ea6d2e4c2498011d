# FaultHub, modelled and proved in Dafny

FaultHub is a small crash-report server: it takes ACRA reports over HTTP, files them into issues in
SQLite, and shows them on an admin site. This project models six of its parts and proves what each
is for, over all inputs and all runs. `dafny verify dfyconfig.toml` checks everything.

| part | files |
|---|---|
| JSON and stack-trace highlighters | `html.dfy`, `jsonnumber.dfy`, `highlight.dfy`, `jsongrammar.dfy`, `jsonreading.dfy`, `stacktrace.dfy` |
| per-IP token bucket | `ratelimit.dfy` (state, steps, the class), `ratelaws.dfy` (theorems) |
| report tables, operations, concurrent ingest | `tables.dfy`, `tablelaws.dfy`, `store.dfy` (the class), `ingestprotocol.dfy`, `isolation.dfy` |
| search, filters, paging, counts | `like.dfy`, `issuequery.dfy`, `paging.dfy`, `listing.dfy`, `analytics.dfy`, `totals.dfy`, `counting.dfy` |
| time as text, sessions | `civiltime.dfy`, `timetext.dfy`, `sessions.dfy` |
| `set-password` | `base64.dfy`, `auth.dfy`, `envfile.dfy` |
| shared | `text.dfy`, `decimals.dfy`, `sets.dfy` |

Conventions. Clock readings, random salts and fresh tokens are parameters. An instant is a whole
number of nanoseconds since 0000-01-01T00:00:00Z, up to the end of year 9999. Tokens and rates are
exact reals. A text is a sequence of characters; nothing in the modelled code depends on how a
character outside ASCII is spelled in bytes. The key derivation is an arbitrary function that
returns as many bytes as it is asked for. Objects the Go code mutates (`Limiter`, `Store`, the
sessions table) are classes whose methods are tied to step functions; the theorems are about those
functions and about runs of them.

Exact conditions that came out of the proofs:

- A sweep is unobservable exactly when a bucket idle for one nanosecond more than the sweep's limit
  has earned a full burst (`RateLaws.SweepInvisibleExactly`). In configuration terms: the login
  limiter always satisfies it; the ingest limiter does if and only if its rate per minute, over ten
  minutes and one nanosecond, covers its burst, which the configuration does not enforce
  (`RateLaws.ServerSweepsForgive`).
- A prune is unobservable in a run of logins, checks, slides and logouts exactly when no slide revives
  a session: lands on one that is stored but expired, with a new expiry still ahead
  (`Sessions.PrunesUnseenExactly`). The authentication
  wrapper checks and slides in two statements with two clock readings, so a session that expires
  between the two is lost or kept depending on a prune (`Sessions.PruneBetweenCheckAndSlideIsSeen`).
- A date range is exact on every report received since year 1. Over all instants there are, an open
  range is exact exactly when it does not start on 0001-01-01, whose midnight is Go's zero time and
  is taken for no filter (`IssueQuery.DateRangeIsExact`).
- The issue list's total equals open plus resolved, for every app and in every state of a run,
  exactly when no step of the run deletes the only report of an issue, because the list joins reports
  (`Totals.TotalsAgreeExactly`, `Totals.DisagreeAfterLastReport`).

## Model

| member | source | states |
|---|---|---|
| RateLimit.Limiter.constructor | internal/ratelimit/ratelimit.go:26-39 | a new limiter has no buckets, burst at least 1 and a positive rate (1/60 where a non-positive one was given) |
| RateLimit.Limiter.Allow | internal/ratelimit/ratelimit.go:41-63 | the in-place update equals one step of the run history; the answer, the reported wait (zero when admitted) and the whole new bucket map are determined |
| RateLimit.Limiter.Sweep | internal/ratelimit/ratelimit.go:65-77 | the deleting loop removes exactly the buckets last used more than the limit before now, leaves the others as they are, and returns how many it removed |
| RateLaws.SweptRunIsGreedy | internal/ratelimit/ratelimit.go:41-77 | in any run with other addresses' calls and forgiving sweeps, an address gets exactly the answers of its own never-swept bucket |
| RateLaws.SweepsAreInvisible | internal/ratelimit/ratelimit.go:65-77 | deleting all sweeps from a run changes no answer of any address |
| RateLaws.SweepInvisibleExactly | internal/ratelimit/ratelimit.go:65-77 | sweeping with a given idle limit is invisible in all runs if and only if a bucket idle one nanosecond longer has earned a full burst |
| RateLaws.ServerSweepsForgive | cmd/faulthub/main.go:98-128 | the server's ten-minute sweeps are invisible for the login limiter under every accepted rate, and for ingest if and only if rate per minute x (ten minutes + 1 ns) is at least burst x one minute; 10 x rate >= burst suffices |
| RateLaws.GreedyRespects | internal/ratelimit/ratelimit.go:41-63 | over every window of one address's calls, admissions <= burst + rate x window length |
| RateLaws.GreedyIsOptimal | internal/ratelimit/ratelimit.go:41-63 | no policy that respects the window bound on all windows has admitted more on any prefix |
| RateLaws.LimiterIsTightInRuns | internal/ratelimit/ratelimit.go:41-77 | both of the above for the answers of one address inside a full run with sweeps and other traffic |
| RateLaws.RetryIsExact | internal/ratelimit/ratelimit.go:61-62 | coming back sooner than the reported wait is refused again, one nanosecond past it is admitted |
| RateLaws.SweepForgetsTheIdle | internal/ratelimit/ratelimit.go:65-77 | on any run with a monotone clock, a sweep forgets exactly the addresses whose last call lies more than the limit back, and changes no other bucket |
| RateLaws.MapHoldsTheRemembered | internal/ratelimit/ratelimit.go:41-77 | after any such run the map holds exactly the addresses that called and that no later sweep found idle for too long |
| CivilTime.DateOf | internal/store/store.go:106 | every day number up to the end of year 9999 has a valid calendar date that counts back to it |
| CivilTime.DateOrder | internal/store/store.go:106 | calendar order of valid dates is day order, and dates are equal only on the same day |
| CivilTime.MonthsInClosedForm | internal/store/store.go:106 | the days before each month are (367 m - 362) / 12, less one or two after February: the Gregorian month lengths |
| TimeText.CalendarAnchors | internal/store/store.go:106-111 | the zero time is 0001-01-01, 1970-01-01 is day 719528, the range ends with 9999-12-31 |
| TimeText.TextOrderIsTimeOrder | internal/store/store.go:106 | comparing two stored times as text is comparing their whole seconds, in both directions |
| TimeText.StoredTimeReadsBack | internal/store/store.go:106-111 | parsing a formatted time gives it truncated to the second |
| TimeText.DayTextOrder | internal/store/analytics.go:66-70 | day labels sort chronologically and no two days share one |
| TimeText.DayRangeByText | internal/web/issues.go:104-113 | the text comparisons with the two ends built by the page select exactly the days of the inclusive range |
| TimeText.FilterDateIsExact | internal/web/issues.go:12-20 | a filter text is read as a day if and only if it is a valid date written day-first or year-first, and then as that date's day |
| Sessions.SessionStore.CreateSession | internal/store/sessions.go:10-15 | stores the truncated expiry, and is refused exactly for a token already stored |
| Sessions.SessionStore.ValidSession | internal/store/sessions.go:17-28 | true exactly when the token is stored and its truncated expiry lies after now |
| Sessions.SessionStore.TouchSession | internal/store/sessions.go:30-35 | replaces the expiry of a stored token, creates none, and touches no other |
| Sessions.SessionStore.DeleteSession | internal/store/sessions.go:37-40 | removes that token's row and no other |
| Sessions.SessionStore.PruneSessions | internal/store/sessions.go:42-48 | afterwards exactly the sessions valid at that instant are stored; the count is of those removed |
| Sessions.SessionStore.RequireAuth | internal/web/web.go:102-120 | two statements with two clock readings, nothing in between: the answer is the check's, and the slide, to the second reading plus the lifetime, happens exactly when it passed |
| Sessions.SessionLifetime | internal/store/sessions.go:10-40 | a login or admitted visit makes the token valid at exactly the instants before the expiry's second; a refused one changes nothing; logout ends it; no other token is affected |
| Sessions.PruneIsExact | internal/store/sessions.go:17-48 | the truncated text comparison of the prune removes exactly what the nanosecond check rejects |
| Sessions.PrunesUnseenExactly | internal/web/web.go:102-120 | for every run of logins with fresh tokens, checks, slides and logouts on a clock that never goes back: prunes put anywhere into it, or into a beginning of it, change no answer and no validity found next, if and only if no slide lands on a stored but expired session with a new expiry still ahead |
| Sessions.VisitIsCheckThenSlide | internal/web/web.go:102-120 | a visit in one step is its check followed, when admitted, by its slide; with two clock readings the slide brings an expired session back exactly when the old expiry is past at the second reading and the new one is not |
| Sessions.PruneIsInvisible | internal/store/sessions.go:42-48 | corollary: when every visit checks and slides in one step, prunes anywhere in a run change no answer |
| Sessions.PruneBetweenCheckAndSlideIsSeen | internal/web/web.go:102-120 | a five-step run, for every lifetime of whole seconds, in which a prune between check and slide changes a later answer |
| Html.VisibleOfRender | internal/web/highlight.go:70-213 | rendered pieces are escaped text in flat balanced spans, and reading them back gives their text |
| JsonNumber.NumberOkIsNumber | internal/web/highlight.go:215-257 | the deterministic recogniser accepts a text if and only if it splits into minus, int, frac and exp of RFC 8259 section 6 |
| JsonNumber.IsJsonNumber | internal/web/highlight.go:215-257 | the index-scanning method returns true exactly for texts of that grammar |
| Highlight.PiecesKeepText | internal/web/highlight.go:137-213 | the tokens' texts, joined, are the input |
| Highlight.HighlightLosesNothing | internal/web/highlight.go:137-213 | for every text, valid JSON or not, the output is well formed and dropping spans and entities gives the input back |
| Highlight.HighlightJson | internal/web/highlight.go:137-213 | the scanning loops, whose position strictly advances, produce exactly the specified tokens and lose nothing |
| JsonReading.HighlightIsTheReading | internal/web/highlight.go:137-213 | for every text, valid or not: a list of pieces is the highlighter's output if and only if its texts join to the input and each piece is of its kind, with the class that kind and what follows it ask for; so the output is the only such reading |
| JsonGrammar.BodyOfChars | internal/web/highlight.go:144-154 | the quote scan ends a valid literal at its own closing quote, whatever escapes it holds |
| JsonGrammar.ValueSteps | internal/web/highlight.go:137-213 | tokenizing the text of any JSON value, in front of anything that may follow it, gives the highlighting its tree asks for |
| JsonGrammar.HighlightFollowsTheTree | internal/web/highlight.go:137-213 | for every JSON text of RFC 8259 with any white space layout: keys get tok-key, strings tok-str, numbers tok-num, booleans tok-bool, null tok-null, the rest is bare |
| StackTrace.StackLosesNothing | internal/web/highlight.go:70-118 | a non-blank trace keeps its line count; line k shows line k of the input, trimmed exactly when it is a frame; spans are flat and balanced |
| StackTrace.HeaderIsFirstBareLine | internal/web/highlight.go:82-102 | cause, frame and more lines are marked by their own prefix; of the remaining non-blank lines only the first is the header |
| StackTrace.FrameShowsTrimmed | internal/web/highlight.go:107-118 | a frame's spans together show the trimmed line |
| StackTrace.FrameSplitsAtLastParenthesis | internal/web/highlight.go:107-118 | the method ends and the location starts at the last opening parenthesis; without one the frame is all method |
| StackTrace.HighlightStack | internal/web/highlight.go:70-104 | the line loop with its header flag produces that output; a blank trace gives the fixed note |
| StackTrace.LineKinds | internal/web/highlight.go:82-102 | a line is a cause, a "more" line or a frame exactly when, after white space, it starts with the literal text "Caused by:", "...", or "at " and something more |
| Tables.NextId | internal/store/store.go:34-40 | a new row id is larger than every one in use and follows the largest, 1 in an empty table; so freed largest ids come back |
| TableLaws.IngestKeeps | internal/store/ingest.go:71-131 | an ingest keeps the invariant, fails only for an unknown app, is a duplicate only for a stored id, and otherwise files the report |
| TableLaws.IngestEffect | internal/store/ingest.go:87-115 | exactly one report row is added, with its own app, hash, details and receipt time; its issue is reopened with the new title and time, keeping id and first-seen time if it existed; nothing else changes |
| TableLaws.WithoutIssuesKeeps | internal/store/store.go:52 | the issue cascade leaves no report without its issue |
| TableLaws.DeleteAppIsExact | internal/store/apps.go:90-93 | deleting an app removes exactly its own rows from all three tables |
| TableLaws.StepKeeps | internal/store/store.go:33-73 | every store operation keeps keys, unique names, unique (app, hash), statuses and the filing of reports sound |
| TableLaws.ReachableStatesAreSound | internal/store/store.go:33-73 | the invariant holds after any sequence of operations, cascades and reused ids included |
| TableLaws.NewIssueStartsEmpty | internal/store/ingest.go:87-100 | a newly opened issue, even under a reused id, holds the new report alone |
| TableLaws.FreedIdIsReused | internal/store/store.go:40 | deleting the newest of consecutively numbered issues makes the next new issue take its id |
| TableLaws.CascadeIsNeeded | internal/store/store.go:52 | the same delete without the cascade lets a reused id adopt a report of another hash |
| TableLaws.SameIssueIsSameHash | internal/store/ingest.go:87-97 | two stored reports share an issue exactly when they share app and stack hash |
| TableLaws.OrderDoesNotMatter | internal/store/ingest.go:71-131 | ingesting the same distinct reports in two orders stores the same reports, each with its own columns, and groups them the same way |
| StoreObject.Store.CreateApp | internal/store/apps.go:19-32 | refused exactly when the name is taken, else one row under a fresh id; issues and reports untouched |
| StoreObject.Store.RotateAppKey | internal/store/apps.go:78-88 | changes the key of that app only; not found exactly when there is none |
| StoreObject.Store.DeleteApp | internal/store/apps.go:90-93 | leaves exactly the rows of the other apps |
| StoreObject.Store.IngestReport | internal/store/ingest.go:71-131 | the multi-step method is one ingest of the recorded run: duplicate, failed or inserted by the stated conditions; when inserted, the row holds the report's own columns and its receipt time, else the tables are unchanged |
| StoreObject.Store.UpsertIssue | internal/store/ingest.go:87-100 | computes the issues table and id of the upsert without touching the committed tables |
| StoreObject.Store.SetIssueStatus | internal/store/issues.go:177-191 | rejects any other status, needs the owning app, and changes that status only |
| StoreObject.Store.DeleteIssue | internal/store/issues.go:193-204 | removes that issue and its reports, or reports not found and changes nothing |
| StoreObject.Store.DeleteReport | internal/store/issues.go:273-284 | removes that report only, or reports not found and changes nothing |
| IngestProtocol.EveryInterleavingIsSerializable | internal/store/ingest.go:71-131 | after any interleaving of steps, aborts and other operations, the committed tables are those of the finished calls run one after another, each told what it would be told there |
| IngestProtocol.StepKeepsGood | internal/store/store.go:20 | every step keeps exclusive use of the connection, the open transaction's view, and serializability |
| IngestProtocol.WaitingCallFinishes | internal/store/ingest.go:71-131 | progress: whenever the connection is free, any waiting call can begin and is done after at most four more of its own steps, with the tables and the answer of one whole ingest |
| IngestProtocol.TransactionFinishes | internal/store/ingest.go:71-131 | an open transaction in any phase of any reachable state, left alone, is done after at most four steps with the effect of the whole ingest |
| IngestProtocol.EverySerialRunHappens | internal/store/ingest.go:71-131 | the converse of serializability: every serial run of operations is the run of some interleaving |
| IngestProtocol.AbortRollsBack | internal/store/ingest.go:76 | a call can be given up at any point before its commit and then leaves tables, order and other calls as they were and the connection free |
| IngestProtocol.CheckedInsertSucceeds | internal/store/ingest.go:102-125 | a transaction past its duplicate check never has its row ignored: that branch is dead under the single connection |
| IngestProtocol.OnlyCommitsChangeTables | internal/store/ingest.go:76-128 | only a step that returns "inserted" changes the tables; every return and abort frees the connection |
| IngestProtocol.InsertedOnceWhileStored | internal/store/ingest.go:78-85 | two inserts of one report id have a removal of that report between them |
| IngestProtocol.ExactlyOnce | internal/store/ingest.go:71-131 | of concurrent calls with one report id, two are told "inserted" only if the report was removed in between |
| Isolation.DeletedIssueStartsOver | internal/store/issues.go:193-204 | after an issue is deleted and any operations without its stack hash, the next accepted report of that hash opens an issue new in every column, under an unused id, holding that report alone; none of the deleted reports is stored under any issue unless sent again |
| Isolation.AbsentStaysAbsent | internal/store/ingest.go:71-131 | a report that is not stored stays away through any run that does not ingest its id |
| Isolation.RunLeavesOthers | internal/store/store.go:33-73 | a run of operations for other apps, app creation and cascades included, leaves an app's issues, reports and row exactly as they were |
| Isolation.OthersSeeNoChange | internal/store/analytics.go:101-119 | after such a run the app's statistics, breakdowns and daily charts, and every list of its issues under any filter that names it, are the same |
| Like.EscapeLikeIsPerCharacter | internal/store/issues.go:156-160 | the three sequential replacements equal escaping each character once |
| Like.FoldIsCase | internal/store/issues.go:148-160 | two characters fold together exactly when they are equal or the two cases of one ASCII letter |
| Like.SearchMeansSubstring | internal/store/issues.go:148-160 | the search pattern matches a text exactly when the query occurs in it, up to ASCII case |
| IssueQuery.IssueWhere | internal/store/issues.go:117-154 | the two slices grown side by side stay aligned, and bound by position they mean exactly the filter |
| IssueQuery.ListMeansFilter | internal/store/issues.go:46-85 | an issue is listed exactly when one single report of it meets all conditions together; the total counts exactly those issues, the counts exactly those reports and their distinct installation ids |
| IssueQuery.IssuePagesPartition | internal/store/issues.go:61-85 | limit and offset fill exactly the last two placeholders; under whatever order the engine keeps, the pages show every listed issue once, as many as the total |
| IssueQuery.DateRangeMeansDays | internal/web/issues.go:104-113 | the time conditions hold exactly when the report's UTC day lies in the range, the zero day counting as open |
| IssueQuery.ListInDayRange | internal/web/issues.go:92-122 | end to end: under a range of days the list shows exactly the issues with one report received on a UTC day of the range that meets all other conditions, and counts exactly those reports |
| IssueQuery.DateRangeIsExact | internal/store/issues.go:140-147 | a range is honoured on every report received since year 1; on all instants an open one is honoured if and only if it does not start on the zero day |
| Paging.PageNumbers | internal/web/issues.go:25-57 | the map-and-append loops compute the specified list |
| Paging.PageNumsLaws | internal/web/issues.go:25-57 | at most nine entries from 1 to the last page, increasing, nothing skipped silently, each zero an honest gap, every existing page within two of the clamped one present |
| Paging.PagesPartition | internal/store/issues.go:228-262 | pages 1..ceil(total/perPage), concatenated, are the rows |
| Paging.PageHasRows | internal/store/issues.go:244-248 | a page has rows exactly when it is within the page count and there are rows |
| Paging.PagesAreFull | internal/store/issues.go:228-262 | every page before the last holds exactly the page size, none holds more |
| Paging.LinkedPagesHaveRows | internal/web/issues.go:186-203 | every linked page number leads to rows whenever there are any, and the page past the last is empty |
| Listing.OrderedIsListing | internal/store/issues.go:244-248 | the ordered rows are each report once, newest first, ties by id |
| Listing.ListingIsUnique | internal/store/issues.go:244-248 | that order leaves no other possibility |
| Listing.NewestFirst | internal/store/issues.go:247 | the text order lists reports newest first, and by descending id within a second |
| Listing.BrowsingShowsEachReportOnce | internal/store/issues.go:228-262 | going through all pages at any requested page size shows exactly the reports stored for that issue and that app, each once, newest first, as many as the total |
| Listing.PagesAgreeWithList | internal/store/issues.go:228-262 | in every sound state the total of an issue's pages is the report count the app's list shows beside it, and each report of the app is on the pages of exactly one issue of that app |
| Listing.LinkedReportPagesHaveRows | internal/web/issues.go:186-203 | every page number linked below an issue's reports leads to reports exactly when the issue has any, whatever page was asked for |
| Analytics.BreakdownAddsUp | internal/store/analytics.go:74-99 | the unlimited breakdown by any column adds up to the app's report count |
| Analytics.IssueCountsAddUp | internal/store/analytics.go:101-119 | the report counts of an app's unfiltered issues add up to its report count |
| Analytics.IssueTotals | internal/store/analytics.go:104-111 | open plus resolved is all issues of the app; the list's total is at most that, and equals it exactly when every issue of the app has a report |
| Totals.TotalsAgreeExactly | internal/store/issues.go:46-58 | in every state of a run, for every app, the unfiltered list's total equals open plus resolved, if and only if no step of the run deletes the only report of an issue |
| Totals.StepLeavesReports | internal/store/issues.go:273-284 | where every issue has a report, exactly the delete of an issue's only report ends that |
| Totals.DisagreeAfterLastReport | internal/store/analytics.go:104-111 | create an app, ingest one report, delete it: the list's total is 0 and one issue is counted as open |
| Analytics.LatestTextIsLatestTime | internal/store/analytics.go:110 | the greatest stored text is the time of the latest report |
| Counting.IngestStoresColumns | internal/store/ingest.go:87-115 | an accepted report is stored with its own app, issue, hash and details, and its receipt time reads back as the second it was received in |
| Counting.IngestShowsOnItsDay | internal/store/analytics.go:39-72 | after an accepted ingest the charts of everything, of its app and of its issue gain exactly that report on exactly its UTC day; no other chart or day changes |
| Counting.IngestShowsInBreakdowns | internal/store/analytics.go:74-99 | each of the four breakdowns of its app gains one under the report's own value of that column and nothing else |
| Counting.IngestShowsInStats | internal/store/analytics.go:101-119 | the app's report count goes up by one, its installation count exactly when that installation is new to the app |
| Counting.StatusMoves | internal/store/issues.go:177-191 | resolving an open issue moves exactly one from open to resolved, reopening moves it back, repeating a status moves none |
| Counting.FilteredCountsAddUp | internal/store/issues.go:46-85 | under any filter the report counts of the listed issues add up to the number of reports that meet it |
| Counting.BreakdownAgreesWithList | internal/store/analytics.go:74-99 | the number a breakdown shows for a version, Android version or device is the sum of the counts of the issues listed when filtering for it |
| Counting.StatusTotalsAgree | internal/store/analytics.go:101-119 | the total of the list filtered for one status is the dashboard's count of that status exactly when every such issue has a report |
| Analytics.PerDay | internal/store/analytics.go:39-72 | as many entries as days, ending today, labels ascending, each with its day's label and exactly that day's report count, zeros included |
| Analytics.ChartAddsUp | internal/store/analytics.go:39-72 | a stretch of days counts each report received in it exactly once |
| Base64.EncodeUsesAlphabet | internal/auth/auth.go:31-32 | encoded bytes consist of the 64 alphabet characters only |
| Base64.EncodeReadsBack | internal/auth/auth.go:47-51 | decoding an encoding gives the bytes back, for every length |
| Auth.ScanParamsPrinted | internal/auth/auth.go:43-46 | the printed parameters scan back as the same numbers |
| Auth.EncodedSplits | internal/auth/auth.go:29-39 | an encoded hash splits at the dollar signs into "", argon2id, v=19, the printed parameters, salt and key |
| Auth.VerifiesUnderItsOwnParameters | internal/auth/auth.go:35-60 | a hash carrying any parameters verifies an attempt if and only if they, the salt and the key are all present and the attempt derives the key under them, cut to their machine widths |
| Auth.AcceptedIsWellFormed | internal/auth/auth.go:35-60 | nothing verifies against a text that is not lead$argon2id$v=19$parameters$salt$key with readable, non-empty parts |
| Auth.VerifiesExactlyEqualKeys | internal/auth/auth.go:23-60 | an attempt verifies against a password's hash if and only if it derives the same key with 2 passes over 19456 KiB in 1 thread to 32 bytes |
| EnvFile.RewriteEnv | cmd/faulthub/setpassword.go:74-105 | the line loop and the trimming loops compute the specified file |
| EnvFile.EnvKeyMeans | cmd/faulthub/setpassword.go:107-117 | on text: a line's key is a given key exactly when the line is white space, that key, white space, an equals sign and anything; it is empty, as for comments, exactly when the line assigns no key |
| EnvFile.CommentHasNoKey | cmd/faulthub/setpassword.go:109-110 | a line whose first solid character is # has no key, whatever it goes on to say |
| EnvFile.NoPlaintextIsLeft | cmd/faulthub/setpassword.go:74-105 | no line of the rewritten file assigns FAULTHUB_ADMIN_PASSWORD, however spaced, and exactly one assigns FAULTHUB_ADMIN_PASSWORD_HASH: the new line |
| EnvFile.NoPlaintextLine | cmd/faulthub/setpassword.go:80-81 | white space, FAULTHUB_ADMIN_PASSWORD, white space, an equals sign and any text is not a line of the rewritten file |
| EnvFile.HashLineKeepsItsPlace | cmd/faulthub/setpassword.go:82-104 | the new hash line stands where the first old one stood, or at the end when there was none; every line for another key, blank ones included, keeps its place |
| EnvFile.RewriteLaws | cmd/faulthub/setpassword.go:74-105 | one hash line, no plaintext password line, the other non-empty lines in order, the final newline as before |
| EnvFile.RewriteIsIdempotent | cmd/faulthub/setpassword.go:74-105 | rewriting again with the same newline-free hash changes nothing |
| EnvFile.RewriteLookups | cmd/faulthub/setpassword.go:74-117 | every other key's last-wins lookup is unchanged and the hash key finds the new line |
| EnvFile.HashLineKey | cmd/faulthub/setpassword.go:75-117 | the written line has the hash key, whatever its value |
| EnvFile.UnescapeUndoesEscape | cmd/faulthub/setpassword.go:70-72 | doubling the dollar signs is undone exactly |
| EnvFile.SetPasswordRoundTrip | cmd/faulthub/setpassword.go:50-117 | for any previous file or none, any password and salt: the hash read back from the file accepts exactly the attempts that derive the password's key |

## Left out

- ParseTime: reads the twenty-character UTC form that FmtTime writes; the offsets and fractions Go's parser also takes never reach the database.
- ListIssues: which order the issue list comes in is not modelled, because its ORDER BY does not break ties; the pages are those of any one order the engine keeps.
- ListIssueReports: the query result is a sequence and the loop that collects its rows is not written out.
- PerDay: the rows of the grouped query are a parameter, described by what they count; years before 0000 are outside the range.
- AppOverview repeats the AppStats subqueries once per app and is not written out.
- Breakdown: the order by count, the LIMIT and the "(unknown)" label are not modelled; the theorem is about all groups.
- IngestProtocol.Take: a commit that fails is taken to have committed nothing; busy timeouts and crashes of the engine are not modelled.
- NextId: SQLite's random choice after row id 2^63-1 is not modelled.
- RateLimit.Limiter.Allow: float64 rounding and the saturation of very long durations are not modelled; buckets are values in the map rather than shared pointers, which no caller can observe.
- VerifyPassword: the panic of the key derivation for parameters that truncate to zero, and constant-time comparison, are not modelled.
- Like.Matches: NUL characters and SQLite's limit on the pattern length are not modelled.
- Sessions.SessionStore.RequireAuth: one method call, with nothing between its two statements; runs that put other steps between them are covered by PrunesUnseenExactly, where check and slide are separate steps.
- hlJSON's validity check and re-indentation are library calls; the highlighting theorem covers every layout they can produce.
- TopIssues, GetIssue, DistinctValues and ThreadDisplay would only add easy members.
- Reading the environment file back is the rule the rewritten file relies on (last line with the key, text after its first equals sign, `$$` for `$`); Compose's own parser, with quoting and variable interpolation, is not part of this model.
- HTTP handlers, routing, cookies, templates, browser scripts, seed data, backup, schema upgrades, configuration loading, real-IP detection, key generation, report titles and device-clock dates.
