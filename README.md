# smart-investing Reddit pipelines, modelled in Dafny

This project models the two Reddit pipelines of smart-investing and proves
properties of them.

**The monthly extraction** (`data-sources/reddit.py`) walks every month from the
start year to the current month. For each month it fetches the submissions and
then the comments of a subreddit from a paged search endpoint. The endpoint is
queried with a `before` cursor that moves below the oldest item of each page,
and a failure counter gives up after ten consecutive failures. A unit's archive
file is `<data folder>/<subreddit>/<kind>/<year>_<month>.csv`. Its existence
alone marks the unit as done.

**The daily aggregation** (`preprocess/reddit.py`) summarizes every `.csv`
archive file of a community day by day. Each summary is cached in a `summary`
directory. The submission summaries and the comment summaries are each
concatenated, the two are joined on the day, and the result is written to
`overall_summary.csv`.

Modules:

| module | file | what it holds |
|---|---|---|
| `Wrappers` | wrappers.dfy | `Option` and `Result` |
| `Records` | records.dfy | kinds, items, summary rows, file contents, the `FileSystem` class (a map from path to content) |
| `Paths` | paths.dfy | POSIX `os.path.join`, decimal rendering of integers, and the lemmas that make paths injective |
| `Calendar` | calendar.dfy | `get_limit_dates`, with the proleptic Gregorian ordinal arithmetic of Python's `datetime` |
| `Fetcher` | fetcher.dfy | `get_reddit_data`: the loop as a method, the same loop as a state machine (`Run`), and its trace (`Trace`) |
| `Archive` | archive.dfy | `get_file_path`, `already_computed`, `save_reddit_data`, `save_reddit_submissions`, `save_reddit_comments` |
| `Extraction` | extraction.dfy | `extract_subreddit_data`: the visited months, and the nested loops proved against a month-by-month run |
| `DailySummary` | daily_summary.dfy | the per-file group-by-day summary: day buckets, sentiment texts, counts and means |
| `Rollup` | rollup.dfy | `merge(on='day')` as a left-major inner join |
| `Preprocess` | preprocess.dfy | the cache-gated file summaries, `compute_all_summary`, `compute_cripto_summaries` |

The external parts become parameters:

- The search endpoint is a `PageSource`, a function from request to response. A request carries its own sequence number, so the source may answer differently over time.
- The local UTC offset is a fixed `utcOffset`.
- The current year and month are inputs.
- The result of each write is an oracle `writeOk(path)`.
- Each directory listing is a sequence of names.
- The sentiment scorer is an opaque function from text to a real number.

Two of the code's own numbers matter below:

- With the default anchor `hour=12`, the January 2020 window in UTC ends at 1580475599, which is 2020-01-31 12:59:59. A window covering the whole month would end at 1580515199. The model follows the code, and `Calendar.ConsecutiveWindows` proves the gap it leaves.
- The items of an empty fetch still give an archive file, because the `DataFrame` has its columns even with no rows. The model writes it too.

## Model

| member | source | states |
|---|---|---|
| Calendar.LimitDates | data-sources/reddit.py:27-46 | no window exactly when one of the `datetime(...)` calls would raise: bad year, month or hour, or December 9999. Otherwise the start, shifted by the UTC offset, is local midnight of the 1st |
| Calendar.WindowEnd | data-sources/reddit.py:40-44 | the window ends at `hour:59:59` on the last calendar day of the month, computed as the next month's 1st minus one day, December included |
| Calendar.NextMonthOrdinal | data-sources/reddit.py:40-43 | the 1st of the next month, with December rolling over to January of the next year, comes `DaysInMonth` days after the 1st of this month |
| Calendar.ConsecutiveWindows | data-sources/reddit.py:27-46 | the next month's window starts `86400 - (hour*3600 + 3599)` seconds after this one ends. They meet only at hour 23, so the default hour 12 leaves 39600 seconds of every month outside every window |
| Calendar.January2020 | data-sources/reddit.py:27-46 | January 2020 in UTC with the default anchor is the window [1577836800, 1580475599] |
| Paths.JoinShape | data-sources/reddit.py:96 | `os.path.join` ends with its last component; a relative component is appended after the separator-terminated prefix |
| Paths.IntToStringInjective | data-sources/reddit.py:96 | distinct integers render as distinct decimal strings |
| Records.KindName | data-sources/reddit.py:57 | the kind names are non-empty path components |
| Records.FileSystem.Write | data-sources/reddit.py:116 | a write replaces one path's content and no other |
| Archive.FilePath | data-sources/reddit.py:95-96 | `get_file_path`: `os.path.join` of the root, the subreddit, the kind and `<year>_<month>.csv`. Its shape and injectivity are stated by `Archive.FilePathShape` and `Archive.FilePathInjective` |
| Archive.AlreadyComputed | data-sources/reddit.py:86-93 | `already_computed`: the unit's path exists, whatever it holds. What the gate does is stated by `Archive.ExistingFileIsDone` |
| Archive.SaveUnit | data-sources/reddit.py:48-84 | one unit's save: existence gate, window, fetch, success check, write. Its behaviour is stated by `Archive.ExistingFileIsDone`, `Archive.WindowlessUnitRaises`, `Archive.SaveUnitFrame`, `Archive.FailedFetchWritesNothing` and `Archive.SavedFileHoldsAllPages` |
| Archive.FileNameIsCsv | data-sources/reddit.py:96 | every unit's file name ends in `.csv` |
| Archive.FilePathShape | data-sources/reddit.py:95-96 | the unit path is `<root prefix><subreddit>/<kind>/<year>_<month>.csv` |
| Archive.FileNameInjective | data-sources/reddit.py:96 | distinct (year, month) pairs have distinct file names |
| Archive.FilePathInjective | data-sources/reddit.py:95-96 | distinct (subreddit, kind, year, month) units have distinct paths, for subreddit names without a separator |
| Archive.ExistingFileIsDone | data-sources/reddit.py:58-59 | a unit whose file exists returns at once and leaves the files as they are, whatever the file holds and whatever the source would answer |
| Archive.SaveUnitFrame | data-sources/reddit.py:48-65 | saving a unit creates at most that unit's file; no existing file changes |
| Archive.FailedFetchWritesNothing | data-sources/reddit.py:60-62 | a fetch that fails, or never ends, writes nothing |
| Archive.WindowlessUnitRaises | data-sources/reddit.py:58-60 | a missing unit of a month `get_limit_dates` rejects raises in the fetch, after the gate: nothing is written and the run does not go on |
| Archive.SavedFileHoldsAllPages | data-sources/reddit.py:60-65 | a missing unit that is fetched and written holds exactly the items of every page received, in request order |
| Archive.SaveRedditData | data-sources/reddit.py:98-121 | the unit's file is created with the items, or the files stay as they were when the write fails |
| Archive.SaveRedditAssets | data-sources/reddit.py:48-65 | the shared body of the two savers: existence gate, then the fetch (which raises for a month without a window), success check and write. It returns and leaves what `Archive.SaveUnit` gives |
| Archive.SaveRedditSubmissions | data-sources/reddit.py:48-65 | `save_reddit_submissions` is the submission unit's save |
| Archive.SaveRedditComments | data-sources/reddit.py:67-84 | `save_reddit_comments` is the comment unit's save |
| Fetcher.MinCreated | data-sources/reddit.py:160 | the result is the `created_utc` of some item of the page, and no item is older |
| Fetcher.Step | data-sources/reddit.py:158-168 | one pass of the loop that does not end it: a failure counts one more attempt and keeps the cursor; a page is appended, moves the cursor and resets the counter. Stated over the trace by `Fetcher.CursorLaw` and `Fetcher.StreakStep` |
| Fetcher.Run | data-sources/reddit.py:148-175 | the loop as a state machine, for at most `fuel` requests. How it ends is stated by `Fetcher.RunEndsAsTraced` |
| Fetcher.GetRedditData | data-sources/reddit.py:123-175 | the `while True` loop over the cursor, the counter and the accumulator returns what the state machine `Run` returns from the query's start state |
| Fetcher.RunEndsAsTraced | data-sources/reddit.py:148-175 | the loop succeeds exactly when its last response is an empty page, and then returns every page received, in request order. It fails with `[]` after `maxRetries` consecutive failures. Otherwise the request budget is used up |
| Fetcher.StreakStep | data-sources/reddit.py:158-167 | a failure adds one to the consecutive-failure count; a non-empty page resets it to 0 |
| Fetcher.RequestsWithinRetryBudget | data-sources/reddit.py:149-150 | every request is sent with fewer than `maxRetries` consecutive failures behind it |
| Fetcher.CursorLaw | data-sources/reddit.py:137-161 | every request carries the subreddit, the window start and page size 500, and the first carries the window end. After a failure the cursor repeats; after a page it becomes the page's oldest `created_utc` minus 1. Only the last response can be an empty page |
| Fetcher.CursorsDescend | data-sources/reddit.py:161 | with a source that honours `before`, cursors never move forward |
| Fetcher.PagesStrictlyOlder | data-sources/reddit.py:158-161 | with a source that honours `before`, every item of a later page is strictly older than every item of an earlier page |
| Fetcher.HonestSourceTerminates | data-sources/reddit.py:148-157 | the loop has no lower-bound guard, yet with a source that keeps to the window it ends within `(before - after + 2) * (maxRetries + 1)` requests |
| Fetcher.RetryExhaustion | data-sources/reddit.py:165-175 | a source that always fails makes the fetch fail after exactly `maxRetries` requests |
| Fetcher.TwoPagesThenEmpty | data-sources/reddit.py:145-172 | two pages and then an empty one: three requests with cursors `end`, `min(p1) - 1`, `min(p2) - 1`, and `p1 + p2` as the result |
| Extraction.Months | data-sources/reddit.py:187-189 | the (year, month) pairs the nested loops visit, in order. Stated by `Extraction.MonthAt`, `Extraction.MonthsCount` and `Extraction.MonthsExactly` |
| Extraction.SaveMonth | data-sources/reddit.py:190-191 | the submissions, then, if they returned, the comments of one month. Stated by `Extraction.SaveMonthFrame` and `Extraction.HungSubmissionsSkipComments` |
| Extraction.RunMonths | data-sources/reddit.py:187-191 | the saves of the visited months in order, stopping at the first that does not return. Stated by `Extraction.RunYearsIsRunMonths`, `Extraction.ExtractPreservesFiles`, `Extraction.ExtractCreatesOnlyUnitFiles` and `Extraction.CompletedArchiveIsSkipped` |
| Extraction.ExtractFrom | data-sources/reddit.py:187-191 | submissions then comments for each month of a given sequence, stopping at the first save that does not return; over `Extraction.Months` it is the whole extraction of a subreddit. Stated by the same four lemmas, and the nested loops are proved to give it by `Extraction.ExtractSubredditData` |
| Extraction.MonthRange | data-sources/reddit.py:189 | `range(1, max_month + 1)` for one year: its length and its elements |
| Extraction.SaveMonthFrame | data-sources/reddit.py:190-191 | a month adds at most its two unit files and keeps every other file |
| Extraction.HungSubmissionsSkipComments | data-sources/reddit.py:190-191 | submissions come first: when their fetch never ends, the month's comments are not fetched, nothing is written and the run stops |
| Extraction.MonthAt | data-sources/reddit.py:187-189 | the i-th visited month is month `i % 12 + 1` of year `start + i / 12` |
| Extraction.MonthsCount | data-sources/reddit.py:187-189 | `12 * (current_year - start_year) + current_month` months are visited |
| Extraction.MonthsExactly | data-sources/reddit.py:187-189 | a month is visited exactly when it is a full year's month in `[start_year, current_year)` or a month up to `current_month` of the current year, and the visits go strictly forward in time |
| Extraction.MonthsInRange | data-sources/reddit.py:184-189 | every month of a run from a valid start and current date gets a window from `get_limit_dates`, so no unit of such a run raises there |
| Extraction.ExtractPreservesFiles | data-sources/reddit.py:187-191 | a run never changes or removes an existing file |
| Extraction.ExtractCreatesOnlyUnitFiles | data-sources/reddit.py:187-191 | a run creates nothing but the archive files of the units it visits |
| Extraction.SaveUnitStores | data-sources/reddit.py:58-65 | a save that returns keeps a unit's existing archive file, and a unit's own save creates its file when its fetch returns and its write succeeds; a write to another unit's path never replaces it |
| Extraction.SaveMonthStores | data-sources/reddit.py:190-191 | a month that returns keeps a unit's existing archive file, and the unit's own month creates it when its fetch returns and its write succeeds |
| Extraction.ExtractStoresFetchedUnits | data-sources/reddit.py:187-191 | the converse of `Extraction.ExtractCreatesOnlyUnitFiles`: after a run that finishes, every visited unit whose fetch returns its items and whose write succeeds has its archive file holding exactly those items, whether it was missing before or already held them |
| Extraction.CompletedArchiveIsSkipped | data-sources/reddit.py:187-191 | resumability: when every unit already has its file, a run changes nothing and finishes, whatever the sources would answer |
| Extraction.RunYearsIsRunMonths | data-sources/reddit.py:187-191 | running year by year, as the nested loops do, is running month by month over the visited months |
| Extraction.ExtractMonth | data-sources/reddit.py:190-191 | the inner loop body: the submissions, then, if they returned, the comments of one month |
| Extraction.ExtractYear | data-sources/reddit.py:189-191 | the inner loop runs the months `1..max_month` of the year in order and stops at the first save that does not return |
| Extraction.ExtractSubredditData | data-sources/reddit.py:177-191 | the nested loops leave the files of the month-by-month run over every visited month |
| DailySummary.InTimestampRange | preprocess/reddit.py:34 | the `created_utc` values `pd.to_datetime(..., unit='s')` converts without `OutOfBoundsDatetime`: from -9223372036 to 9223372036 seconds. Stated by `DailySummary.TimestampRangeIsInt64Nanoseconds`; the summary raises outside it (`Preprocess.CacheMiss`, `Preprocess.TimestampBoundary`) |
| DailySummary.TimestampRangeIsInt64Nanoseconds | preprocess/reddit.py:34 | a timestamp is in range exactly when its count of nanoseconds is a signed 64-bit integer other than the smallest one, which pandas reserves for `NaT` |
| DailySummary.Day | preprocess/reddit.py:34-35 | the day number is the UTC day whose 86400 seconds contain `created_utc`, i.e. `created_utc div 86400`. It is applied only to timestamps in range, because `Preprocess.FileSummary` raises before it for any other |
| DailySummary.SubmissionText | preprocess/reddit.py:37 | the text scored for a submission. Stated by `DailySummary.SubmissionTextParts` and `DailySummary.SubmissionTextAmbiguous` |
| DailySummary.CommentText | preprocess/reddit.py:66 | the text scored for a comment. Stated by `DailySummary.CommentTextMissing` |
| DailySummary.Extra | preprocess/reddit.py:43 | the averaged extra column: `upvote_ratio` for a submission, `controversiality` for a comment (line 72). Its daily mean is bounded by `DailySummary.AverageExtraWithinDay` |
| DailySummary.SubmissionTextParts | preprocess/reddit.py:37 | the submission text is the title, `" - "`, then the self text, with a missing column read as empty |
| DailySummary.SubmissionTextAmbiguous | preprocess/reddit.py:37 | the separator is not escaped, so different titles and self texts can give the same text |
| DailySummary.CommentTextMissing | preprocess/reddit.py:66 | the comment text is the body, with a missing body read as empty |
| DailySummary.DaysOf | preprocess/reddit.py:40 | the group keys are the distinct days of the items, strictly ascending |
| DailySummary.OnDay | preprocess/reddit.py:40 | a day's group holds items of that day only, and every item of that day |
| DailySummary.OnDayMultiplicity | preprocess/reddit.py:40-41 | a day's group holds each item of that day as often as the input does, and nothing else, so repeated items are counted and averaged as often as they occur |
| DailySummary.Summarize | preprocess/reddit.py:40-45 | one row per distinct day, days strictly ascending. Each row counts at least one item, its day's items, and holds the means of their score, extra column and sentiment |
| DailySummary.Row | preprocess/reddit.py:40-45 | the aggregation of one day's group: its count and the means of score, extra column and sentiment. Stated by `DailySummary.Summarize`, `DailySummary.DayHasItems`, `DailySummary.SummaryCountsAddUp` and the three `Average…` lemmas |
| DailySummary.DayHasItems | preprocess/reddit.py:40-41 | every day of the output has at least one item |
| DailySummary.ScaledMean | preprocess/reddit.py:42-44 | a mean times its count is the sum |
| DailySummary.AverageScoreWithinDay | preprocess/reddit.py:42 | a day's mean score lies between that day's smallest and largest score |
| DailySummary.AverageExtraWithinDay | preprocess/reddit.py:43 | a day's mean upvote ratio or controversiality lies between that day's extremes |
| DailySummary.AverageSentimentInRange | preprocess/reddit.py:44 | a scorer with values in [-1, 1] gives daily mean sentiments in [-1, 1] |
| DailySummary.SummaryCountsAddUp | preprocess/reddit.py:41 | the daily counts add up to the number of items |
| Rollup.MergeOnDay | preprocess/reddit.py:100 | `merge(on='day')` as a left-major inner join. What it holds is stated by `Rollup.MergeCount`, `Rollup.MergeSound`, `Rollup.MergeComplete` and `Rollup.MergeDays` |
| Rollup.Matches | preprocess/reddit.py:100 | each joined row pairs the left row with a right row of the same day |
| Rollup.MergeCount | preprocess/reddit.py:100 | as a multiset, the join holds each same-day (submission row, comment row) pair as often as the product of the two rows' multiplicities, and nothing else |
| Rollup.MergeSound | preprocess/reddit.py:100 | every output row pairs an input submission row and an input comment row of its own day |
| Rollup.MergeComplete | preprocess/reddit.py:100 | every same-day pair of input rows appears in the output |
| Rollup.MergeDays | preprocess/reddit.py:100 | a day is in the overall summary exactly when both concatenations have it |
| Rollup.MergeSize | preprocess/reddit.py:100 | the output has one row per same-day pair |
| Rollup.JoinKeepsCommonDay | preprocess/reddit.py:100 | submission days {1, 2} joined with comment days {2, 3} give the single row of day 2 |
| Preprocess.SummaryPath | preprocess/reddit.py:20-21 | `get_summary_path`: `os.path.join(path, 'summary')`. The layout is stated by `Preprocess.DestinationShape` |
| Preprocess.Destination | preprocess/reddit.py:27 | the cache file of a listed file. Stated by `Preprocess.DestinationShape`, `Preprocess.DestinationNotSource` and `Preprocess.DestinationInjective` |
| Preprocess.AlreadyComputed | preprocess/reddit.py:12-18 | the cache gate: the cache file exists. What the gate does is stated by `Preprocess.CacheHit` and `Preprocess.CacheMiss` |
| Preprocess.Readable | preprocess/reddit.py:34-37 | an archive file the summary can read (lines 63-66 for comments): every `created_utc` in pandas' range, and the kind's columns in the header and in every row. Its role is stated by `Preprocess.CacheMiss` |
| Preprocess.FileSummary | preprocess/reddit.py:23-79 | `compute_submission_file_summary` and `compute_comment_file_summary`, including the `OutOfBoundsDatetime` of `pd.to_datetime` before the text columns are read. Their behaviour is stated by `Preprocess.CacheHit`, `Preprocess.CacheMiss`, `Preprocess.TimestampBoundary`, `Preprocess.FileSummaryFrame`, `Preprocess.FileSummaryStored` and `Preprocess.FileSummaryIdempotent` |
| Preprocess.DestinationShape | preprocess/reddit.py:20-27 | the cache file is `<dir prefix>summary/summary_<file>` |
| Preprocess.DestinationNotSource | preprocess/reddit.py:27-31 | the cache file is never the archive file it caches |
| Preprocess.DestinationInjective | preprocess/reddit.py:27 | different file names have different cache files |
| Preprocess.SourceNotDestination | preprocess/reddit.py:27-31 | a listed name without a separator is never another file's cache file |
| Preprocess.CacheHit | preprocess/reddit.py:28-29 | an existing cache file is read back. No file changes, and the archive file and the scorer are not consulted |
| Preprocess.CacheMiss | preprocess/reddit.py:31-50 | without a cache file, the call succeeds exactly when the archive file exists, has the kind's columns, holds items of the kind and has every `created_utc` in pandas' range, and then returns their daily summary. A missing archive file is `FileNotFound`; an archive with a timestamp out of range is `OutOfBoundsDatetime` |
| Preprocess.TimestampBoundary | preprocess/reddit.py:34 | a submission created at 9223372037 makes the summary raise `OutOfBoundsDatetime` and write nothing; one created at 9223372036 is summarized |
| Preprocess.FileSummaryFrame | preprocess/reddit.py:23-50 | a call creates at most its own cache file, changes no existing file, and changes nothing when it raises |
| Preprocess.FileSummaryStored | preprocess/reddit.py:47 | after a call that returns rows, the cache file holds exactly those rows |
| Preprocess.FileSummaryIdempotent | preprocess/reddit.py:23-50 | summarizing a file twice gives the same outcome and files as once |
| Preprocess.FileSummaryLocal | preprocess/reddit.py:23-50 | a call's outcome depends on no file but its cache file and its archive file |
| Preprocess.SummaryIndependent | preprocess/reddit.py:87-89 | summarizing one listed file does not change what another listed file's summary returns |
| Preprocess.SummariesAreStandalone | preprocess/reddit.py:86-91 | the loop's result is every file's own summary, concatenated in listing order, or the first error |
| Preprocess.SummariesFrame | preprocess/reddit.py:86-91 | the loop creates only cache files of listed names and changes no existing file |
| Preprocess.SummariesFromCache | preprocess/reddit.py:86-91 | rerunning a successful loop on files that keep its cache files returns the same rows and changes nothing |
| Preprocess.SummariesIdempotent | preprocess/reddit.py:86-91 | running the loop twice gives the same outcome and files as once, whether or not the first run raised |
| Preprocess.CsvNames | preprocess/reddit.py:83 | a name is kept exactly when it is listed and ends in `.csv` |
| Preprocess.ArchiveFilesAreListed | preprocess/reddit.py:83 | every archive file the extraction writes passes the `.csv` filter, and is the file read for it in its kind's directory |
| Preprocess.NonCsvIgnored | preprocess/reddit.py:83 | adding a non-`.csv` entry to the listing changes nothing |
| Preprocess.AllSummary | preprocess/reddit.py:81-91 | `compute_all_summary` over the `.csv` names of a listing. Stated by `Preprocess.AllSummaryIsConcatenation` and `Preprocess.NonCsvIgnored` |
| Preprocess.AllSummaryIsConcatenation | preprocess/reddit.py:81-91 | `compute_all_summary` returns the concatenated summaries of the `.csv` files, with as many rows as those summaries together, and raises exactly when one of them raises |
| Preprocess.ComputeFileSummary | preprocess/reddit.py:23-79 | the two summary functions on the file system return and leave what `Preprocess.FileSummary` gives: the cached rows on a hit; otherwise `FileNotFound`, `OutOfBoundsDatetime` or `Malformed` with no file changed, or the daily summary written to the cache file |
| Preprocess.ComputeAllSummary | preprocess/reddit.py:81-91 | the accumulating loop returns and leaves what the listing-order run `AllSummary` gives |
| Preprocess.CommunityLayout | preprocess/reddit.py:93-102 | the kind directories are `<root prefix><crypto>/submission` and `/comment`, and the overall file is `<root prefix><crypto>/overall_summary.csv` |
| Preprocess.CommunityPathsApart | preprocess/reddit.py:93-102 | the overall file is no cache file of either kind, and a submission cache file is neither a comment cache file nor a comment archive file |
| Preprocess.CryptoSummaries | preprocess/reddit.py:93-104 | `compute_cripto_summaries`: both concatenations, their join on the day, and the write of the overall file. Stated by `Preprocess.OverallSummaryContents`, `Preprocess.NoCsvFileRaises`, `Preprocess.CryptoSummariesIdempotent` and `Preprocess.FailedSummaryKeepsOverall` |
| Preprocess.ComputeCriptoSummaries | preprocess/reddit.py:93-104 | `compute_cripto_summaries` on the file system returns and leaves what `Preprocess.CryptoSummaries` gives, including the `KeyError` of the join |
| Preprocess.OverallSummaryContents | preprocess/reddit.py:97-103 | on success both listings have a `.csv` file, and the overall file holds the join of all submission summaries with all comment summaries, each as its file alone gives it, whatever the overall file held before. A day is in it exactly when both kinds have it |
| Preprocess.HasDayKey | preprocess/reddit.py:86-100 | whether a concatenation has the `day` key that `merge(on='day')` needs: it has one exactly when its listing has a `.csv` file. Stated by `Preprocess.NoCsvFileRaises` and `Preprocess.OverallSummaryContents` |
| Preprocess.NoCsvFileRaises | preprocess/reddit.py:86-100 | a directory without a `.csv` file gives the bare `pd.DataFrame()`, which has no `day` key, so the join raises and the run never succeeds. When neither directory has one, the error is the missing `day` key |
| Preprocess.CryptoSummariesIdempotent | preprocess/reddit.py:93-104 | summarizing a community twice gives the same outcome and files as once |
| Preprocess.FailedSummaryKeepsOverall | preprocess/reddit.py:97-103 | a community whose summaries raise leaves its overall file as it was |

## Left out

- The endpoint is assumed to answer with items of the queried kind. The code projects every page onto the kind's columns (`pd.DataFrame(..., columns=[...])` at data-sources/reddit.py:63 and :82). The model writes the items as received, in a file tagged with the kind.
- The HTTP request, the JSON decoding, the Pushshift URL and the `timeout` are left out. The endpoint is the `PageSource` parameter, and any exception on a request is a `Fail` response.
- `sleep` and every `logging` call are left out. They have no effect on the data.
- The loop of `get_reddit_data` has no bound of its own. The model runs it for at most `fuel` requests. `OutOfFuel` stands for a fetch that would still be running, and the extraction stops there because the source would never return.
- `datetime.timestamp()` on naive datetimes uses the machine's time zone, including daylight saving time. The model uses one fixed offset, `utcOffset`.
- `datetime.now()` is left out. The current year and month are inputs.
- `get_limit_dates` raises for a month outside `datetime`'s range. It is called only after the existence gate, so a unit whose file exists returns even for such a month. The model raises at the same point (`Archive.WindowlessUnitRaises`). The raise is modelled as the end of the run over the subreddit, not as the end of the program. A run from valid inputs never reaches such a month (`Extraction.MonthsInRange`).
- `os.makedirs`, directories and `os.listdir` are left out. Directory listings are given as sequences of names, and a missing kind directory is modelled as an empty listing, where `os.listdir` raises `FileNotFoundError` before anything is summarized. The model then summarizes the other kind, writes its cache files and fails with `MissingColumn("day")` unless that summary raises first. Directory existence otherwise plays no part, and a write either succeeds or fails as the `writeOk` oracle says.
- The preprocessing writes, both the cache files and the overall file, are modelled as always succeeding.
- pandas CSV encoding is left out. A file holds the typed value that was written. A cached summary is read back as the rows that were stored.
- pandas reads a cached summary back with the day as a string column, while a fresh summary has the day as a date index. The model treats a cached summary and a fresh one as the same rows, so a run that mixes the two is not modelled as pandas would concatenate and join it.
- `OutOfBoundsDatetime` is modelled as an error of the summary call for the archive file, like the other read errors. Only the range of `created_utc` is modelled; `pd.to_datetime` on a non-integer or missing value is not, because every item has an integer `created_utc`.
- An archive file whose content has the wrong shape is modelled as a `Malformed` error, where pandas raises its own exception. This includes an archive file of the other kind, even an empty one, because its header lacks the column that is read (`KeyError`).
- Preprocess.FileSummary: a cache file holding another table (an archive or an overall summary) is read back by `pd.read_csv` without error, but the model reports it as `Malformed` for the cache file, because a cache hit can only return summary rows. Neither writer puts such a table at a cache path (`Preprocess.DestinationNotSource`, `Preprocess.CommunityPathsApart`), so only states the two pipelines reach are modelled as the source behaves.
- The `KeyError` of the join on a side without a `.csv` file is modelled as the error `MissingColumn("day")`.
- The VADER analyzer is left out. Sentiment is an opaque function from text to a real number. Only the text handed to it is modelled.
- Floating point is left out. Means are exact real sums divided by counts, and upvote ratios are reals.
- Missing numeric values (`NaN`) are left out: every item has its score, extra column, `created_utc` and id. Only the text columns may be missing.
- A page whose items lack `created_utc` is left out. In the code, such a page is appended to the result before `min` raises, the retry then fetches the same page again, and its items are duplicated. In the model, `min` never raises.
- `set_index("id")` neither removes duplicate ids nor reorders rows, and the model has no deduplication step.
- The row order of pandas `merge(on='day')` is modelled as left-major: each submission row, in order, meets its day's comment rows in order. Only the multiset of rows and the set of days (`Rollup.MergeCount`, `Rollup.MergeDays`) are claimed about pandas.
- The hard-coded subreddit list, `main`, the data folder constant and the loop over community directories are left out. The root, the subreddit and the community are parameters.
- Windows path handling (`ntpath`, which the `C:/` data folder suggests) is left out. `os.path.join` is modelled with POSIX semantics.
