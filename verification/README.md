# tool_prime core, modelled in Dafny

tool_prime mines a software repository for process metrics. It reads the
commits of a git repository and the issues of its GitHub project. It stores
them as normalised tables, then derives daily time series from them:
- project size;
- productivity;
- bus factor;
- issue spoilage;
- issue density.

This project models the deterministic core of that pipeline:
- **Revision normaliser.** `parse_vcs` and the table helpers it is built on.
  The commits not stored by an earlier run become four tables:
  - a commit-hash table;
  - author and committer tables, deduplicated by e-mail, first seen wins;
  - a release table.

  A commit log refers to those tables by row label. Co-author and parent
  lists are stored as JSON lists of references.
- **Size metrics.**
  - Per-file sizes measured at every commit.
  - The per-commit sum.
  - The join with commit days.
  - Two per-day series: the "last commit of the day, carried forward" series
    of the `prime` package, and the per-day sum of the `src` package.
- **Productivity.** First differences of the per-commit sizes, and their
  per-day sums. Telescoping lemmas relate the two.
- **Bus factor.** Per day and per committer, the sum of the absolute
  deltas. A day without any committer gets a row of `-1` values.
- **Issues.**
  - The paginated fetch loop and the issue-id normalisation.
  - The daily intervals and the issue intervals.
  - The cover count behind issue spoilage.
  - The left join plus forward fill behind issue density.
- **Git output parsing.** How the output of `git log` becomes a list of hashes
  and a metadata dictionary, and how an exit code becomes a yes/no answer.
- **Dispatch.** `handle_db` and `main`: a sub-command picks a database path
  and a handler, and a command line that cannot be used ends with an exit
  code.

Modelling conventions:
- A data frame is a sequence of `Row(index, value)`. The index label is kept
  because a later `reset_index` turns it into a foreign key, and the
  database stores it as `id`.
- A missing value (NaN, NaT, `None`) is `Option.None`.
- Times are integer seconds since the epoch, in UTC. Days are integer day
  numbers (`Calendar.DayOf`), and `floor(freq="D")` is `Calendar.FloorDay`.
  The 23:59:59 end of a daily interval is kept exactly, in seconds.
- "Today" (`Timestamp.utcnow().floor("D")`) is a parameter.
- Anything that reaches outside the program is an abstract function
  parameter: the `scc` measurement, the checkout, the tag-to-commit
  resolution and the GitHub page fetch.
- The five size counters (lines, code, comments, blanks, bytes) form one
  `Sizes` value, and every table sums, differences or takes the absolute
  value of them column by column.

Where the documentation and the code disagree, the model follows the code:
- **Issue spoilage.** The code floors issue bounds to midnight but ends
  each daily interval at 23:59:59. So an issue counts on day `d` exactly
  when it was created on or before `d` and closed after `d`. An issue
  opened and closed on the same day is never counted
  (`Issues.CoversIffOpen`, `Issues.SameDayNeverCounted`). The daily
  intervals stop before today, because the last one is sliced off.
- **No issues.** With an empty issue table, `handle_issue_spoilage` fails
  (prime/main.py:467-472). `apply(axis=1)` on an empty frame returns a
  frame, not a column, and that cannot be assigned to the single column
  `interval`. `Issues.HandleIssueSpoilage` fails there too.
- **No fetched issues.** When the crawl yields no issue, `pd.concat` gives a
  frame without columns. Selecting `issue_id` from it raises `KeyError`
  (prime/main.py:266-270), so `handle_issues` writes nothing.
  `Issues.HandleIssues` fails there.
- **`FileSizePerCommit.compute` has no `try`/`finally`.** The most recent
  revision is checked out again only when every measurement succeeded.

## Deviations

At the points below, the code as written raises on every call. The model
gives those calls their evident intent instead:
- **Import of `get_first_namespace_key`.** prime/main.py:55 imports
  `get_first_namespace_key` from `prime.cli`, which does not define it. So
  loading prime/main.py raises `ImportError`, and its `main` never runs.
  The only definition is src/main.py:51-68. `Dispatch` takes the first
  key as that function computes it: `set.pop` on the key prefixes, which
  raises `KeyError` when the namespace has no key.
- **Keyword names in `parse_vcs` (`TypeError`).** `parse_vcs` calls
  `copy_dataframe_cols_and_remove_duplicate_rows_by_col` with the keywords
  `columns=` and `checkColumn=`. The helper declares `keep_columns` and
  `unique_column` (src/api/vcs.py:381-390 against src/api/utils.py:59-63).
  As written, `parse_vcs` raises. `Vcs.ParseVcs` applies the helper's
  declared meaning: projection, then deduplication on the e-mail column.
- **Metric constructors in `prime/main.py` (`TypeError`).** Every metric class of
  prime/api/metrics.py takes only a database handle in its constructor.
  Examples are the `Metric` base at prime/api/metrics.py:29-34 and
  `ProjectSizePerDay` at prime/api/metrics.py:129-131. `prime/main.py`
  instead passes the data frames and inputs itself (prime/main.py:167,
  182, 210, 356, 377, 420, 474). `IssueDensityPerDay` passes
  `input_data=` to that same base (prime/api/metrics.py:417-423). So every
  metric computation of `prime/main.py` raises as written. The model
  states each `compute()` on the inputs the handler prepares. For most
  metrics the per-row logic is that of prime/api/metrics.py.
  `handle_size` builds its per-day table from the joined per-commit sizes
  (prime/main.py:195-211). That input fits the per-day sum of
  src/api/metrics.py:102-118 (`SizeMetrics.SizePerDaySum`). The keep-last
  series of the prime class is modelled too
  (`SizeMetrics.ProjectSizePerDay`), and `SizeMetrics.VariantsDisagree`
  shows the two differ. Bus factor and issue spoilage have no usable counterpart
  in src/api/metrics.py (its `BusFactorMetric` at src/api/metrics.py:143 is
  a debug stub); their model follows prime/api/metrics.py.

## Model

| member | source | states |
|---|---|---|
| Frames.Select | src/api/utils.py:17-33 | Projection keeps every row, in order, under its own label, with only the kept columns |
| Frames.Where | src/api/vcs.py:368-374 | A boolean mask keeps exactly the rows that satisfy it, in their order, with their labels |
| Frames.FirstOccurrences | src/api/utils.py:52-56 | Reference meaning of keep-first deduplication: keys are distinct, the key set is unchanged, each kept row is the first row of its key, ordered by first appearance |
| Frames.DedupFirst | src/api/utils.py:36-56 | `remove_duplicate_dataframe_rows`: distinct keys, same key set, every kept row is the first occurrence of its key, relabelled 0..n-1 |
| Frames.RemoveDuplicateRows | src/api/utils.py:52-56 | The loop with a set of seen keys computes exactly `DedupFirst` |
| Frames.SelectDistinct | src/api/utils.py:59-85 | Projection then deduplication: labels 0..n-1, distinct unique-column values covering all values of the input, each row the projection of the first input row with its value |
| Frames.LastOccurrences | prime/api/metrics.py:153-157 | Reference meaning of keep-last deduplication: distinct keys, same key set, each kept row is the last row of its key, ordered by last appearance |
| Frames.IndexMapLast | src/api/utils.py:110 | The value-to-label dictionary holds every value of the table, and maps it to the label of the last row holding it |
| Frames.Lookup | src/api/utils.py:110-113 | `get`: missing exactly when no row holds the value, otherwise the label of the last row holding it |
| Frames.ReplaceWithIndex | src/api/utils.py:88-114 | Same number of rows and same labels. A value becomes missing exactly when the table lacks it, otherwise the label of the last table row holding it |
| Frames.RefList | src/api/utils.py:145-158 | One reference per list element, with the same missing and last-label rule. An empty list becomes the one missing reference |
| Frames.PresentEmpty | src/api/vcs.py:399 | `dropna` leaves nothing exactly when every value is missing |
| Frames.PresentPositions | src/api/vcs.py:399 | The positions `dropna` keeps are exactly those of the present values, strictly increasing |
| Frames.Present | src/api/vcs.py:399 | `dropna` keeps the present values, and only those. There is one per present position, in the original order, so duplicates are kept |
| RefJson.EncodeRefs | src/api/utils.py:160 | `json.dumps` of a reference list is a bracketed text |
| RefJson.DecodeEncodeRefs | src/api/utils.py:151-160 | Reading back the JSON text of a reference list gives the same references, nulls included |
| RefJson.DigitsValueOfNatToString | src/api/utils.py:160 | The decimal text of a label reads back as the label |
| Vcs.ReleaseRevisions | src/api/vcs.py:273-283 | One row per tag that resolves (not `None`), holding its hash, in tag order, labelled 0..n-1. Tags that do not resolve are filtered out |
| Vcs.Unseen | src/api/vcs.py:368-374 | With an earlier run, exactly the rows whose hash it did not store survive; without one, all rows survive |
| Vcs.Kept | src/api/vcs.py:368-371 | The kept revisions are exactly the new ones, in commit order, each under its original position |
| Vcs.ResolvingPositions | src/api/vcs.py:393-399 | The releases that survive `dropna` are exactly those whose hash is in the commit-hash table, in release order |
| Vcs.ResolveReleases | src/api/vcs.py:393-400 | One row per resolving release, in release order, labelled 0..n-1. Each holds the label of a commit-hash row with that release's hash, namely the last such row |
| Vcs.ResolvedFromRelease | src/api/vcs.py:393-399 | Every label left after `dropna` belongs to a commit-hash row holding some release's hash |
| Vcs.ReleaseResolved | src/api/vcs.py:393-399 | Every release whose hash is in the commit-hash table keeps a resolved label after `dropna` |
| Vcs.NormaliseLog | src/api/vcs.py:402-449 | Each id is missing exactly when its value has no table row, and otherwise names a row holding that value. The lists decode to their references. The times, encoding, signature and message are carried over |
| Vcs.NormaliseLogs | src/api/vcs.py:402-449 | Every kept revision gives one normalised row under its own label |
| Vcs.CommitHashesInOrder | src/api/vcs.py:377-380 | The commit-hash table is the new revisions' hashes in commit order, each under its revision's position |
| Vcs.HashesSkipPrevious | src/api/vcs.py:368-380 | No commit-hash row holds a hash stored by the earlier run |
| Vcs.LogsSkipPrevious | src/api/vcs.py:368-371 | No commit-log row comes from a revision the earlier run stored |
| Vcs.ReleasesSkipPrevious | src/api/vcs.py:372-400 | Every release refers to a commit-hash row whose hash the earlier run did not store |
| Vcs.RerunIsEmpty | src/api/vcs.py:368-374 | A re-run over revisions that were all stored before yields five empty tables |
| Vcs.FirstSeen | src/api/vcs.py:381-390 | A deduplicated person table has exactly the e-mails of the new revisions, and each row is the person of the first new revision with that e-mail |
| Vcs.AuthorsFirstSeen | src/api/vcs.py:381-385 | Authors: labels 0..n-1, one row per new author e-mail, the first-seen name winning |
| Vcs.CommittersFirstSeen | src/api/vcs.py:386-390 | Committers: the same rule on the committer e-mail |
| Vcs.LogRowResolves | src/api/vcs.py:402-419 | A kept revision's hash, author and committer all resolve to rows holding its own values |
| Vcs.CommitLogsResolve | src/api/vcs.py:402-449 | Every commit-log row comes from a new revision; its hash, author and committer ids name rows holding the original values; the other columns are carried over |
| Vcs.ParseVcs | src/api/vcs.py:331-454 | No more release rows than tags. Its tables are characterised by Vcs.CommitHashesInOrder, Vcs.FirstSeen, Vcs.CommitLogsResolve, Vcs.ReleasesSkipPrevious and Vcs.RerunIsEmpty |
| Vcs.CommitLogListsDecode | src/api/vcs.py:423-434 | The co-author and parent columns decode to one reference per element. Missing exactly when the value has no row in this run, and an empty list gives one missing reference |
| GitOutput.StripLeft | prime_vx/vcs/git.py:35 | `lstrip` removes exactly the leading whitespace |
| GitOutput.StripRight | prime_vx/vcs/git.py:35 | `rstrip` removes exactly the trailing whitespace |
| GitOutput.StripSurrounded | prime_vx/vcs/git.py:35 | `strip` returns a text that has no whitespace at either end unchanged, whatever whitespace surrounds it |
| GitOutput.RemoveChar | prime_vx/vcs/git.py:35 | `replace(c, "")` leaves no `c` and adds no character |
| GitOutput.JoinSplit | prime_vx/vcs/git.py:35 | Joining the pieces of a split with the separator restores the text |
| GitOutput.SplitJoin | prime_vx/vcs/git.py:68 | Splitting a join gives back the pieces when no piece holds the separator's first character |
| GitOutput.SplitPiecesFree | prime_vx/vcs/git.py:68 | No piece of a split contains the separator |
| GitOutput.CommitHashes | prime_vx/vcs/git.py:31-36 | At least one hash, and no hash contains a quote or a newline |
| GitOutput.NoCommitsOneEmptyHash | prime_vx/vcs/git.py:35 | Output of only whitespace yields the list `[""]` |
| GitOutput.CommitHashesOfLog | prime_vx/vcs/git.py:31-36 | Reading what `git log --format='%H'` prints gives back the hashes in order |
| GitOutput.MetadataKeysDistinct | prime_vx/vcs/git.py:49-60 | The ten metadata keys are distinct, and the third is `parentHashes` |
| GitOutput.ZipMap | prime_vx/vcs/git.py:71 | `dict(zip(keys, values))` has the keys of the shorter prefix |
| GitOutput.ZipMapValues | prime_vx/vcs/git.py:71 | With distinct keys, each key maps to the value at its position |
| GitOutput.ParentPresent | prime_vx/vcs/git.py:71-72 | The parent entry exists exactly when there are at least three fields |
| GitOutput.Fields | prime_vx/vcs/git.py:72 | Only the parent entry is split on single spaces; every other entry is kept as text |
| GitOutput.CommitMetadata | prime_vx/vcs/git.py:48-74 | Fails exactly when fewer than three fields exist. Otherwise the keys are the zipped prefix, the parents are split on spaces, and the other fields are kept |
| GitOutput.MetadataValuesOfLog | prime_vx/vcs/git.py:61-69 | The `,,` fields of the printed line are the printed fields |
| GitOutput.CommitMetadataOfLog | prime_vx/vcs/git.py:61-72 | Ten plain printed fields come back under their keys, and a root commit's parents come back as `[""]` |
| GitOutput.Succeeded | prime_vx/vcs/git.py:21-46 | `isRepository` and `checkoutCommit` answer yes exactly for exit code 0 |
| Calendar.DayOf | prime/main.py:199 | A time lies within the day it is assigned to, also before the epoch |
| Calendar.FloorDay | prime/main.py:199 | `floor(freq="D")` is the midnight at or before the time, less than a day before it |
| Calendar.DateRange | prime/api/metrics.py:165-170 | `date_range(freq="D")` lists every day from the first through the last, none when the first is later |
| Groups.GroupSums | prime/api/metrics.py:104-109 | Each group's sum is the column sum of the rows carrying its key |
| Groups.GroupSumsTotal | src/api/metrics.py:124-130 | The group sums of distinct keys add up to the sum over all rows with one of those keys |
| Groups.SumKeysInAbs | prime/api/metrics.py:304-312 | A sum of absolute values is non-negative and at least the absolute value of the plain sum |
| Groups.SortedKeys | prime/api/metrics.py:104-106 | `groupby` keys are every distinct value, once, ascending |
| Sizes.AbsOfSumAtMostSumOfAbs | prime/api/metrics.py:304-312 | Triangle inequality on the five columns |
| Sizes.SumOfAbsNonNegative | prime/api/metrics.py:304-312 | Summed absolute values are non-negative |
| Fill.ForwardFill | prime/api/metrics.py:179 | Present values stay, a missing value repeats the row before, a leading missing value stays missing |
| Fill.ForwardFillIsLastPresent | prime/api/metrics.py:179 | Every filled value is the nearest present value at or before its row |
| Fill.ForwardFillLeadingGap | prime/api/metrics.py:431 | A filled value is missing exactly when every value up to it is missing |
| Joins.Concat | prime/api/metrics.py:325 | A concatenation holds exactly the rows of its parts |
| Joins.LeftMergeRows | prime/main.py:203-207 | Every merged row pairs a left row with a right row of the same key, and is unpaired only when no right row has that key |
| Joins.LeftMergeUnique | prime/main.py:203-207 | With unique right keys, one row per left row, in order, paired with the right row holding its key |
| Joins.LeftMerge | prime/main.py:203-207 | A left merge never drops a left row. Pairing of rows: Joins.LeftMergeRows. One-for-one with unique right keys: Joins.LeftMergeUnique |
| Daily.BinSpan | src/api/metrics.py:85-90 | The bins run from the earliest to the latest commit day; none without any commit time |
| Daily.DailySums | src/api/metrics.py:104-116 | One bin per day without gaps from the first to the last commit day, holding the sum of that day's rows and dated at its midnight |
| Daily.EmptyBinIsZero | src/api/metrics.py:85-97 | A commit-free day between the first and last commit day sums to zero |
| Daily.DayBin | src/api/metrics.py:85-97 | Every row with a time has its day's bin, dated at that day's midnight |
| Daily.DailySumsTotal | src/api/metrics.py:85-97 | The bins together hold exactly the sum of the rows that have a time |
| Daily.SameDayBin | src/api/metrics.py:104-116 | Two rows of one day give one bin holding their sum |
| SizeMetrics.TagRows | prime/api/metrics.py:72-74 | Each measured row keeps language, provider and sizes, loses filename, complexity and ULOC, and gets the commit's label |
| SizeMetrics.FileSizePerCommit | prime/api/metrics.py:58-82 | Checks out the commits in row order, stopping after the first failed measurement. Restores the most recent revision only when all succeed. Yields a table only when every commit was measured and there was at least one, and each of its rows is a tagged row of one of the commits |
| SizeMetrics.ProjectSizePerCommit | prime/api/metrics.py:102-119 | Commit ids strictly ascending; each row's sizes are the sum of that commit's file rows |
| SizeMetrics.ProjectSizePerCommitRows | prime/api/metrics.py:104-116 | A commit id has an output row exactly when some file row carries it |
| SizeMetrics.ProjectSizePerCommitTotals | src/api/metrics.py:124-140 | Column totals are preserved |
| SizeMetrics.FloorLogs | prime/main.py:195-199 | Each commit time is floored to its midnight, ids unchanged |
| SizeMetrics.JoinTimesUnique | prime/main.py:203-207 | With unique commit ids in the logs, rows are kept one for one. Each gets the time of the log row with its id, and no time when no log row has it |
| SizeMetrics.JoinTimes | prime/main.py:203-207 | The left merge with commit times keeps at least one row per input row. Rows and times with unique ids: SizeMetrics.JoinTimesUnique |
| SizeMetrics.CommitDayJoinUnique | prime/main.py:195-207 | Each per-commit size row gets the midnight of its commit's time, or no time when no log row has its id |
| SizeMetrics.CommitDayJoin | prime/main.py:194-207 | The left merge keeps at least one row per size row. With unique commit ids it keeps exactly one, carrying its commit's midnight (SizeMetrics.CommitDayJoinUnique) |
| SizeMetrics.SizePerDaySumTotal | prime/main.py:195-211 | When every commit has one commit time, the per-day sums add up to the per-commit sizes |
| SizeMetrics.SizePerDaySum | prime/main.py:194-211 | No daily rows exactly when no joined commit has a time. Totals: SizeMetrics.SizePerDaySumTotal. Difference from the keep-last series: SizeMetrics.VariantsDisagree |
| SizeMetrics.KeepLastPerDay | prime/api/metrics.py:153-157 | Each day once, represented by its last row, in the order of those last rows |
| SizeMetrics.ValueOn | prime/api/metrics.py:173-174 | The kept row of a day, missing exactly when no kept row has that day |
| SizeMetrics.Reindex | prime/api/metrics.py:173-174 | `reindex` gives one cell per requested day holding that day's row, if any |
| SizeMetrics.DailySeries | prime/api/metrics.py:165-176 | One row per day from the first day through today, without gaps |
| SizeMetrics.DailySeriesValues | prime/api/metrics.py:173-179 | A day with a kept row shows it, a day without one shows the day before |
| SizeMetrics.ProjectSizePerDay | prime/api/metrics.py:159-179 | Fails exactly on empty input; otherwise the series from the first kept day through today |
| SizeMetrics.ProjectSizePerDayComplete | prime/api/metrics.py:159-179 | Every day of the series has sizes, since the first day has a commit |
| SizeMetrics.VariantsDisagree | src/api/metrics.py:104-116 | On a day with two commits, the per-day sum holds both and the keep-last series only the later one |
| Productivity.ProductivityPerCommit | src/api/metrics.py:72-77 | Same length as the input, commit ids copied unchanged |
| Productivity.Diffs | src/api/metrics.py:73 | The first difference is zero, and each later one is the row minus the row before |
| Productivity.DeltasAreDiffs | prime/api/metrics.py:199-204 | The delta columns are the first differences of the size columns |
| Productivity.DiffsTelescope | src/api/metrics.py:73 | The first value plus the running sum of differences gives back each value |
| Productivity.DeltasTelescope | src/api/metrics.py:73-77 | The first row's sizes plus the running sum of deltas through row k equal row k's sizes |
| Productivity.BlockDelta | src/api/metrics.py:73 | The deltas of consecutive commits add up to the size change across them |
| Productivity.JoinedDeltas | prime/main.py:368-374 | With unique commit ids in the logs, the binned rows carry the per-commit deltas one for one |
| Productivity.ProductivityPerDayTotal | src/api/metrics.py:85-97 | When every commit has one time, the daily productivity adds up to the last size minus the first |
| Productivity.ProductivityOfDay | prime/api/metrics.py:240-253 | A day whose commits are the consecutive rows a..b-1 has a bin holding the size of row b-1 minus the size of row a-1 (minus row 0's size when a is 0) |
| Productivity.ProductivityPerDay | prime/main.py:348-380 | No daily rows exactly when no joined commit has a time. Totals and per-day values: Productivity.ProductivityPerDayTotal, Productivity.ProductivityOfDay, Productivity.JoinedDeltas |
| BusFactor.BusFactorInputUnique | prime/main.py:413-418 | With unique commit ids in the logs, one input row per commit with its deltas, and its committer and time when logged |
| BusFactor.BusFactorInput | prime/main.py:413-418 | The left merge keeps at least one row per delta row. With unique commit ids it keeps exactly one per commit (BusFactor.BusFactorInputUnique) |
| BusFactor.CommittersOn | prime/api/metrics.py:306-308 | The committers of a day are exactly those of its rows that have a committer |
| BusFactor.DayRows | prime/api/metrics.py:302-321 | Every day yields at least one row, each dated at the day's midnight |
| BusFactor.DaysRows | prime/api/metrics.py:302-323 | One group of rows per day from the first to the last commit day, in day order |
| BusFactor.BusFactorPerDay | prime/api/metrics.py:291-325 | Fails (concatenating nothing) exactly when no row has a time |
| BusFactor.BusFactorDays | prime/api/metrics.py:291-325 | Every day from the first to the last commit day has a row, and every row is dated at one of those days |
| BusFactor.DayRowsSentinel | prime/api/metrics.py:315-316 | A day gets the single all-`-1` row exactly when none of its rows has a committer |
| BusFactor.DayRowsCommitters | prime/api/metrics.py:303-313 | Each row names a committer of the day, ids ascend, and contributions are non-negative and at least that committer's absolute net change |
| BusFactor.DayRowIds | prime/api/metrics.py:306-313 | The j-th row carries the j-th smallest committer id and that committer's sum of absolute deltas |
| BusFactor.DayRowsTotal | prime/api/metrics.py:304-312 | A day's contributions add up to the absolute deltas of all its commits that have a committer |
| Issues.Quote | prime/main.py:261 | The next cursor is the previous end cursor in double quotes |
| Issues.PagesOf | prime/main.py:255-260 | One page of issues per request, in request order |
| Issues.CursorChainUnique | prime/main.py:252-262 | The answers determine the crawl: there is at most one complete cursor chain |
| Issues.FetchIssues | prime/main.py:252-266 | Requests pages until one announces no next page and concatenates them in fetch order. Reports failure only when every complete crawl needs more requests than allowed |
| Issues.NormaliseIssues | prime/main.py:266-279 | One id row and one issue row per fetched issue, the times carried over |
| Issues.HandleIssues | prime/main.py:266-282 | Writes tables exactly when at least one issue was fetched: one id row and one issue row per issue, keys resolving by Issues.IssueKeysResolve |
| Issues.IssueKeysResolve | prime/main.py:266-279 | Every `issue_id_key` names an `issue_ids` row holding the issue's own id, and is the issue's position when ids are distinct |
| Issues.DayInterval | prime/main.py:447-455 | A daily interval runs from midnight through 23:59:59 |
| Issues.DailyIntervals | prime/main.py:447-456 | One interval per day from the oldest day up to but excluding today |
| Issues.DailyIntervalDays | prime/main.py:447-456 | A day has an interval exactly when it is on or after the oldest day and before today |
| Issues.IssueBounds | prime/main.py:460-466 | Creation and closing are floored to midnight, and an open issue closes at today's midnight |
| Issues.IssueIntervals | prime/main.py:467-472 | One interval per issue, in issue order |
| Issues.CoverCount | prime/api/metrics.py:397-402 | The count never exceeds the number of issues |
| Issues.CoverCountIsCovering | prime/api/metrics.py:397-402 | The count is the number of issue intervals containing the whole daily interval |
| Issues.IssueSpoilagePerDay | prime/api/metrics.py:386-407 | One row per daily interval, copying start and end, with an open count at most the number of issues |
| Issues.SpoilageTable | prime/main.py:446-478 | One row for each day from the oldest size date's day through yesterday, and none when that day is not before today |
| Issues.HandleIssueSpoilage | prime/main.py:431-478 | Fails exactly when there is no oldest size date or no issue at all. Otherwise it gives the spoilage table (see Issues.SpoilageCountsOpenIssues) |
| Issues.CoversIffOpen | prime/main.py:446-472 | An issue covers day d exactly when it was created on or before d and closes after d |
| Issues.SameDayNeverCounted | prime/main.py:460-472 | An issue closed on its creation day is never counted |
| Issues.OpenIssueCounted | prime/main.py:463-472 | An open issue counts on every day before today from its creation day on |
| Issues.SpoilageCountsOpenIssues | prime/main.py:446-478 | One row per day from the oldest day through yesterday, spanning 00:00:00 to 23:59:59, counting the issues open that day |
| Issues.DensityShape | prime/api/metrics.py:426-431 | With one size row per date, every spoilage row is kept in order next to the forward fill of its size cell |
| Issues.DensityRows | prime/api/metrics.py:426-431 | Spoilage columns unchanged. A matched date carries its sizes, an unmatched one repeats the row before, and sizes are missing exactly up to the first matched row |
| Issues.IssueDensityPerDay | prime/api/metrics.py:426-431 | At least one row per spoilage row; contents by Issues.DensityShape and Issues.DensityRows |
| Issues.HandleIssueDensityRows | prime/main.py:488-517 | After flooring size dates, a spoilage row starting at a size row's midnight carries its sizes, and spoilage columns are unchanged |
| Issues.HandleIssueDensity | prime/main.py:488-517 | At least one row per spoilage row; contents by Issues.HandleIssueDensityRows |
| Dispatch.CommandOf | prime/main.py:551-569 | A recognised key is the name of the command it selects |
| Dispatch.CommandOfName | prime/main.py:551-569 | Every command is recognised by its own name |
| Dispatch.HandleDb | prime/main.py:77-95 | A database exactly for the eight known keys, at the path stored under `<key>.output` |
| Dispatch.MainOutcomes | prime/main.py:527-569 | Exit 1 exactly without a sub-command, exit 2 exactly for an unknown one, never exit 3, otherwise the named handler on its database |
| Dispatch.Main | prime/main.py:527-569 | A handler runs only for a sub-command with a database entry, on the stored path. The exit cases: Dispatch.MainOutcomes |

## Left out

- GitPython and shell access: the `Git` class, `identify_vcs`, `runProgram` and the UTC conversion in `parse_revisions`. They are foreign I/O. Their results are inputs: `Revision` values, tag resolutions as `Option`, and git output text and exit codes.
- The `scc` subprocess and the checkout. Both are external tools; the measurement is a function parameter, and the checkout is recorded as an action trace.
- The GitHub GraphQL clients and `get_total_issues`, which are network I/O. A page fetch is a deterministic function parameter; the progress-bar total plays no part.
- `handle_pull_requests`. It repeats the `handle_issues` loop and normalisation on another column, so it adds nothing the issue model does not cover.
- SQLite persistence, the SQL queries of `preprocess`, `write`, and pydantic validation. These are library wrappers. Their outputs enter the model as row sequences.
- Argument parsing and `get_first_namespace_key`. Their outcome is a parameter of `Dispatch.Main`: the first key, or none when the namespace has no key (`set.pop` raises `KeyError`), plus the namespace as a function.
- `Timestamp.utcnow()` is the parameter `today`.
- Float and NaN dtypes and the `pd.to_numeric` downcast. The sizes are integers and a missing value is `None`.
- `src/main.py` orchestration, the debug `BusFactorMetric` class with `print`/`input()`, and the legacy `cloc` glue. They lie outside the core.
- Issues.FetchIssues: a `maxPages` bound replaces the unbounded `while` loop, because Dafny needs termination. The contract states that failure happens only when no complete crawl fits in the bound. A page that answers with status 200 but has no edges raises `KeyError` in `get_issues` (prime/api/issues.py:183); the model treats it as an ordinary empty page.
- Fill.ForwardFill: the model fills all five size columns together, because they are missing together in every table the model builds. The source fills each column on its own.
- SizeMetrics.FileSizePerCommit: a failing measurement stands for the exception `scc` or the checkout raises. What the pandas column lower-casing does to names is not modelled; the record fields already have the lower-case names.
- Joins.LeftMerge: a right key matching several rows is modelled in full. The lemmas about the joins, however, assume unique commit ids among the logs, as the database guarantees for one run.
- Dispatch.MainOutcomes: the `sys.exit` calls are modelled as an `Exit` outcome rather than as process termination.
