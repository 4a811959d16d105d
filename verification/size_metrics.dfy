/**
 * The size metrics: per-file sizes measured at every commit, their sum per
 * commit, the join with commit dates, and the per-day project size that keeps
 * the last commit of each day and carries it forward over commit-free days.
 */
module SizeMetrics {
  import opened Wrappers
  import opened Frames
  import opened Calendar
  import opened Sizes
  import opened Groups
  import opened Joins
  import opened Fill
  import opened Daily

  /** One row of the `scc` per-file report. */
  datatype SccRow = SccRow(language: string, provider: string, filename: string, sizes: Sizes, complexity: int, uloc: int)

  /** One row of `file_size_per_commit`: Filename, Complexity and ULOC dropped, the commit's label added. */
  datatype FileSize = FileSize(language: string, provider: string, sizes: Sizes, commitHashId: nat)

  /** What the metric does to the working copy. */
  datatype Action = Checkout(hash: string) | CheckoutMostRecent

  /** The rows one commit contributes. */
  function TagRows(report: seq<SccRow>, id: nat): (rows: seq<FileSize>)
    ensures |rows| == |report|
    ensures forall i :: 0 <= i < |report| ==>
      rows[i] == FileSize(report[i].language, report[i].provider, report[i].sizes, id)
  {
    seq(|report|, i requires 0 <= i < |report| =>
      FileSize(report[i].language, report[i].provider, report[i].sizes, id))
  }

  /** The position of the first commit whose measurement fails, or the number of commits. */
  function FirstFailure(commits: Frame<string>, measure: string -> Option<seq<SccRow>>): (n: nat)
    ensures n <= |commits|
    ensures forall j :: 0 <= j < n ==> measure(commits[j].value).Some?
    ensures n < |commits| ==> measure(commits[n].value).None?
  {
    if |commits| == 0 then 0
    else if measure(commits[0].value).None? then 0
    else 1 + FirstFailure(commits[1..], measure)
  }

  /** The measured rows of every commit, in commit order. */
  function MeasuredRows(commits: Frame<string>, measure: string -> Option<seq<SccRow>>): (rows: seq<FileSize>)
    requires forall j :: 0 <= j < |commits| ==> measure(commits[j].value).Some?
    ensures forall r :: r in rows ==> exists j :: (0 <= j < |commits| && r.commitHashId == commits[j].index
      && r in TagRows(measure(commits[j].value).value, commits[j].index))
  {
    if |commits| == 0 then []
    else
      var init := commits[..|commits| - 1];
      var last := commits[|commits| - 1];
      assert forall j :: 0 <= j < |init| ==> init[j] == commits[j];
      MeasuredRows(init, measure) + TagRows(measure(last.value).value, last.index)
  }

  function Checkouts(commits: Frame<string>): (actions: seq<Action>)
    ensures |actions| == |commits|
    ensures forall j :: 0 <= j < |commits| ==> actions[j] == Checkout(commits[j].value)
  {
    seq(|commits|, j requires 0 <= j < |commits| => Checkout(commits[j].value))
  }

  /**
   * `FileSizePerCommit.compute`: check out each commit in row order, measure
   * it and tag the rows with the commit's label. The most recent revision is
   * checked out again only when every measurement succeeded, since nothing
   * restores it when one raises; and concatenating no commits at all fails.
   */
  method FileSizePerCommit(commits: Frame<string>, measure: string -> Option<seq<SccRow>>) returns (steps: seq<Action>, measured: Option<seq<FileSize>>)
    ensures FirstFailure(commits, measure) < |commits| ==>
      steps == Checkouts(commits[..FirstFailure(commits, measure) + 1]) && measured.None?
    ensures FirstFailure(commits, measure) == |commits| ==>
      steps == Checkouts(commits) + [CheckoutMostRecent] && (measured.Some? <==> |commits| > 0)
    ensures measured.Some? ==> measured.value == MeasuredRows(commits, measure)
  {
    var data: seq<FileSize> := [];
    steps := [];
    var i := 0;
    while i < |commits|
      invariant 0 <= i <= |commits|
      invariant forall j :: 0 <= j < i ==> measure(commits[j].value).Some?
      invariant steps == Checkouts(commits[..i])
      invariant data == MeasuredRows(commits[..i], measure)
    {
      var hash := commits[i].value;
      assert commits[..i + 1] == commits[..i] + [commits[i]];
      steps := steps + [Checkout(hash)];
      var report := measure(hash);
      if report.None? {
        measured := None;
        return;
      }
      assert commits[..i + 1][..i] == commits[..i];
      data := data + TagRows(report.value, commits[i].index);
      i := i + 1;
    }
    assert commits[..i] == commits;
    steps := steps + [CheckoutMostRecent];
    if i == 0 {
      measured := None;
    } else {
      measured := Some(data);
    }
  }

  /** One row of `project_size_per_commit`. */
  datatype CommitSize = CommitSize(sizes: Sizes, commitHashId: nat)

  function FileCommit(r: FileSize): int { r.commitHashId }

  function FileSizes(r: FileSize): Sizes { r.sizes }

  function CommitIds(files: seq<FileSize>): (ids: seq<int>)
    ensures |ids| == |files|
    ensures forall i :: 0 <= i < |files| ==> ids[i] == files[i].commitHashId
  {
    seq(|files|, i requires 0 <= i < |files| => files[i].commitHashId as int)
  }

  /**
   * `ProjectSizePerCommit.compute`: one row per distinct commit id in
   * ascending order, holding the column sums of that commit's file rows;
   * the language and provider columns are not numeric and disappear.
   */
  function ProjectSizePerCommit(files: seq<FileSize>): (out: seq<CommitSize>)
    ensures forall i, j :: 0 <= i < j < |out| ==> out[i].commitHashId < out[j].commitHashId
    ensures forall i :: 0 <= i < |out| ==>
      out[i].sizes == SumKeysIn(files, FileCommit, FileSizes, {out[i].commitHashId as int})
  {
    var ids := SortedKeys(CommitIds(files));
    assert forall i :: 0 <= i < |ids| ==> ids[i] in CommitIds(files);
    seq(|ids|, i requires 0 <= i < |ids| =>
      CommitSize(SumKeysIn(files, FileCommit, FileSizes, {ids[i]}), ids[i] as nat))
  }

  /** The output has a row for a commit id exactly when some file row carries it. */
  lemma ProjectSizePerCommitRows(files: seq<FileSize>)
    ensures var out := ProjectSizePerCommit(files);
      forall i :: 0 <= i < |out| ==> out[i].commitHashId as int in CommitIds(files)
    ensures var out := ProjectSizePerCommit(files);
      forall j :: 0 <= j < |files| ==> exists i :: 0 <= i < |out| && out[i].commitHashId == files[j].commitHashId
  {
    var ids := SortedKeys(CommitIds(files));
    var out := ProjectSizePerCommit(files);
    assert forall i :: 0 <= i < |out| ==> out[i].commitHashId as int == ids[i];
    forall j | 0 <= j < |files| ensures exists i :: 0 <= i < |out| && out[i].commitHashId == files[j].commitHashId {
      assert CommitIds(files)[j] in ids;
      var i :| 0 <= i < |ids| && ids[i] == files[j].commitHashId;
      assert out[i].commitHashId == files[j].commitHashId;
    }
  }

  function CommitSizes(out: seq<CommitSize>): (sums: seq<Sizes>)
    ensures |sums| == |out|
    ensures forall i :: 0 <= i < |out| ==> sums[i] == out[i].sizes
  {
    SizesOf(out, (r: CommitSize) => r.sizes)
  }

  /** Summing per commit preserves the column totals of the file rows. */
  lemma ProjectSizePerCommitTotals(files: seq<FileSize>)
    ensures Sum(CommitSizes(ProjectSizePerCommit(files))) == Sum(SizesOf(files, FileSizes))
  {
    var ids := SortedKeys(CommitIds(files));
    var sums := CommitSizes(ProjectSizePerCommit(files));
    var groups := GroupSums(files, FileCommit, FileSizes, ids);
    assert sums == groups;
    GroupSumsTotal(files, FileCommit, FileSizes, ids);
    assert forall i :: 0 <= i < |files| ==> FileCommit(files[i]) in SetOf(ids) by {
      assert forall i :: 0 <= i < |files| ==> CommitIds(files)[i] in CommitIds(files);
    }
    SumKeysInAll(files, FileCommit, FileSizes, SetOf(ids));
    assert Sum(sums) == Sum(groups);
  }

  /** One row of `SELECT commit_hash_id, committed_datetime FROM commit_logs`. */
  datatype LogTime = LogTime(commitHashId: Option<nat>, committedAt: int)

  function SizeKey(c: CommitSize): Option<nat> { Some(c.commitHashId) }

  function LogKey(l: LogTime): Option<nat> { l.commitHashId }

  function FloorLogs(logs: seq<LogTime>): (floored: seq<LogTime>)
    ensures |floored| == |logs|
    ensures forall i :: 0 <= i < |logs| ==>
      floored[i] == LogTime(logs[i].commitHashId, FloorDay(logs[i].committedAt))
  {
    seq(|logs|, i requires 0 <= i < |logs| => LogTime(logs[i].commitHashId, FloorDay(logs[i].committedAt)))
  }

  /**
   * `left.merge(logs, on="commit_hash_id", how="left")` keeping the log's
   * `committed_datetime`: a row without a log row gets no time (NaT).
   */
  function JoinTimes<T(!new)>(rows: seq<T>, key: T -> Option<nat>, logs: seq<LogTime>): (out: seq<(T, Option<int>)>)
    ensures |out| >= |rows|
  {
    var m := LeftMerge(rows, logs, key, LogKey);
    seq(|m|, i requires 0 <= i < |m| => (m[i].0, if m[i].1.Some? then Some(m[i].1.value.committedAt) else None))
  }

  /**
   * When every commit id occurs at most once among the logs, the join keeps
   * the rows one for one, and each gets the time of the log row with its
   * id, or no time when no log row has it.
   */
  lemma JoinTimesUnique<T(!new)>(rows: seq<T>, key: T -> Option<nat>, logs: seq<LogTime>)
    requires DistinctKeys(logs, LogKey)
    ensures |JoinTimes(rows, key, logs)| == |rows|
    ensures forall i :: 0 <= i < |rows| ==> JoinTimes(rows, key, logs)[i].0 == rows[i]
    ensures forall i :: 0 <= i < |rows| ==>
      (JoinTimes(rows, key, logs)[i].1.None? <==> forall l :: l in logs ==> l.commitHashId != key(rows[i]))
    ensures forall i :: 0 <= i < |rows| && JoinTimes(rows, key, logs)[i].1.Some? ==>
      exists l :: l in logs && l.commitHashId == key(rows[i]) && JoinTimes(rows, key, logs)[i].1.value == l.committedAt
  {
    LeftMergeUnique(rows, logs, key, LogKey);
    forall i | 0 <= i < |rows|
      ensures (JoinTimes(rows, key, logs)[i].1.None? <==> forall l :: l in logs ==> l.commitHashId != key(rows[i]))
      ensures JoinTimes(rows, key, logs)[i].1.Some? ==>
        exists l :: l in logs && l.commitHashId == key(rows[i]) && JoinTimes(rows, key, logs)[i].1.value == l.committedAt
    {
      var ms := Matches(logs, LogKey, key(rows[i]));
      assert |ms| > 0 ==> ms[0] in ms;
    }
  }

  /**
   * The join in `handle_size`: commit times floored to midnight, then a left
   * merge of the per-commit sizes with them on the commit id.
   */
  function CommitDayJoin(sizes: seq<CommitSize>, logs: seq<LogTime>): (out: seq<(CommitSize, Option<int>)>)
    ensures |out| >= |sizes|
  {
    JoinTimes(sizes, SizeKey, FloorLogs(logs))
  }

  /**
   * With unique commit ids among the logs, every per-commit size row gets
   * the midnight of its commit's time, or no time when no log row has its id.
   */
  lemma CommitDayJoinUnique(sizes: seq<CommitSize>, logs: seq<LogTime>)
    requires DistinctKeys(logs, LogKey)
    ensures |CommitDayJoin(sizes, logs)| == |sizes|
    ensures forall i :: 0 <= i < |sizes| ==> CommitDayJoin(sizes, logs)[i].0 == sizes[i]
    ensures forall i :: 0 <= i < |sizes| ==>
      (CommitDayJoin(sizes, logs)[i].1.None? <==> forall l :: l in logs ==> l.commitHashId != Some(sizes[i].commitHashId))
    ensures forall i :: 0 <= i < |sizes| && CommitDayJoin(sizes, logs)[i].1.Some? ==>
      exists l :: l in logs && l.commitHashId == Some(sizes[i].commitHashId)
        && CommitDayJoin(sizes, logs)[i].1.value == FloorDay(l.committedAt)
  {
    var floored := FloorLogs(logs);
    assert DistinctKeys(floored, LogKey);
    JoinTimesUnique(sizes, SizeKey, floored);
    assert forall l :: l in floored ==> exists l' :: l' in logs && l == LogTime(l'.commitHashId, FloorDay(l'.committedAt)) by {
      forall l | l in floored ensures exists l' :: l' in logs && l == LogTime(l'.commitHashId, FloorDay(l'.committedAt)) {
        var j :| 0 <= j < |floored| && floored[j] == l;
        assert logs[j] in logs;
      }
    }
    assert forall l :: l in logs ==> LogTime(l.commitHashId, FloorDay(l.committedAt)) in floored by {
      forall l | l in logs ensures LogTime(l.commitHashId, FloorDay(l.committedAt)) in floored {
        var j :| 0 <= j < |logs| && logs[j] == l;
        assert floored[j] == LogTime(l.commitHashId, FloorDay(l.committedAt));
      }
    }
  }

  /** Every per-commit row has a commit log row. */
  predicate EveryCommitLogged(sizes: seq<CommitSize>, logs: seq<LogTime>) {
    forall i :: 0 <= i < |sizes| ==> exists l :: l in logs && l.commitHashId == Some(sizes[i].commitHashId)
  }

  /** The rows the per-day sum of `handle_size` bins: each commit's sizes with its commit day. */
  function TimedSizes(joined: seq<(CommitSize, Option<int>)>): (rows: seq<Timed>)
    ensures |rows| == |joined|
    ensures forall i :: 0 <= i < |joined| ==> rows[i] == Timed(joined[i].0.sizes, joined[i].1)
  {
    seq(|joined|, i requires 0 <= i < |joined| => Timed(joined[i].0.sizes, joined[i].1))
  }

  /**
   * The per-day project size `handle_size` computes: the per-commit sizes
   * joined with their commit days, then summed per calendar day by the
   * `ProjectSizePerDay` whose constructor it calls (the src package's).
   */
  function SizePerDaySum(sizes: seq<CommitSize>, logs: seq<LogTime>): (out: seq<DaySum>)
    ensures out == [] <==> BinSpan(TimedSizes(CommitDayJoin(sizes, logs))).None?
  {
    DailySums(TimedSizes(CommitDayJoin(sizes, logs)))
  }

  /**
   * When every commit has exactly one commit time, the per-day sums add up
   * to the sum of the per-commit sizes: each commit is counted on one day.
   */
  lemma SizePerDaySumTotal(sizes: seq<CommitSize>, logs: seq<LogTime>)
    requires DistinctKeys(logs, LogKey)
    requires EveryCommitLogged(sizes, logs)
    ensures Sum(BinSizes(SizePerDaySum(sizes, logs))) == Sum(CommitSizes(sizes))
  {
    var joined := CommitDayJoin(sizes, logs);
    var rows := TimedSizes(joined);
    CommitDayJoinUnique(sizes, logs);
    forall i | 0 <= i < |rows| ensures rows[i].time.Some? {
      var l :| l in logs && l.commitHashId == Some(sizes[i].commitHashId);
    }
    DailySumsTotalAllTimed(rows);
    assert SizesOf(rows, SizesOfRow) == CommitSizes(sizes);
  }

  /** A row tagged with the day its commit falls on. */
  datatype Dated<T> = Dated(value: T, day: int)

  function DayOfRow<T>(r: Dated<T>): int { r.day }

  /**
   * `drop_duplicates(subset="committed_datetime", keep="last", ignore_index=True)`:
   * each day once, represented by its last row, in the order of those rows.
   */
  function KeepLastPerDay<T(==)>(rows: seq<Dated<T>>): (kept: seq<Dated<T>>)
    ensures DistinctKeys(kept, DayOfRow)
    ensures KeysOf(kept, DayOfRow) == KeysOf(rows, DayOfRow)
    ensures forall j :: 0 <= j < |kept| ==> exists i :: (0 <= i < |rows| && rows[i] == kept[j]
      && forall i' :: i < i' < |rows| ==> rows[i'].day != kept[j].day)
    ensures forall j1, j2 :: 0 <= j1 < j2 < |kept| ==>
      LastIndex(rows, DayOfRow, kept[j1].day) < LastIndex(rows, DayOfRow, kept[j2].day)
  {
    LastOccurrences(rows, DayOfRow)
  }

  /** The value of the row on day `d`, if any. */
  function ValueOn<T>(kept: seq<Dated<T>>, d: int): (v: Option<T>)
    ensures v.None? <==> forall j :: 0 <= j < |kept| ==> kept[j].day != d
    ensures v.Some? ==> Dated(v.value, d) in kept
  {
    var j := FirstIndex(kept, DayOfRow, d);
    if j < |kept| then Some(kept[j].value) else None
  }

  /** `set_index("committed_datetime").reindex(days)`: one cell per day, missing where no row has it. */
  function Reindex<T>(kept: seq<Dated<T>>, days: seq<int>): (cells: seq<Option<T>>)
    ensures |cells| == |days|
    ensures forall i :: 0 <= i < |days| ==> cells[i] == ValueOn(kept, days[i])
  {
    seq(|days|, i requires 0 <= i < |days| => ValueOn(kept, days[i]))
  }

  /** `reindex` over the days from `first` through `today`, then `ffill`. */
  function DailySeries<T>(kept: seq<Dated<T>>, first: int, today: int): (out: seq<Dated<Option<T>>>)
    ensures |out| == (if first <= today then today - first + 1 else 0)
    ensures forall i :: 0 <= i < |out| ==> out[i].day == first + i
  {
    var days := DateRange(first, today);
    var filled := ForwardFill(Reindex(kept, days));
    seq(|days|, i requires 0 <= i < |days| => Dated(filled[i], days[i]))
  }

  /**
   * With one kept row per day, a day with a kept row shows that row and a
   * day without one shows what the day before shows.
   */
  lemma DailySeriesValues<T>(kept: seq<Dated<T>>, first: int, today: int)
    requires DistinctKeys(kept, DayOfRow)
    ensures var out := DailySeries(kept, first, today);
      forall i, j :: (0 <= i < |out| && 0 <= j < |kept| && kept[j].day == out[i].day)
        ==> out[i].value == Some(kept[j].value)
    ensures var out := DailySeries(kept, first, today);
      forall i :: (0 < i < |out| && forall j :: 0 <= j < |kept| ==> kept[j].day != out[i].day)
        ==> out[i].value == out[i - 1].value
  {
    var days := DateRange(first, today);
    var cells := Reindex(kept, days);
    var filled := ForwardFill(cells);
    var out := DailySeries(kept, first, today);
    assert forall i :: 0 <= i < |out| ==> out[i].value == filled[i];
    forall i, j | 0 <= i < |out| && 0 <= j < |kept| && kept[j].day == out[i].day
      ensures out[i].value == Some(kept[j].value)
    {
      var k := FirstIndex(kept, DayOfRow, days[i]);
      assert k == j;
    }
  }

  /**
   * `ProjectSizePerDay` of the prime package: keep the last row of every
   * day, then one row per calendar day from the first kept row's day through
   * `today`, each taking the kept row of its day or, without one, the value
   * of the day before. Reading label 0 of an empty frame raises a KeyError.
   */
  function ProjectSizePerDay<T(==)>(rows: seq<Dated<T>>, today: int): (r: Option<seq<Dated<Option<T>>>>)
    ensures r.None? <==> |rows| == 0
    ensures r.Some? ==> r.value == DailySeries(KeepLastPerDay(rows), KeepLastPerDay(rows)[0].day, today)
  {
    var kept := KeepLastPerDay(rows);
    assert |rows| > 0 ==> rows[0].day in KeysOf(rows, DayOfRow);
    if |kept| == 0 then None
    else Some(DailySeries(kept, kept[0].day, today))
  }

  /** Every day of the per-day series has a size: the first day always has a commit. */
  lemma ProjectSizePerDayComplete<T>(rows: seq<Dated<T>>, today: int)
    requires |rows| > 0
    ensures forall i :: 0 <= i < |ProjectSizePerDay(rows, today).value| ==>
      ProjectSizePerDay(rows, today).value[i].value.Some?
  {
    var out := ProjectSizePerDay(rows, today).value;
    var kept := KeepLastPerDay(rows);
    forall i | 0 <= i < |out| ensures out[i].value.Some? {
      FilledFrom(rows, today, i);
    }
  }

  lemma {:induction false} FilledFrom<T>(rows: seq<Dated<T>>, today: int, i: nat)
    requires |rows| > 0
    requires i < |ProjectSizePerDay(rows, today).value|
    ensures ProjectSizePerDay(rows, today).value[i].value.Some?
  {
    var out := ProjectSizePerDay(rows, today).value;
    var kept := KeepLastPerDay(rows);
    if i > 0 {
      FilledFrom(rows, today, i - 1);
      assert (exists j :: 0 <= j < |kept| && kept[j].day == out[i].day) || out[i].value == out[i - 1].value;
    } else {
      assert kept[0].day == out[0].day;
    }
  }

  /**
   * The two `ProjectSizePerDay` variants disagree on a day with two commits:
   * the per-day sum of the src package adds both, the keep-last series of the
   * prime package shows only the later one.
   */
  lemma VariantsDisagree(a: Sizes, b: Sizes, t: int, today: int)
    requires DayOf(t) <= today
    ensures DailySums([Timed(a, Some(t)), Timed(b, Some(t))])[0] == DaySum(a.Add(b), Midnight(DayOf(t)))
    ensures ProjectSizePerDay([Dated(a, DayOf(t)), Dated(b, DayOf(t))], today).value[0].value == Some(b)
  {
    var day := DayOf(t);
    SameDayBin(a, b, t);
    var rows := [Dated(a, day), Dated(b, day)];
    var kept := KeepLastPerDay(rows);
    assert kept[0].day == day;
    assert exists i :: 0 <= i < 2 && rows[i] == kept[0] && forall i' :: i < i' < 2 ==> rows[i'].day != kept[0].day;
    assert kept[0] == Dated(b, day);
  }
}
