/**
 * The bus factor per day: for every calendar day from the first to the last
 * commit day, how much each committer changed that day, counting additions
 * and removals alike, or a row of -1 for a day nobody committed on.
 */
module BusFactor {
  import opened Wrappers
  import opened Calendar
  import opened Sizes
  import opened Groups
  import opened Joins
  import opened Daily
  import opened Frames
  import opened Productivity

  /**
   * One input row of `BusFactorPerDay`: a commit's deltas with the
   * committer and commit time the join found for it (both missing when the
   * commit has no log row).
   */
  datatype Contribution = Contribution(deltas: Sizes, committer: Option<nat>, time: Option<int>)

  /** One row of `SELECT commit_hash_id, committed_datetime, committer_id FROM commit_logs`. */
  datatype CommitterLog = CommitterLog(commitHashId: Option<nat>, committedAt: int, committerId: Option<nat>)

  function CommitterLogKey(l: CommitterLog): Option<nat> { l.commitHashId }

  /**
   * The input `handle_bus_factor` builds: the per-commit deltas left-merged
   * with the commit logs on the commit id, keeping the deltas, the
   * committer and the commit time, and dropping the commit id.
   */
  function BusFactorInput(deltas: seq<CommitDelta>, logs: seq<CommitterLog>): (rows: seq<Contribution>)
    ensures |rows| >= |deltas|
  {
    var m := LeftMerge(deltas, logs, DeltaKey, CommitterLogKey);
    seq(|m|, i requires 0 <= i < |m| =>
      if m[i].1.Some? then Contribution(m[i].0.deltas, m[i].1.value.committerId, Some(m[i].1.value.committedAt))
      else Contribution(m[i].0.deltas, None, None))
  }

  /**
   * With unique commit ids among the logs, every commit yields one input
   * row with its own deltas; a commit without a log row has neither a
   * committer nor a time, and one with a log row has that row's.
   */
  lemma BusFactorInputUnique(deltas: seq<CommitDelta>, logs: seq<CommitterLog>)
    requires DistinctKeys(logs, CommitterLogKey)
    ensures |BusFactorInput(deltas, logs)| == |deltas|
    ensures forall i :: 0 <= i < |deltas| ==> BusFactorInput(deltas, logs)[i].deltas == deltas[i].deltas
    ensures forall i :: 0 <= i < |deltas| ==>
      (BusFactorInput(deltas, logs)[i].time.None? <==> forall l :: l in logs ==> l.commitHashId != Some(deltas[i].commitHashId))
    ensures forall i :: 0 <= i < |deltas| && BusFactorInput(deltas, logs)[i].time.Some? ==>
      exists l :: l in logs && l.commitHashId == Some(deltas[i].commitHashId)
        && BusFactorInput(deltas, logs)[i].time == Some(l.committedAt)
        && BusFactorInput(deltas, logs)[i].committer == l.committerId
  {
    LeftMergeUnique(deltas, logs, DeltaKey, CommitterLogKey);
    forall i | 0 <= i < |deltas|
      ensures BusFactorInput(deltas, logs)[i].time.None? <==> forall l :: l in logs ==> l.commitHashId != Some(deltas[i].commitHashId)
      ensures BusFactorInput(deltas, logs)[i].time.Some? ==>
        exists l :: l in logs && l.commitHashId == Some(deltas[i].commitHashId)
          && BusFactorInput(deltas, logs)[i].time == Some(l.committedAt)
          && BusFactorInput(deltas, logs)[i].committer == l.committerId
    {
      var ms := Matches(logs, CommitterLogKey, DeltaKey(deltas[i]));
      assert |ms| > 0 ==> ms[0] in ms;
    }
  }

  /** One row of `bus_factor`. */
  datatype BusRow = BusRow(contribution: Sizes, committerId: int, date: int)

  function AsTimed(r: Contribution): Timed { Timed(r.deltas, r.time) }

  function TimedRows(rows: seq<Contribution>): (ts: seq<Timed>)
    ensures |ts| == |rows|
    ensures forall i :: 0 <= i < |rows| ==> ts[i] == AsTimed(rows[i])
  {
    seq(|rows|, i requires 0 <= i < |rows| => AsTimed(rows[i]))
  }

  /** `date_group.abs()` on the delta columns. */
  function AbsDeltas(r: Contribution): Sizes { r.deltas.Abs() }

  function RawDeltas(r: Contribution): Sizes { r.deltas }

  function CommitterKey(r: Contribution): Option<int> {
    if r.committer.Some? then Some(r.committer.value as int) else None
  }

  /** The day bin and the committer group a row falls in; `None` keys fall in no group. */
  function DayCommitter(r: Contribution): (Option<int>, Option<int>) {
    (BinOf(AsTimed(r)), CommitterKey(r))
  }

  /** The day of a row that has both a time and a committer. */
  function CommittedDay(r: Contribution): Option<int> {
    if r.committer.Some? then BinOf(AsTimed(r)) else None
  }

  /** The committer ids of the rows of day `d`, in row order. */
  function CommittersOn(rows: seq<Contribution>, d: int): (cs: seq<int>)
    ensures forall c :: c in cs <==> exists i :: 0 <= i < |rows| && DayCommitter(rows[i]) == (Some(d), Some(c))
  {
    if |rows| == 0 then []
    else
      var init := rows[..|rows| - 1];
      var last := rows[|rows| - 1];
      assert forall i :: 0 <= i < |init| ==> init[i] == rows[i];
      CommittersOn(init, d)
        + (if DayCommitter(last).0 == Some(d) && last.committer.Some? then [last.committer.value as int] else [])
  }

  /** The group keys of the committers of day `d`, in ascending committer order. */
  function DayKeys(d: int, cs: seq<int>): (ks: seq<(Option<int>, Option<int>)>)
    ensures |ks| == |cs|
    ensures forall j :: 0 <= j < |cs| ==> ks[j] == (Some(d), Some(cs[j]))
  {
    seq(|cs|, j requires 0 <= j < |cs| => (Some(d), Some(cs[j])))
  }

  /**
   * The rows one day contributes: per committer, in ascending id order, the
   * sum of the absolute deltas of that committer's commits of the day; a
   * day without any such group gets the single row of -1 values.
   */
  function DayRows(rows: seq<Contribution>, d: int): (out: seq<BusRow>)
    ensures |out| > 0
    ensures forall j :: 0 <= j < |out| ==> out[j].date == Midnight(d)
  {
    var cs := SortedKeys(CommittersOn(rows, d));
    if |cs| == 0 then [BusRow(MinusOne, -1, Midnight(d))]
    else
      seq(|cs|, j requires 0 <= j < |cs| =>
        BusRow(SumKeysIn(rows, DayCommitter, AbsDeltas, {(Some(d), Some(cs[j]))}), cs[j], Midnight(d)))
  }

  /** The rows of every day from `first` through `last`, in day order. */
  function DaysRows(rows: seq<Contribution>, first: int, last: int): (parts: seq<seq<BusRow>>)
    ensures |parts| == if first <= last then last - first + 1 else 0
    ensures forall i :: 0 <= i < |parts| ==> parts[i] == DayRows(rows, first + i)
  {
    var n := if first <= last then last - first + 1 else 0;
    seq(n, i requires 0 <= i < n => DayRows(rows, first + i))
  }

  /**
   * `BusFactorPerDay.compute`: the day groups of every bin from the first to
   * the last commit day, concatenated; without any commit time there is no
   * group, and concatenating no frames raises.
   */
  function BusFactorPerDay(rows: seq<Contribution>): (r: Option<seq<BusRow>>)
    ensures r.None? <==> forall i :: 0 <= i < |rows| ==> rows[i].time.None?
  {
    match BinSpan(TimedRows(rows))
    case None =>
      assert forall i :: 0 <= i < |rows| && rows[i].time.Some? ==> DayOf(rows[i].time.value) in TimedDays(TimedRows(rows));
      None
    case Some((first, last)) =>
      Some(Concat(DaysRows(rows, first, last)))
  }

  /**
   * The output has rows for exactly the days from the first to the last
   * commit day: every one of those days has at least one row, and every
   * row is dated at the midnight of one of them.
   */
  lemma BusFactorDays(rows: seq<Contribution>, first: int, last: int)
    requires BinSpan(TimedRows(rows)) == Some((first, last))
    ensures BusFactorPerDay(rows).Some?
    ensures forall d :: first <= d <= last ==>
      exists r :: r in BusFactorPerDay(rows).value && r.date == Midnight(d)
    ensures var out := BusFactorPerDay(rows).value;
      forall j :: 0 <= j < |out| ==> exists d :: first <= d <= last && out[j].date == Midnight(d)
  {
    assert BusFactorPerDay(rows) == Some(Concat(DaysRows(rows, first, last)));
    DayHasRow(rows, first, last);
    RowHasDay(rows, first, last);
  }

  lemma DayHasRow(rows: seq<Contribution>, first: int, last: int)
    ensures forall d :: first <= d <= last ==> exists r :: r in Concat(DaysRows(rows, first, last)) && r.date == Midnight(d)
  {
    var parts := DaysRows(rows, first, last);
    var out := Concat(parts);
    forall d | first <= d <= last ensures exists r :: r in out && r.date == Midnight(d) {
      var p := parts[d - first];
      assert p == DayRows(rows, d);
      assert p[0].date == Midnight(d);
      assert p[0] in parts[d - first];
      assert p[0] in out;
    }
  }

  lemma RowHasDay(rows: seq<Contribution>, first: int, last: int)
    ensures var out := Concat(DaysRows(rows, first, last));
      forall j :: 0 <= j < |out| ==> exists d :: first <= d <= last && out[j].date == Midnight(d)
  {
    var parts := DaysRows(rows, first, last);
    var out := Concat(parts);
    forall j | 0 <= j < |out| ensures exists d :: first <= d <= last && out[j].date == Midnight(d) {
      assert out[j] in out;
      var i :| 0 <= i < |parts| && out[j] in parts[i];
      var k :| 0 <= k < |parts[i]| && parts[i][k] == out[j];
      assert out[j].date == Midnight(first + i);
    }
  }

  /** A day gets the -1 row exactly when none of its commits has a committer. */
  lemma {:induction false} DayRowsSentinel(rows: seq<Contribution>, d: int)
    ensures DayRows(rows, d) == [BusRow(MinusOne, -1, Midnight(d))]
      <==> forall i :: 0 <= i < |rows| ==> CommittedDay(rows[i]) != Some(d)
  {
    var cs := SortedKeys(CommittersOn(rows, d));
    if |cs| > 0 {
      assert cs[0] in cs;
      assert DayRows(rows, d)[0].committerId == cs[0];
    } else {
      forall i | 0 <= i < |rows| ensures CommittedDay(rows[i]) != Some(d) {
        CommitterListed(rows, d, i);
      }
    }
  }

  /** A row of day `d` with a committer puts that committer among the day's committers. */
  lemma CommitterListed(rows: seq<Contribution>, d: int, i: nat)
    requires i < |rows|
    ensures CommittedDay(rows[i]) == Some(d) ==>
      rows[i].committer.value as int in SortedKeys(CommittersOn(rows, d))
  {
    assert CommittedDay(rows[i]) == Some(d) ==>
      DayCommitter(rows[i]) == (Some(d), Some(rows[i].committer.value as int));
  }

  /**
   * Every row of a day with committers names a committer of that day, the
   * ids ascend, and the contribution is non-negative and at least the
   * absolute net change the committer made that day, column by column.
   */
  lemma {:induction false} DayRowsCommitters(rows: seq<Contribution>, d: int)
    requires exists i :: 0 <= i < |rows| && CommittedDay(rows[i]) == Some(d)
    ensures var out := DayRows(rows, d);
      forall j :: 0 <= j < |out| ==> (out[j].committerId >= 0
        && (exists i :: 0 <= i < |rows| && DayCommitter(rows[i]) == (Some(d), Some(out[j].committerId)))
        && out[j].contribution.NonNegative()
        && SumKeysIn(rows, DayCommitter, RawDeltas, {(Some(d), Some(out[j].committerId))}).Abs().AtMost(out[j].contribution))
    ensures var out := DayRows(rows, d);
      forall j, k :: 0 <= j < k < |out| ==> out[j].committerId < out[k].committerId
  {
    var i :| 0 <= i < |rows| && CommittedDay(rows[i]) == Some(d);
    CommitterListed(rows, d, i);
    var cs := SortedKeys(CommittersOn(rows, d));
    var out := DayRows(rows, d);
    forall j | 0 <= j < |out|
      ensures out[j].committerId >= 0
      ensures exists i :: 0 <= i < |rows| && DayCommitter(rows[i]) == (Some(d), Some(out[j].committerId))
      ensures out[j].contribution.NonNegative()
      ensures SumKeysIn(rows, DayCommitter, RawDeltas, {(Some(d), Some(out[j].committerId))}).Abs().AtMost(out[j].contribution)
    {
      DayRowCommitter(rows, d, j);
    }
    forall j, k | 0 <= j < k < |out| ensures out[j].committerId < out[k].committerId {
      DayRowIds(rows, d, j);
      DayRowIds(rows, d, k);
    }
  }

  /** The row of the `j`-th committer of a day carries that committer's id and group sum. */
  lemma DayRowIds(rows: seq<Contribution>, d: int, j: nat)
    requires j < |SortedKeys(CommittersOn(rows, d))|
    ensures j < |DayRows(rows, d)|
    ensures DayRows(rows, d)[j].committerId == SortedKeys(CommittersOn(rows, d))[j]
    ensures DayRows(rows, d)[j].contribution
      == SumKeysIn(rows, DayCommitter, AbsDeltas, {(Some(d), Some(SortedKeys(CommittersOn(rows, d))[j]))})
  {
  }

  lemma DayRowCommitter(rows: seq<Contribution>, d: int, j: nat)
    requires |SortedKeys(CommittersOn(rows, d))| > 0 && j < |DayRows(rows, d)|
    ensures var r := DayRows(rows, d)[j];
      r.committerId >= 0
      && (exists i :: 0 <= i < |rows| && DayCommitter(rows[i]) == (Some(d), Some(r.committerId)))
      && r.contribution.NonNegative()
      && SumKeysIn(rows, DayCommitter, RawDeltas, {(Some(d), Some(r.committerId))}).Abs().AtMost(r.contribution)
  {
    var cs := SortedKeys(CommittersOn(rows, d));
    DayRowIds(rows, d, j);
    assert cs[j] in CommittersOn(rows, d);
    var i :| 0 <= i < |rows| && DayCommitter(rows[i]) == (Some(d), Some(cs[j]));
    assert CommitterKey(rows[i]) == Some(cs[j]);
    SumKeysInAbs(rows, DayCommitter, RawDeltas, AbsDeltas, {(Some(d), Some(cs[j]))});
  }

  function Contributions(out: seq<BusRow>): (sums: seq<Sizes>)
    ensures |sums| == |out|
    ensures forall j :: 0 <= j < |out| ==> sums[j] == out[j].contribution
  {
    SizesOf(out, (r: BusRow) => r.contribution)
  }

  /**
   * Splitting a day by committer loses nothing: the day's contributions add
   * up to the absolute deltas of all of its commits that have a committer.
   */
  lemma {:induction false} DayRowsTotal(rows: seq<Contribution>, d: int)
    requires exists i :: 0 <= i < |rows| && CommittedDay(rows[i]) == Some(d)
    ensures Sum(Contributions(DayRows(rows, d))) == SumKeysIn(rows, CommittedDay, AbsDeltas, {Some(d)})
  {
    var i :| 0 <= i < |rows| && CommittedDay(rows[i]) == Some(d);
    CommitterListed(rows, d, i);
    var cs := SortedKeys(CommittersOn(rows, d));
    var ks := DayKeys(d, cs);
    calc {
      Sum(Contributions(DayRows(rows, d)));
      { DayRowsAreGroupSums(rows, d); }
      Sum(GroupSums(rows, DayCommitter, AbsDeltas, ks));
      { DayKeysDistinct(d, cs); GroupSumsTotal(rows, DayCommitter, AbsDeltas, ks); }
      SumKeysIn(rows, DayCommitter, AbsDeltas, SetOf(ks));
      { DayKeysSelect(rows, d); SumKeysInSameRows(rows, AbsDeltas, DayCommitter, SetOf(ks), CommittedDay, {Some(d)}); }
      SumKeysIn(rows, CommittedDay, AbsDeltas, {Some(d)});
    }
  }

  lemma DayRowsAreGroupSums(rows: seq<Contribution>, d: int)
    requires |SortedKeys(CommittersOn(rows, d))| > 0
    ensures Contributions(DayRows(rows, d))
      == GroupSums(rows, DayCommitter, AbsDeltas, DayKeys(d, SortedKeys(CommittersOn(rows, d))))
  {
  }

  lemma DayKeysDistinct(d: int, cs: seq<int>)
    requires Increasing(cs)
    ensures Distinct(DayKeys(d, cs))
  {
  }

  /** The groups of day `d` together select exactly the day's rows that have a committer. */
  lemma DayKeysSelect(rows: seq<Contribution>, d: int)
    ensures var ks := DayKeys(d, SortedKeys(CommittersOn(rows, d)));
      forall i :: 0 <= i < |rows| ==> (DayCommitter(rows[i]) in SetOf(ks) <==> CommittedDay(rows[i]) in {Some(d)})
  {
    var cs := SortedKeys(CommittersOn(rows, d));
    var ks := DayKeys(d, cs);
    forall i | 0 <= i < |rows| ensures DayCommitter(rows[i]) in SetOf(ks) <==> CommittedDay(rows[i]) in {Some(d)} {
      CommitterListed(rows, d, i);
      assert CommittedDay(rows[i]) == Some(d) ==> exists j :: 0 <= j < |cs| && cs[j] == rows[i].committer.value as int;
      assert CommittedDay(rows[i]) == Some(d) ==> DayCommitter(rows[i]) in ks;
    }
  }
}
