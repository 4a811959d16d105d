/**
 * Project productivity: the change of the five size columns from one commit
 * to the next, and those changes summed per commit day.
 */
module Productivity {
  import opened Wrappers
  import opened Frames
  import opened Calendar
  import opened Sizes
  import opened Groups
  import opened Daily
  import opened SizeMetrics

  /** One row of `project_productivity_per_commit`: the `delta_` columns and the commit id. */
  datatype CommitDelta = CommitDelta(deltas: Sizes, commitHashId: nat)

  /**
   * `ProjectProductivityPerCommit.compute`: every row's sizes minus the sizes
   * of the row before it (`diff()`), the first row's missing difference
   * filled with 0, and the commit id copied over unchanged.
   */
  function ProductivityPerCommit(sizes: seq<CommitSize>): (out: seq<CommitDelta>)
    ensures |out| == |sizes|
    ensures forall i :: 0 <= i < |sizes| ==> out[i].commitHashId == sizes[i].commitHashId
  {
    seq(|sizes|, i requires 0 <= i < |sizes| =>
      CommitDelta(if i == 0 then Zero else sizes[i].sizes.Sub(sizes[i - 1].sizes), sizes[i].commitHashId))
  }

  /** The `delta_` columns of the output. */
  function Deltas(out: seq<CommitDelta>): (ds: seq<Sizes>)
    ensures |ds| == |out|
    ensures forall i :: 0 <= i < |out| ==> ds[i] == out[i].deltas
  {
    SizesOf(out, (r: CommitDelta) => r.deltas)
  }

  /** The first differences of a column, the first one 0. */
  function Diffs(xs: seq<Sizes>): (ds: seq<Sizes>)
    ensures |ds| == |xs|
    ensures |xs| > 0 ==> ds[0] == Zero
    ensures forall i :: 0 < i < |xs| ==> ds[i] == xs[i].Sub(xs[i - 1])
  {
    seq(|xs|, i requires 0 <= i < |xs| => if i == 0 then Zero else xs[i].Sub(xs[i - 1]))
  }

  /** Adding the running sum of the differences to the first value gives back every value. */
  lemma {:induction false} DiffsTelescope(xs: seq<Sizes>, k: nat)
    requires k < |xs|
    ensures xs[0].Add(Sum(Diffs(xs)[..k + 1])) == xs[k]
  {
    if k == 0 {
      TelescopeBase(xs, Diffs(xs));
    } else {
      DiffsTelescope(xs, k - 1);
      TelescopeStep(xs, Diffs(xs), k);
    }
  }

  lemma TelescopeBase(xs: seq<Sizes>, ds: seq<Sizes>)
    requires |xs| > 0 && |ds| > 0 && ds[0] == Zero
    ensures xs[0].Add(Sum(ds[..1])) == xs[0]
  {
    var p := ds[..1];
    assert p[..0] == [];
    assert Sum(p) == Sum(p[..0]).Add(p[0]);
    assert Sum(p) == Zero;
    AddZero(xs[0]);
  }

  lemma TelescopeStep(xs: seq<Sizes>, ds: seq<Sizes>, k: nat)
    requires 0 < k < |xs| == |ds|
    requires ds[k] == xs[k].Sub(xs[k - 1])
    requires xs[0].Add(Sum(ds[..k])) == xs[k - 1]
    ensures xs[0].Add(Sum(ds[..k + 1])) == xs[k]
  {
    assert ds[..k + 1][..k] == ds[..k];
  }

  lemma DeltasAreDiffs(sizes: seq<CommitSize>)
    ensures Deltas(ProductivityPerCommit(sizes)) == Diffs(CommitSizes(sizes))
  {
  }

  /**
   * The deltas lose nothing but the first row: adding the running sum of
   * the deltas to the first row's sizes gives back every row's sizes.
   */
  lemma DeltasTelescope(sizes: seq<CommitSize>, k: nat)
    requires k < |sizes|
    ensures sizes[0].sizes.Add(Sum(Deltas(ProductivityPerCommit(sizes))[..k + 1])) == sizes[k].sizes
  {
    DeltasAreDiffs(sizes);
    DiffsTelescope(CommitSizes(sizes), k);
  }

  /**
   * The differences of the consecutive values `a` through `b - 1` add up to
   * the change from the value before `a` (the first value, when `a` is 0)
   * to value `b - 1`.
   */
  lemma DiffsBlock(xs: seq<Sizes>, a: nat, b: nat)
    requires a < b <= |xs|
    ensures Sum(Diffs(xs)[a..b]) == xs[b - 1].Sub(xs[if a == 0 then 0 else a - 1])
  {
    var ds := Diffs(xs);
    SplitSum(ds, a, b);
    HeadSum(xs, b);
    HeadSum(xs, a);
    BlockArith(xs[0], Sum(ds[..b]), Sum(ds[..a]), Sum(ds[a..b]), xs[b - 1], xs[if a == 0 then 0 else a - 1]);
  }

  /** The running sum of the differences before position `a`. */
  lemma HeadSum(xs: seq<Sizes>, a: nat)
    requires a <= |xs| && |xs| > 0
    ensures xs[0].Add(Sum(Diffs(xs)[..a])) == xs[if a == 0 then 0 else a - 1]
  {
    if a > 0 {
      DiffsTelescope(xs, a - 1);
      assert Diffs(xs)[..a - 1 + 1] == Diffs(xs)[..a];
    } else {
      assert Diffs(xs)[..a] == [];
      AddZero(xs[0]);
    }
  }

  lemma SplitSum(ds: seq<Sizes>, a: nat, b: nat)
    requires a <= b <= |ds|
    ensures Sum(ds[..b]) == Sum(ds[..a]).Add(Sum(ds[a..b]))
  {
    assert ds[..b] == ds[..a] + ds[a..b];
    SumAppend(ds[..a], ds[a..b]);
  }

  lemma BlockArith(x0: Sizes, whole: Sizes, head: Sizes, block: Sizes, hi: Sizes, lo: Sizes)
    requires whole == head.Add(block)
    requires x0.Add(whole) == hi && x0.Add(head) == lo
    ensures block == hi.Sub(lo)
  {
  }

  /** The deltas of the commits `a` through `b - 1` add up to the size change across them. */
  lemma BlockDelta(sizes: seq<CommitSize>, a: nat, b: nat)
    requires a < b <= |sizes|
    ensures Sum(Deltas(ProductivityPerCommit(sizes))[a..b])
      == sizes[b - 1].sizes.Sub(sizes[if a == 0 then 0 else a - 1].sizes)
  {
    DeltasAreDiffs(sizes);
    DiffsBlock(CommitSizes(sizes), a, b);
  }

  function DeltaKey(d: CommitDelta): Option<nat> { Some(d.commitHashId) }

  /** The rows `ProjectProductivityPerDay` bins: each commit's deltas with its commit time. */
  function TimedDeltas(joined: seq<(CommitDelta, Option<int>)>): (rows: seq<Timed>)
    ensures |rows| == |joined|
    ensures forall i :: 0 <= i < |joined| ==> rows[i] == Timed(joined[i].0.deltas, joined[i].1)
  {
    seq(|joined|, i requires 0 <= i < |joined| => Timed(joined[i].0.deltas, joined[i].1))
  }

  /** The per-commit deltas left-merged with the raw (unfloored) commit times. */
  function DeltaJoin(sizes: seq<CommitSize>, logs: seq<LogTime>): seq<(CommitDelta, Option<int>)> {
    JoinTimes(ProductivityPerCommit(sizes), DeltaKey, logs)
  }

  /**
   * `handle_project_productivity`: the per-commit deltas joined with their
   * commit times, then `ProjectProductivityPerDay.compute` sums them per day
   * and labels each day with its midnight.
   */
  function ProductivityPerDay(sizes: seq<CommitSize>, logs: seq<LogTime>): (out: seq<DaySum>)
    ensures out == [] <==> BinSpan(TimedDeltas(DeltaJoin(sizes, logs))).None?
  {
    DailySums(TimedDeltas(DeltaJoin(sizes, logs)))
  }

  /** With unique commit ids among the logs, the binned rows carry the per-commit deltas one for one. */
  lemma JoinedDeltas(sizes: seq<CommitSize>, logs: seq<LogTime>)
    requires DistinctKeys(logs, LogKey)
    ensures |TimedDeltas(DeltaJoin(sizes, logs))| == |sizes|
    ensures SizesOf(TimedDeltas(DeltaJoin(sizes, logs)), SizesOfRow) == Deltas(ProductivityPerCommit(sizes))
  {
    JoinTimesUnique(ProductivityPerCommit(sizes), DeltaKey, logs);
  }

  lemma JoinedTimed(sizes: seq<CommitSize>, logs: seq<LogTime>)
    requires DistinctKeys(logs, LogKey)
    requires EveryCommitLogged(sizes, logs)
    ensures forall i :: 0 <= i < |TimedDeltas(DeltaJoin(sizes, logs))| ==> TimedDeltas(DeltaJoin(sizes, logs))[i].time.Some?
  {
    var pc := ProductivityPerCommit(sizes);
    JoinTimesUnique(pc, DeltaKey, logs);
    forall i | 0 <= i < |sizes| ensures DeltaJoin(sizes, logs)[i].1.Some? {
      var l :| l in logs && l.commitHashId == Some(sizes[i].commitHashId);
      assert l.commitHashId == DeltaKey(pc[i]);
    }
  }

  lemma WholeDelta(sizes: seq<CommitSize>)
    requires |sizes| > 0
    ensures Sum(Deltas(ProductivityPerCommit(sizes))) == sizes[|sizes| - 1].sizes.Sub(sizes[0].sizes)
  {
    BlockDelta(sizes, 0, |sizes|);
    WholeSlice(Deltas(ProductivityPerCommit(sizes)));
  }

  lemma WholeSlice(ds: seq<Sizes>)
    ensures ds[0..|ds|] == ds
  {
  }

  /**
   * When every commit has exactly one commit time, the daily productivity
   * adds up to the size change from the first commit to the last.
   */
  lemma ProductivityPerDayTotal(sizes: seq<CommitSize>, logs: seq<LogTime>)
    requires |sizes| > 0
    requires DistinctKeys(logs, LogKey)
    requires EveryCommitLogged(sizes, logs)
    ensures Sum(BinSizes(ProductivityPerDay(sizes, logs))) == sizes[|sizes| - 1].sizes.Sub(sizes[0].sizes)
  {
    JoinedTimed(sizes, logs);
    DailySumsTotalAllTimed(TimedDeltas(DeltaJoin(sizes, logs)));
    JoinedDeltas(sizes, logs);
    WholeDelta(sizes);
  }

  /** The deltas of one day's rows, when those are the rows `a` through `b - 1`. */
  lemma DaySelection(sizes: seq<CommitSize>, logs: seq<LogTime>, d: int, a: nat, b: nat)
    requires a < b <= |sizes|
    requires DistinctKeys(logs, LogKey)
    requires forall i :: 0 <= i < |sizes| ==>
      ((DeltaJoin(sizes, logs)[i].1.Some? && DayOf(DeltaJoin(sizes, logs)[i].1.value) == d) <==> a <= i < b)
    ensures SumKeysIn(TimedDeltas(DeltaJoin(sizes, logs)), BinOf, SizesOfRow, {Some(d)})
      == Sum(Deltas(ProductivityPerCommit(sizes))[a..b])
  {
    var rows := TimedDeltas(DeltaJoin(sizes, logs));
    JoinedDeltas(sizes, logs);
    SumKeysInBlock(rows, BinOf, SizesOfRow, {Some(d)}, a, b);
    SizesOfSlice(rows, SizesOfRow, a, b);
  }

  /**
   * When the commits of day `d` are exactly the consecutive rows `a` through
   * `b - 1`, as they are when the commits are in time order, that day's row
   * holds the size change across those commits.
   */
  lemma ProductivityOfDay(sizes: seq<CommitSize>, logs: seq<LogTime>, d: int, a: nat, b: nat)
    requires a < b <= |sizes|
    requires DistinctKeys(logs, LogKey)
    requires forall i :: 0 <= i < |sizes| ==>
      ((DeltaJoin(sizes, logs)[i].1.Some? && DayOf(DeltaJoin(sizes, logs)[i].1.value) == d) <==> a <= i < b)
    ensures exists k :: (0 <= k < |ProductivityPerDay(sizes, logs)|
      && ProductivityPerDay(sizes, logs)[k]
        == DaySum(sizes[b - 1].sizes.Sub(sizes[if a == 0 then 0 else a - 1].sizes), Midnight(d)))
  {
    JoinedDeltas(sizes, logs);
    var rows := TimedDeltas(DeltaJoin(sizes, logs));
    assert BinOf(rows[a]) == Some(d);
    var k := DayBin(rows, a);
    DaySelection(sizes, logs, d, a, b);
    BlockDelta(sizes, a, b);
    assert ProductivityPerDay(sizes, logs)[k]
      == DaySum(sizes[b - 1].sizes.Sub(sizes[if a == 0 then 0 else a - 1].sizes), Midnight(d));
  }
}
