/**
 * `groupby(Grouper(key="committed_datetime", freq="D")).sum()` on rows that
 * carry the five size columns and a commit time: one bin per calendar day
 * from the earliest to the latest commit day, each holding the sum of the
 * rows committed that day. Rows without a time (NaT) fall in no bin.
 */
module Daily {
  import opened Wrappers
  import opened Calendar
  import opened Sizes
  import opened Groups

  /** A row with size columns and an optional commit time in seconds. */
  datatype Timed = Timed(sizes: Sizes, time: Option<int>)

  /** One output row: the bin's sums and the bin's midnight as `date`. */
  datatype DaySum = DaySum(sizes: Sizes, date: int)

  /** The bin a row falls in, or `None` for a missing time. */
  function BinOf(r: Timed): Option<int> {
    if r.time.Some? then Some(DayOf(r.time.value)) else None
  }

  function SizesOfRow(r: Timed): Sizes { r.sizes }

  /** The days of the rows that have a time, in row order. */
  function TimedDays(rows: seq<Timed>): (days: seq<int>)
    ensures forall d :: d in days <==> exists i :: 0 <= i < |rows| && BinOf(rows[i]) == Some(d)
  {
    if |rows| == 0 then []
    else
      var init := rows[..|rows| - 1];
      var last := rows[|rows| - 1];
      assert forall i :: 0 <= i < |init| ==> init[i] == rows[i];
      TimedDays(init) + (if last.time.Some? then [DayOf(last.time.value)] else [])
  }

  function MinOf(xs: seq<int>): (m: int)
    requires |xs| > 0
    ensures m in xs && forall x :: x in xs ==> m <= x
  {
    if |xs| == 1 then xs[0]
    else
      var m := MinOf(xs[1..]);
      assert forall x :: x in xs ==> x == xs[0] || x in xs[1..];
      if xs[0] < m then xs[0] else m
  }

  function MaxOf(xs: seq<int>): (m: int)
    requires |xs| > 0
    ensures m in xs && forall x :: x in xs ==> x <= m
  {
    if |xs| == 1 then xs[0]
    else
      var m := MaxOf(xs[1..]);
      assert forall x :: x in xs ==> x == xs[0] || x in xs[1..];
      if xs[0] > m then xs[0] else m
  }

  /** The days the bins cover: first and last commit day, or `None` without any time. */
  function BinSpan(rows: seq<Timed>): (span: Option<(int, int)>)
    ensures span.None? <==> |TimedDays(rows)| == 0
    ensures span.Some? ==> span.value.0 in TimedDays(rows) && span.value.1 in TimedDays(rows)
    ensures span.Some? ==> forall d :: d in TimedDays(rows) ==> span.value.0 <= d <= span.value.1
  {
    var ds := TimedDays(rows);
    if |ds| == 0 then None else Some((MinOf(ds), MaxOf(ds)))
  }

  /**
   * The day bins with their sums. A bin without any row sums to zero; the
   * bins run without gaps from the earliest to the latest commit day.
   */
  function DailySums(rows: seq<Timed>): (out: seq<DaySum>)
    ensures BinSpan(rows).None? ==> out == []
    ensures BinSpan(rows).Some? ==>
      var (first, last) := BinSpan(rows).value;
      |out| == last - first + 1
      && forall i :: 0 <= i < |out| ==>
        out[i] == DaySum(SumKeysIn(rows, BinOf, SizesOfRow, {Some(first + i)}), Midnight(first + i))
  {
    match BinSpan(rows)
    case None => []
    case Some((first, last)) =>
      var days := DateRange(first, last);
      seq(|days|, i requires 0 <= i < |days| =>
        DaySum(SumKeysIn(rows, BinOf, SizesOfRow, {Some(days[i])}), Midnight(days[i])))
  }

  /** A day between the first and the last commit day without a commit sums to zero. */
  lemma EmptyBinIsZero(rows: seq<Timed>, i: nat)
    requires BinSpan(rows).Some? && i < |DailySums(rows)|
    requires forall j :: 0 <= j < |rows| ==> BinOf(rows[j]) != Some(BinSpan(rows).value.0 + i)
    ensures DailySums(rows)[i].sizes == Zero
  {
    SumKeysInNone(rows, BinOf, SizesOfRow, {Some(BinSpan(rows).value.0 + i)});
  }

  /** Every row with a time has its day's bin, labelled with that day's midnight. */
  lemma DayBin(rows: seq<Timed>, i: nat) returns (k: nat)
    requires i < |rows| && rows[i].time.Some?
    ensures k < |DailySums(rows)|
    ensures DailySums(rows)[k]
      == DaySum(SumKeysIn(rows, BinOf, SizesOfRow, {BinOf(rows[i])}), Midnight(DayOf(rows[i].time.value)))
  {
    var d := DayOf(rows[i].time.value);
    assert d in TimedDays(rows);
    var first := BinSpan(rows).value.0;
    k := d - first;
  }

  /** The keys of the bins from `first` through `last`, in day order. */
  function BinKeys(first: int, last: int): (ks: seq<Option<int>>)
    ensures |ks| == if first <= last then last - first + 1 else 0
    ensures forall i :: 0 <= i < |ks| ==> ks[i] == Some(first + i)
  {
    var days := DateRange(first, last);
    seq(|days|, i requires 0 <= i < |days| => Some(days[i]))
  }

  /** The `sizes` column of the output. */
  function BinSizes(out: seq<DaySum>): (sums: seq<Sizes>)
    ensures |sums| == |out|
    ensures forall i :: 0 <= i < |out| ==> sums[i] == out[i].sizes
  {
    SizesOf(out, (r: DaySum) => r.sizes)
  }

  /** Column sums of the rows that have a commit time. */
  function SumTimed(rows: seq<Timed>): Sizes {
    if |rows| == 0 then Zero
    else
      var last := rows[|rows| - 1];
      SumTimed(rows[..|rows| - 1]).Add(if last.time.Some? then last.sizes else Zero)
  }

  /**
   * Binning conserves the totals: the bins together hold exactly the sum of
   * every row that has a commit time.
   */
  lemma DailySumsTotal(rows: seq<Timed>)
    ensures Sum(BinSizes(DailySums(rows))) == SumTimed(rows)
  {
    match BinSpan(rows)
    case None =>
      NoBinsNoTimes(rows);
    case Some((first, last)) =>
      var ks := BinKeys(first, last);
      var bs := BinSizes(DailySums(rows));
      var gs := GroupSums(rows, BinOf, SizesOfRow, ks);
      assert bs == gs;
      GroupSumsTotal(rows, BinOf, SizesOfRow, ks);
      BinsSelectTimed(rows, first, last);
      SelectsTimed(rows, SetOf(ks));
      assert Sum(bs) == Sum(gs);
  }

  lemma NoBinsNoTimes(rows: seq<Timed>)
    requires BinSpan(rows).None?
    ensures SumTimed(rows) == Zero
  {
    assert forall i :: 0 <= i < |rows| && rows[i].time.Some? ==> DayOf(rows[i].time.value) in TimedDays(rows);
    SelectsTimed(rows, {});
    SumKeysInNone(rows, BinOf, SizesOfRow, {});
  }

  /** The bins from the first to the last commit day hold every row with a time, and only those. */
  lemma BinsSelectTimed(rows: seq<Timed>, first: int, last: int)
    requires BinSpan(rows) == Some((first, last))
    ensures forall i :: 0 <= i < |rows| ==> (rows[i].time.Some? <==> BinOf(rows[i]) in SetOf(BinKeys(first, last)))
  {
    var ks := BinKeys(first, last);
    forall i | 0 <= i < |rows| ensures rows[i].time.Some? <==> BinOf(rows[i]) in SetOf(ks) {
      if rows[i].time.Some? {
        var d := DayOf(rows[i].time.value);
        assert d in TimedDays(rows);
        assert ks[d - first] == Some(d);
      }
    }
  }

  /** A key set that selects exactly the rows with a time sums exactly those rows. */
  lemma {:induction false} SelectsTimed(rows: seq<Timed>, keys: set<Option<int>>)
    requires forall i :: 0 <= i < |rows| ==> (rows[i].time.Some? <==> BinOf(rows[i]) in keys)
    ensures SumKeysIn(rows, BinOf, SizesOfRow, keys) == SumTimed(rows)
  {
    if |rows| > 0 {
      SelectsTimed(rows[..|rows| - 1], keys);
    }
  }

  /** When every row has a time, the bins hold the plain column totals. */
  lemma DailySumsTotalAllTimed(rows: seq<Timed>)
    requires forall i :: 0 <= i < |rows| ==> rows[i].time.Some?
    ensures Sum(BinSizes(DailySums(rows))) == Sum(SizesOf(rows, SizesOfRow))
  {
    DailySumsTotal(rows);
    SumTimedAll(rows);
  }

  lemma {:induction false} SumTimedAll(rows: seq<Timed>)
    requires forall i :: 0 <= i < |rows| ==> rows[i].time.Some?
    ensures SumTimed(rows) == Sum(SizesOf(rows, SizesOfRow))
  {
    if |rows| > 0 {
      var init := rows[..|rows| - 1];
      SumTimedAll(init);
      assert SizesOf(rows, SizesOfRow)[..|rows| - 1] == SizesOf(init, SizesOfRow);
    }
  }

  /** Two rows committed on the same day fall in one bin that holds their sum. */
  lemma SameDayBin(a: Sizes, b: Sizes, t: int)
    ensures |DailySums([Timed(a, Some(t)), Timed(b, Some(t))])| == 1
    ensures DailySums([Timed(a, Some(t)), Timed(b, Some(t))])[0] == DaySum(a.Add(b), Midnight(DayOf(t)))
  {
    var day := DayOf(t);
    var rows := [Timed(a, Some(t)), Timed(b, Some(t))];
    var first := rows[..1];
    assert first == [rows[0]] && first[..0] == [];
    assert TimedDays(first) == TimedDays([]) + [day];
    assert TimedDays(rows) == TimedDays(first) + [day];
    assert BinSpan(rows) == Some((day, day));
    assert SumKeysIn(first, BinOf, SizesOfRow, {Some(day)}) == Zero.Add(a);
    assert SumKeysIn(rows, BinOf, SizesOfRow, {Some(day)}) == a.Add(b);
  }
}
