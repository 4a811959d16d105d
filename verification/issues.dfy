/**
 * The issue side of the pipeline: fetching the issue pages and normalising
 * their ids (`handle_issues`), counting the issues open on each day
 * (`handle_issue_spoilage` with `IssueSpoilagePerDay.compute`) and joining
 * those counts with the daily project size (`IssueDensityPerDay.compute`).
 *
 * Times are seconds since the epoch and days are day numbers, as in
 * `Calendar`; "today" is the day `Timestamp.utcnow().floor("D")` falls on
 * and is a parameter.
 */
module Issues {
  import opened Wrappers
  import opened Calendar
  import opened Frames
  import opened Joins
  import opened Fill
  import opened Sizes

  // ---------------------------------------------------------------------------
  // Fetching and normalising issues
  // ---------------------------------------------------------------------------

  /** One issue as a page of the GraphQL answer delivers it. */
  datatype RawIssue = RawIssue(id: string, createdAt: int, closedAt: Option<int>)

  /** One row of the `issues` table: the id replaced by a reference into `issue_ids`. */
  datatype IssueRow = IssueRow(issueIdKey: Option<nat>, createdAt: int, closedAt: Option<int>)

  /** One answer of `get_issues`: the page's issues, its end cursor and whether more pages follow. */
  datatype Page = Page(issues: seq<RawIssue>, endCursor: string, hasNextPage: bool)

  /** The cursor of the first request. */
  const FirstCursor: string := "null"

  /** The cursor of the next request: the previous end cursor in double quotes. */
  function Quote(c: string): (q: string)
    ensures |q| == |c| + 2 && q[0] == '"' && q[|q| - 1] == '"' && q[1..|q| - 1] == c
  {
    "\"" + c + "\""
  }

  /** Each request after the first passes the end cursor of the answer before it. */
  predicate Linked(fetch: string -> Page, cursors: seq<string>) {
    |cursors| > 0 && cursors[0] == FirstCursor
    && forall k :: 0 < k < |cursors| ==> cursors[k] == Quote(fetch(cursors[k - 1]).endCursor)
  }

  /** The first `n` answers each announced another page. */
  predicate MoreAfter(fetch: string -> Page, cursors: seq<string>, n: nat)
    requires n <= |cursors|
  {
    forall k :: 0 <= k < n ==> fetch(cursors[k]).hasNextPage
  }

  /**
   * The requests of a complete crawl: linked cursors, every answer but the
   * last announcing another page, and the last announcing none.
   */
  predicate CursorChain(fetch: string -> Page, cursors: seq<string>) {
    Linked(fetch, cursors)
    && MoreAfter(fetch, cursors, |cursors| - 1)
    && !fetch(cursors[|cursors| - 1]).hasNextPage
  }

  /** The issues of each requested page, in request order. */
  function PagesOf(fetch: string -> Page, cursors: seq<string>): (pages: seq<seq<RawIssue>>)
    ensures |pages| == |cursors|
    ensures forall k :: 0 <= k < |cursors| ==> pages[k] == fetch(cursors[k]).issues
  {
    seq(|cursors|, k requires 0 <= k < |cursors| => fetch(cursors[k]).issues)
  }

  /** Two linked request sequences agree wherever both are defined. */
  lemma {:induction false} LinkedAgree(fetch: string -> Page, a: seq<string>, b: seq<string>, k: nat)
    requires Linked(fetch, a) && Linked(fetch, b)
    requires k < |a| && k < |b|
    ensures a[k] == b[k]
  {
    if k > 0 {
      LinkedAgree(fetch, a, b, k - 1);
    }
  }

  /** The crawl is determined by the answers: there is at most one complete chain. */
  lemma CursorChainUnique(fetch: string -> Page, a: seq<string>, b: seq<string>)
    requires CursorChain(fetch, a) && CursorChain(fetch, b)
    ensures a == b
  {
    if |a| < |b| {
      LinkedAgree(fetch, a, b, |a| - 1);
      assert false;
    } else if |b| < |a| {
      LinkedAgree(fetch, a, b, |b| - 1);
      assert false;
    }
    forall k | 0 <= k < |a| ensures a[k] == b[k] {
      LinkedAgree(fetch, a, b, k);
    }
  }

  /** One more request keeps the cursors linked. */
  lemma ChainStep(fetch: string -> Page, cursors: seq<string>, cursor: string)
    requires |cursors| == 0 ==> cursor == FirstCursor
    requires |cursors| > 0 ==>
      Linked(fetch, cursors) && MoreAfter(fetch, cursors, |cursors|)
      && cursor == Quote(fetch(cursors[|cursors| - 1]).endCursor)
    ensures var cs := cursors + [cursor];
      Linked(fetch, cs) && MoreAfter(fetch, cs, |cs| - 1) && cs[|cs| - 1] == cursor
      && (fetch(cursor).hasNextPage ==> MoreAfter(fetch, cs, |cs|))
  {
    var cs := cursors + [cursor];
    forall k | 0 < k < |cs| ensures cs[k] == Quote(fetch(cs[k - 1]).endCursor) {
      assert cs[k - 1] == cursors[k - 1];
      if k < |cursors| {
        assert cs[k] == cursors[k];
      }
    }
    forall k | 0 <= k < |cs| - 1 ensures fetch(cs[k]).hasNextPage {
      assert cs[k] == cursors[k];
    }
  }

  lemma PagesOfSnoc(fetch: string -> Page, cursors: seq<string>, cursor: string)
    ensures PagesOf(fetch, cursors + [cursor]) == PagesOf(fetch, cursors) + [fetch(cursor).issues]
  {
    var cs := cursors + [cursor];
    assert forall k :: 0 <= k < |cursors| ==> cs[k] == cursors[k];
  }

  /**
   * The loop of `handle_issues`: request pages until an answer announces no
   * next page, concatenating the pages in fetch order. `maxPages` bounds the
   * number of requests; when the answers would need more, the result is
   * `None`.
   */
  method FetchIssues(fetch: string -> Page, maxPages: nat) returns (r: Option<(seq<string>, seq<RawIssue>)>)
    ensures r.Some? ==> CursorChain(fetch, r.value.0) && |r.value.0| <= maxPages
    ensures r.Some? ==> r.value.1 == Concat(PagesOf(fetch, r.value.0))
    ensures r.None? ==> forall cs :: CursorChain(fetch, cs) ==> |cs| > maxPages
  {
    var cursor := FirstCursor;
    var cursors: seq<string> := [];
    var issues: seq<RawIssue> := [];
    var hasNext := true;
    while hasNext && |cursors| < maxPages
      invariant |cursors| <= maxPages
      invariant hasNext && |cursors| == 0 ==> cursor == FirstCursor
      invariant hasNext && |cursors| > 0 ==>
        Linked(fetch, cursors) && MoreAfter(fetch, cursors, |cursors|)
        && cursor == Quote(fetch(cursors[|cursors| - 1]).endCursor)
      invariant !hasNext ==> CursorChain(fetch, cursors)
      invariant issues == Concat(PagesOf(fetch, cursors))
      decreases maxPages - |cursors|, hasNext
    {
      var page := fetch(cursor);
      ChainStep(fetch, cursors, cursor);
      PagesOfSnoc(fetch, cursors, cursor);
      ConcatAppend(PagesOf(fetch, cursors), page.issues);
      cursors := cursors + [cursor];
      issues := issues + page.issues;
      cursor := Quote(page.endCursor);
      hasNext := page.hasNextPage;
    }
    if hasNext {
      forall cs | CursorChain(fetch, cs) ensures |cs| > maxPages {
        if |cs| <= maxPages {
          LinkedAgree(fetch, cs, cursors, |cs| - 1);
        }
      }
      return None;
    }
    return Some((cursors, issues));
  }

  /**
   * The tail of `handle_issues`: `issue_ids` is the id column of the fetched
   * issues under labels 0..n-1, and every issue row's id becomes the label
   * of the `issue_ids` row holding it, as `issue_id_key`.
   */
  function NormaliseIssues(raw: seq<RawIssue>): (tables: (Frame<string>, seq<IssueRow>))
    ensures |tables.0| == |raw| && |tables.1| == |raw|
    ensures forall i :: 0 <= i < |raw| ==>
      tables.1[i].createdAt == raw[i].createdAt && tables.1[i].closedAt == raw[i].closedAt
  {
    var ids := Labelled(seq(|raw|, i requires 0 <= i < |raw| => raw[i].id));
    (ids, seq(|raw|, i requires 0 <= i < |raw| => IssueRow(Lookup(ids, raw[i].id), raw[i].createdAt, raw[i].closedAt)))
  }

  /**
   * The tables `handle_issues` writes, or `None` when it fails. With no
   * fetched issue, the concatenation of the pages has no columns, so
   * selecting `issue_id` raises `KeyError` and nothing is written.
   */
  function HandleIssues(raw: seq<RawIssue>): (r: Option<(Frame<string>, seq<IssueRow>)>)
    ensures r.None? <==> |raw| == 0
    ensures r.Some? ==> |r.value.0| == |raw| && |r.value.1| == |raw|
    ensures r.Some? ==> r.value == NormaliseIssues(raw)
  {
    if |raw| == 0 then None else Some(NormaliseIssues(raw))
  }

  /**
   * Every `issue_id_key` refers to a row of `issue_ids` holding the issue's
   * own id; with distinct ids, the key of the i-th issue is i.
   */
  lemma IssueKeysResolve(raw: seq<RawIssue>)
    ensures forall i :: 0 <= i < |raw| ==>
      var key := NormaliseIssues(raw).1[i].issueIdKey;
      key.Some? && key.value < |raw| && NormaliseIssues(raw).0[key.value].value == raw[i].id
    ensures (forall i, j :: 0 <= i < j < |raw| ==> raw[i].id != raw[j].id) ==>
      forall i :: 0 <= i < |raw| ==> NormaliseIssues(raw).1[i].issueIdKey == Some(i)
  {
    var (ids, rows) := NormaliseIssues(raw);
    forall i | 0 <= i < |raw|
      ensures rows[i].issueIdKey.Some? && rows[i].issueIdKey.value < |raw| && ids[rows[i].issueIdKey.value].value == raw[i].id
      ensures (forall p, q :: 0 <= p < q < |raw| ==> raw[p].id != raw[q].id) ==> rows[i].issueIdKey == Some(i)
    {
      assert ids[i].value == raw[i].id;
      var r := Lookup(ids, raw[i].id);
      assert r.Some?;
      var j :| 0 <= j < |ids| && ids[j] == Row(r.value, raw[i].id);
      assert ids[j].index == j;
    }
  }

  // ---------------------------------------------------------------------------
  // Issue spoilage
  // ---------------------------------------------------------------------------

  /** A `pd.Interval` closed on both ends, in seconds. */
  datatype Interval = Interval(left: int, right: int)

  /** One row of `issue_spoilage_per_day`. */
  datatype SpoilageRow = SpoilageRow(start: int, end: int, openIssues: nat)

  /** The daily interval of day `d`: from its 00:00:00 through its 23:59:59. */
  function DayInterval(d: int): (iv: Interval)
    ensures iv.left == Midnight(d) && iv.right == iv.left + EndOfDayOffset
  {
    Interval(Midnight(d), Midnight(d) + EndOfDayOffset)
  }

  /**
   * The daily intervals from the oldest day through today, with the last one
   * (today's) sliced off; none when the oldest day is not before today.
   */
  function DailyIntervals(oldest: int, today: int): (ivs: seq<Interval>)
    ensures |ivs| == if oldest < today then today - oldest else 0
    ensures forall i :: 0 <= i < |ivs| ==> ivs[i] == DayInterval(oldest + i)
  {
    var days := DateRange(oldest, today);
    if |days| == 0 then []
    else seq(|days| - 1, i requires 0 <= i < |days| - 1 => DayInterval(days[i]))
  }

  lemma DayIntervalInjective(d: int, e: int)
    requires DayInterval(d) == DayInterval(e)
    ensures d == e
  {
    MidnightMonotone(d, e);
    MidnightMonotone(e, d);
  }

  /** A day has a daily interval exactly when it is on or after the oldest day and before today. */
  lemma DailyIntervalDays(oldest: int, today: int, d: int)
    ensures (exists i :: 0 <= i < |DailyIntervals(oldest, today)| && DailyIntervals(oldest, today)[i] == DayInterval(d))
      <==> oldest <= d < today
  {
    var ivs := DailyIntervals(oldest, today);
    if oldest <= d < today {
      assert ivs[d - oldest] == DayInterval(d);
    }
    forall i | 0 <= i < |ivs| && ivs[i] == DayInterval(d) ensures oldest <= d < today {
      DayIntervalInjective(oldest + i, d);
    }
  }

  /** The day an issue stops being open: its closing day, or today while it is still open. */
  function ClosedDay(x: IssueRow, today: int): int {
    if x.closedAt.Some? then DayOf(x.closedAt.value) else today
  }

  /**
   * The interval of an issue: creation and closing time floored to midnight,
   * a missing closing time replaced by today's midnight.
   */
  function IssueBounds(x: IssueRow, today: int): (iv: Interval)
    ensures iv.left == FloorDay(x.createdAt)
    ensures x.closedAt.Some? ==> iv.right == FloorDay(x.closedAt.value)
    ensures x.closedAt.None? ==> iv.right == Midnight(today)
  {
    Interval(Midnight(DayOf(x.createdAt)), Midnight(ClosedDay(x, today)))
  }

  function IssueIntervals(issues: seq<IssueRow>, today: int): (ivs: seq<Interval>)
    ensures |ivs| == |issues|
    ensures forall j :: 0 <= j < |issues| ==> ivs[j] == IssueBounds(issues[j], today)
  {
    seq(|issues|, j requires 0 <= j < |issues| => IssueBounds(issues[j], today))
  }

  /** The cover test of `compute`: the issue interval contains the whole daily interval. */
  predicate Covers(issue: Interval, day: Interval) {
    issue.left <= day.left && issue.right >= day.right
  }

  /** `covers.sum(axis=1)` for one daily interval. */
  function CoverCount(issues: seq<Interval>, day: Interval): (n: nat)
    ensures n <= |issues|
  {
    if |issues| == 0 then 0
    else CoverCount(issues[..|issues| - 1], day) + (if Covers(issues[|issues| - 1], day) then 1 else 0)
  }

  /** The positions of the issues covering a daily interval. */
  function Covering(issues: seq<Interval>, day: Interval): set<nat> {
    set j: nat | j < |issues| && Covers(issues[j], day)
  }

  /** The count is the number of covering issues. */
  lemma {:induction false} CoverCountIsCovering(issues: seq<Interval>, day: Interval)
    ensures CoverCount(issues, day) == |Covering(issues, day)|
  {
    if |issues| > 0 {
      var n := |issues| - 1;
      var init := issues[..n];
      CoverCountIsCovering(init, day);
      assert n !in Covering(init, day);
      if Covers(issues[n], day) {
        assert Covering(issues, day) == Covering(init, day) + {n};
      } else {
        assert Covering(issues, day) == Covering(init, day);
      }
    }
  }

  /** `IssueSpoilagePerDay.compute`: one row per daily interval with its cover count. */
  function IssueSpoilagePerDay(daily: seq<Interval>, issues: seq<Interval>): (out: seq<SpoilageRow>)
    ensures |out| == |daily|
    ensures forall i :: 0 <= i < |daily| ==> out[i].start == daily[i].left && out[i].end == daily[i].right
    ensures forall i :: 0 <= i < |daily| ==> out[i].openIssues <= |issues|
  {
    seq(|daily|, i requires 0 <= i < |daily| => SpoilageRow(daily[i].left, daily[i].right, CoverCount(issues, daily[i])))
  }

  /**
   * The table `handle_issue_spoilage` computes from the oldest date of
   * `project_size_per_day`: the daily intervals from that day through
   * yesterday, counted against the issue intervals.
   */
  function SpoilageTable(oldest: int, today: int, issues: seq<IssueRow>): (out: seq<SpoilageRow>)
    ensures |out| == if DayOf(oldest) < today then today - DayOf(oldest) else 0
  {
    IssueSpoilagePerDay(DailyIntervals(DayOf(oldest), today), IssueIntervals(issues, today))
  }

  /**
   * `handle_issue_spoilage`. Without any size row the oldest date is missing
   * and `date_range` fails. Without any issue, `apply(axis=1)` on the empty
   * frame yields a frame rather than a column, and assigning it to the
   * single column `interval` fails.
   */
  function HandleIssueSpoilage(oldest: Option<int>, today: int, issues: seq<IssueRow>): (r: Option<seq<SpoilageRow>>)
    ensures r.None? <==> oldest.None? || |issues| == 0
    ensures r.Some? ==> r.value == SpoilageTable(oldest.value, today, issues)
  {
    if oldest.None? || |issues| == 0 then None
    else Some(SpoilageTable(oldest.value, today, issues))
  }

  /** An issue is open on day `d` from its creation day up to but excluding its closing day. */
  predicate OpenOn(x: IssueRow, d: int, today: int) {
    DayOf(x.createdAt) <= d < ClosedDay(x, today)
  }

  /** Floored bounds against a 23:59:59 day end: covered exactly on the days the issue is open. */
  lemma CoversIffOpen(x: IssueRow, d: int, today: int)
    ensures Covers(IssueBounds(x, today), DayInterval(d)) <==> OpenOn(x, d, today)
  {
    var c := DayOf(x.createdAt);
    var e := ClosedDay(x, today);
    MidnightMonotone(c, d);
    MidnightMonotone(d, e);
    assert Midnight(e) >= Midnight(d) + EndOfDayOffset <==> d < e by {
      if d < e {
        assert Midnight(d) + SecondsPerDay <= Midnight(e);
      } else {
        assert Midnight(e) <= Midnight(d);
      }
    }
  }

  /** An issue closed on the day it was created is never counted. */
  lemma SameDayNeverCounted(x: IssueRow, d: int, today: int)
    requires x.closedAt.Some? && DayOf(x.closedAt.value) == DayOf(x.createdAt)
    ensures !Covers(IssueBounds(x, today), DayInterval(d))
  {
    CoversIffOpen(x, d, today);
  }

  /** An issue still open is counted on every day before today from its creation day on. */
  lemma OpenIssueCounted(x: IssueRow, d: int, today: int)
    requires x.closedAt.None? && d < today
    ensures Covers(IssueBounds(x, today), DayInterval(d)) <==> DayOf(x.createdAt) <= d
  {
    CoversIffOpen(x, d, today);
  }

  /** The issues open on day `d`. */
  function OpenIssues(issues: seq<IssueRow>, d: int, today: int): set<nat> {
    set j: nat | j < |issues| && OpenOn(issues[j], d, today)
  }

  /**
   * The spoilage table: one row for each day from the oldest day up to but
   * excluding today, spanning that day's 00:00:00 to 23:59:59, counting the
   * issues open on that day.
   */
  lemma SpoilageCountsOpenIssues(oldest: int, today: int, issues: seq<IssueRow>)
    ensures var out := SpoilageTable(oldest, today, issues);
      var first := DayOf(oldest);
      |out| == (if first < today then today - first else 0)
      && forall i :: 0 <= i < |out| ==>
        out[i].start == Midnight(first + i) && out[i].end == Midnight(first + i) + EndOfDayOffset
        && out[i].openIssues == |OpenIssues(issues, first + i, today)|
  {
    var out := SpoilageTable(oldest, today, issues);
    var first := DayOf(oldest);
    var daily := DailyIntervals(first, today);
    var ivs := IssueIntervals(issues, today);
    assert out == IssueSpoilagePerDay(daily, ivs);
    forall i | 0 <= i < |out| ensures out[i].openIssues == |OpenIssues(issues, first + i, today)| {
      assert daily[i] == DayInterval(first + i);
      assert out[i].openIssues == CoverCount(ivs, DayInterval(first + i));
      OpenCount(issues, first + i, today);
    }
  }

  /** The cover count of a day's interval is the number of issues open that day. */
  lemma OpenCount(issues: seq<IssueRow>, d: int, today: int)
    ensures CoverCount(IssueIntervals(issues, today), DayInterval(d)) == |OpenIssues(issues, d, today)|
  {
    var ivs := IssueIntervals(issues, today);
    var day := DayInterval(d);
    CoverCountIsCovering(ivs, day);
    forall j: nat | j < |issues| ensures Covers(ivs[j], day) <==> OpenOn(issues[j], d, today) {
      CoversIffOpen(issues[j], d, today);
    }
    assert Covering(ivs, day) == OpenIssues(issues, d, today);
  }

  // ---------------------------------------------------------------------------
  // Issue density
  // ---------------------------------------------------------------------------

  /** One row of `project_size_per_day` with its date in seconds. */
  datatype SizeDay = SizeDay(date: int, sizes: Sizes)

  /** One row of `issue_density_per_day`; `sizes` is missing before the first matched size row. */
  datatype DensityRow = DensityRow(start: int, end: int, openIssues: nat, sizes: Option<Sizes>)

  function StartOf(r: SpoilageRow): int { r.start }

  function DateOf(s: SizeDay): int { s.date }

  /** The size columns a merged row received, `None` for the NaN of an unmatched row. */
  function MatchedSizes(m: seq<(SpoilageRow, Option<SizeDay>)>): (cells: seq<Option<Sizes>>)
    ensures |cells| == |m|
    ensures forall i :: 0 <= i < |m| ==> cells[i] == if m[i].1.Some? then Some(m[i].1.value.sizes) else None
  {
    seq(|m|, i requires 0 <= i < |m| => if m[i].1.Some? then Some(m[i].1.value.sizes) else None)
  }

  /**
   * `IssueDensityPerDay.compute`: the spoilage rows left-merged with the size
   * rows on `start` = `date`, then forward-filled. The spoilage columns are
   * never missing, so the fill only touches the size columns.
   */
  function IssueDensityPerDay(spoilage: seq<SpoilageRow>, sizes: seq<SizeDay>): (out: seq<DensityRow>)
    ensures |out| >= |spoilage|
  {
    var m := LeftMerge(spoilage, sizes, StartOf, DateOf);
    var filled := ForwardFill(MatchedSizes(m));
    seq(|m|, i requires 0 <= i < |m| => DensityRow(m[i].0.start, m[i].0.end, m[i].0.openIssues, filled[i]))
  }

  /** The size rows with their dates floored to midnight. */
  function FlooredSizes(sizes: seq<SizeDay>): (floored: seq<SizeDay>)
    ensures |floored| == |sizes|
    ensures forall j :: 0 <= j < |sizes| ==> floored[j] == SizeDay(FloorDay(sizes[j].date), sizes[j].sizes)
  {
    seq(|sizes|, j requires 0 <= j < |sizes| => SizeDay(FloorDay(sizes[j].date), sizes[j].sizes))
  }

  /** `handle_issue_density`: size dates floored to midnight before the merge. */
  function HandleIssueDensity(spoilage: seq<SpoilageRow>, sizes: seq<SizeDay>): (out: seq<DensityRow>)
    ensures |out| >= |spoilage|
  {
    IssueDensityPerDay(spoilage, FlooredSizes(sizes))
  }

  /**
   * With one size row per day, every spoilage row is kept unchanged, and a
   * row starting at the midnight of a size row's day carries that row's sizes.
   */
  lemma HandleIssueDensityRows(spoilage: seq<SpoilageRow>, sizes: seq<SizeDay>)
    requires DistinctKeys(FlooredSizes(sizes), DateOf)
    ensures var out := HandleIssueDensity(spoilage, sizes);
      |out| == |spoilage|
      && (forall i :: 0 <= i < |spoilage| ==>
        out[i].start == spoilage[i].start && out[i].end == spoilage[i].end && out[i].openIssues == spoilage[i].openIssues)
      && (forall i, j :: 0 <= i < |spoilage| && 0 <= j < |sizes| && FloorDay(sizes[j].date) == spoilage[i].start ==>
        out[i].sizes == Some(sizes[j].sizes))
  {
    var floored := FlooredSizes(sizes);
    DensityRows(spoilage, floored);
    forall i, j | 0 <= i < |spoilage| && 0 <= j < |sizes| && FloorDay(sizes[j].date) == spoilage[i].start
      ensures HandleIssueDensity(spoilage, sizes)[i].sizes == Some(sizes[j].sizes)
    {
      assert floored[j].date == spoilage[i].start;
    }
  }

  /** The size row dated `start`, if any. */
  function SizeOn(sizes: seq<SizeDay>, start: int): Option<Sizes> {
    var u := UniqueMatchOf(sizes, DateOf, start);
    if u.Some? then Some(u.value.sizes) else None
  }

  /** The size cell each spoilage row receives when dates are unique on the size side. */
  function SizeCells(spoilage: seq<SpoilageRow>, sizes: seq<SizeDay>): (cells: seq<Option<Sizes>>)
    ensures |cells| == |spoilage|
    ensures forall i :: 0 <= i < |spoilage| ==> cells[i] == SizeOn(sizes, spoilage[i].start)
  {
    seq(|spoilage|, i requires 0 <= i < |spoilage| => SizeOn(sizes, spoilage[i].start))
  }

  /**
   * With one size row per date, the density table keeps every spoilage row
   * unchanged and in order, next to the forward fill of the size cells.
   */
  lemma DensityShape(spoilage: seq<SpoilageRow>, sizes: seq<SizeDay>)
    requires DistinctKeys(sizes, DateOf)
    ensures var out := IssueDensityPerDay(spoilage, sizes);
      |out| == |spoilage|
      && forall i :: 0 <= i < |spoilage| ==>
        out[i] == DensityRow(spoilage[i].start, spoilage[i].end, spoilage[i].openIssues, ForwardFill(SizeCells(spoilage, sizes))[i])
  {
    var m := LeftMerge(spoilage, sizes, StartOf, DateOf);
    LeftMergeUnique(spoilage, sizes, StartOf, DateOf);
    assert MatchedSizes(m) == SizeCells(spoilage, sizes);
  }

  /** A size row dated on a spoilage row's start is the one `SizeOn` finds. */
  lemma SizeOnMatch(sizes: seq<SizeDay>, j: nat)
    requires DistinctKeys(sizes, DateOf) && j < |sizes|
    ensures SizeOn(sizes, sizes[j].date) == Some(sizes[j].sizes)
  {
    UniqueMatch(sizes, DateOf, sizes[j].date);
    var ms := Matches(sizes, DateOf, sizes[j].date);
    assert sizes[j] in ms;
  }

  /**
   * With one size row per date, every spoilage row is kept unchanged and in
   * order; a row whose date has a size row carries those sizes, a row without
   * one repeats the row before it, and sizes are missing exactly up to the
   * first row whose date has a size row.
   */
  lemma DensityRows(spoilage: seq<SpoilageRow>, sizes: seq<SizeDay>)
    requires DistinctKeys(sizes, DateOf)
    ensures var out := IssueDensityPerDay(spoilage, sizes);
      |out| == |spoilage|
      && (forall i :: 0 <= i < |spoilage| ==>
        out[i].start == spoilage[i].start && out[i].end == spoilage[i].end && out[i].openIssues == spoilage[i].openIssues)
      && (forall i, j :: 0 <= i < |spoilage| && 0 <= j < |sizes| && sizes[j].date == spoilage[i].start ==>
        out[i].sizes == Some(sizes[j].sizes))
      && (forall i :: 0 < i < |spoilage| && SizeOn(sizes, spoilage[i].start).None? ==> out[i].sizes == out[i - 1].sizes)
      && (forall i :: 0 <= i < |spoilage| ==>
        (out[i].sizes.None? <==> forall k :: 0 <= k <= i ==> SizeOn(sizes, spoilage[k].start).None?))
  {
    DensityShape(spoilage, sizes);
    var cells := SizeCells(spoilage, sizes);
    forall j | 0 <= j < |sizes| ensures SizeOn(sizes, sizes[j].date) == Some(sizes[j].sizes) {
      SizeOnMatch(sizes, j);
    }
    forall i | 0 <= i < |spoilage| ensures ForwardFill(cells)[i].None? <==> forall k :: 0 <= k <= i ==> cells[k].None? {
      ForwardFillLeadingGap(cells, i);
    }
  }
}
