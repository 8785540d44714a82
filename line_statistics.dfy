/**
 * Line statistics (`overall_stats`): the line's total ridership on the most recent day, the
 * rounded mean of its daily totals over the before-closure window, and the rounded percent
 * change from that mean to the most recent day.
 */
module LineStatistics {
  import opened Common
  import opened Grouping
  import opened Rounding

  datatype LineSummary = LineSummary(recentDate: int, recentValue: int, beforeAverage: int, percentChange: int)

  /** The selection of the dates of a window, as a key filter. */
  function InWindowOf(w: Window): int -> bool
  {
    (d: int) => InWindow(d, w)
  }

  /** The position of the day with the latest date. */
  function LatestIndex(days: seq<Group<int>>): (i: nat)
    requires |days| > 0
    ensures i < |days|
    ensures forall j :: 0 <= j < |days| ==> days[j].key <= days[i].key
  {
    if |days| == 1 then 0
    else
      var k := LatestIndex(days[..|days| - 1]);
      if days[|days| - 1].key > days[k].key then |days| - 1 else k
  }

  /** overall_stats for one line's daily per-station table. */
  function OverallStats(daily: seq<DailyTotal>, before: Window): (r: Result<LineSummary>)
    ensures r.Ok? ==> r.value.beforeAverage != 0
    ensures r.Ok? ==> IsRoundHalfEven(100 * (r.value.recentValue - r.value.beforeAverage),
                                      r.value.beforeAverage, r.value.percentChange)
  {
    var days := GroupSum(ByDate(daily));
    if days == [] then Err(NoData)
    else
      var latest := days[LatestIndex(days)];
      var beforeDays := FilterGroups(days, InWindowOf(before));
      if beforeDays == [] then Err(EmptyWindow)
      else
        var average := RoundHalfEven(GroupTotal(beforeDays), |beforeDays|);
        if average == 0 then Err(ZeroBaseline)
        else Ok(LineSummary(latest.key, latest.sum, average, RoundHalfEven(100 * (latest.sum - average), average)))
  }

  // ---------------------------------------------------------------------------
  // Reference definitions over the daily rows
  // ---------------------------------------------------------------------------

  /** The whole line's ridership on day d: the sum over its stations. */
  function TotalOn(daily: seq<DailyTotal>, d: int): int
  {
    if daily == [] then 0
    else
      var last := daily[|daily| - 1];
      TotalOn(daily[..|daily| - 1], d) + (if last.date == d then last.total else 0)
  }

  lemma {:induction false} ByDateSums(daily: seq<DailyTotal>, d: int)
    ensures SumOf(ByDate(daily), d) == TotalOn(daily, d)
    ensures Total(ByDate(daily)) == TotalOf(daily)
  {
    if daily != [] {
      var pre := daily[..|daily| - 1];
      assert ByDate(daily)[..|daily| - 1] == ByDate(pre);
      ByDateSums(pre, d);
    }
  }

  lemma ByDateSnoc(daily: seq<DailyTotal>, x: DailyTotal)
    ensures ByDate(daily + [x]) == ByDate(daily) + [(x.date, x.total)]
  {
  }

  lemma WindowRowsSnoc(daily: seq<DailyTotal>, x: DailyTotal, w: Window)
    ensures WindowRows(daily + [x], w) == WindowRows(daily, w) + (if InWindow(x.date, w) then [x] else [])
  {
    assert (daily + [x])[..|daily|] == daily;
  }

  lemma FilterItemsSnoc(items: seq<(int, int)>, item: (int, int), p: int -> bool)
    ensures FilterItems(items + [item], p) == FilterItems(items, p) + (if p(item.0) then [item] else [])
  {
    assert (items + [item])[..|items|] == items;
  }

  lemma {:induction false} ByDateWindow(daily: seq<DailyTotal>, w: Window)
    ensures FilterItems(ByDate(daily), InWindowOf(w)) == ByDate(WindowRows(daily, w))
  {
    if daily != [] {
      var pre := daily[..|daily| - 1];
      var last := daily[|daily| - 1];
      assert daily == pre + [last];
      ByDateWindow(pre, w);
      ByDateSnoc(pre, last);
      FilterItemsSnoc(ByDate(pre), (last.date, last.total), InWindowOf(w));
      WindowRowsSnoc(pre, last, w);
      if InWindow(last.date, w) {
        ByDateSnoc(WindowRows(pre, w), last);
      }
    }
  }

  // ---------------------------------------------------------------------------
  // Properties
  // ---------------------------------------------------------------------------

  /**
   * The most recent value is the sum over the stations on the latest date present in the
   * table.
   */
  lemma OverallStatsRecent(daily: seq<DailyTotal>, before: Window)
    requires OverallStats(daily, before).Ok?
    ensures var s := OverallStats(daily, before).value;
      && s.recentDate in DatesOf(daily)
      && (forall x :: x in daily ==> x.date <= s.recentDate)
      && s.recentValue == TotalOn(daily, s.recentDate)
  {
    var days := GroupSum(ByDate(daily));
    var i := LatestIndex(days);
    var latest := days[i];
    ByDateKeys(daily);
    assert latest in days;
    assert latest.key in KeySet(days);
    forall x | x in daily ensures x.date <= latest.key {
      assert x.date in DatesOf(daily);
      var g :| g in days && g.key == x.date;
      var j :| 0 <= j < |days| && days[j] == g;
    }
    GroupSumMember(ByDate(daily), latest);
    ByDateSums(daily, latest.key);
  }

  /**
   * The before-closure average is the rounded mean of the line's daily totals over the
   * dates of the window that occur in the table: all entries in the window divided by the
   * number of distinct dates.
   */
  lemma OverallStatsBefore(daily: seq<DailyTotal>, before: Window)
    requires OverallStats(daily, before).Ok?
    ensures var rows := WindowRows(daily, before);
      && |DatesOf(rows)| > 0
      && OverallStats(daily, before).value.beforeAverage == RoundHalfEven(TotalOf(rows), |DatesOf(rows)|)
  {
    BeforeDays(daily, before);
  }

  /** The groups of the before window: one per date of the window, holding the window's entries. */
  lemma BeforeDays(daily: seq<DailyTotal>, before: Window)
    ensures var beforeDays := FilterGroups(GroupSum(ByDate(daily)), InWindowOf(before));
      var rows := WindowRows(daily, before);
      && |beforeDays| == |DatesOf(rows)|
      && GroupTotal(beforeDays) == TotalOf(rows)
  {
    var rows := WindowRows(daily, before);
    GroupSumFilter(ByDate(daily), InWindowOf(before));
    ByDateWindow(daily, before);
    var gs := GroupSum(ByDate(rows));
    DistinctKeysCard(gs);
    ByDateKeys(rows);
    ByDateSums(rows, 0);
  }

  /**
   * The error cases: no rows at all; no row in the before window; a before average that
   * rounds to 0, against which no percent change exists.
   */
  lemma OverallStatsErrors(daily: seq<DailyTotal>, before: Window)
    ensures var rows := WindowRows(daily, before);
      && (OverallStats(daily, before) == Err(NoData) <==> daily == [])
      && (OverallStats(daily, before) == Err(EmptyWindow) <==> daily != [] && rows == [])
      && (OverallStats(daily, before) == Err(ZeroBaseline) <==>
            |DatesOf(rows)| > 0 && RoundHalfEven(TotalOf(rows), |DatesOf(rows)|) == 0)
  {
    var rows := WindowRows(daily, before);
    var days := GroupSum(ByDate(daily));
    DistinctKeysCard(days);
    ByDateKeys(daily);
    BeforeDays(daily, before);
    if daily != [] {
      assert daily[0] in daily;
      assert daily[0].date in DatesOf(daily);
    }
    if rows != [] {
      assert rows[0] in rows;
      assert rows[0].date in DatesOf(rows);
    }
  }
}
