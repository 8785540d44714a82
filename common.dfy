/** Shared data of the ridership pipeline: raw records, daily totals, date windows and errors. */
module Common {
  import Grouping

  datatype Option<T> = None | Some(value: T)

  /** Why one line's pipeline stops instead of producing its output. */
  datatype Error =
    | UnknownLine(line: string)  // no stop list is configured for this line label
    | NoData                     // the most recent day of an empty table
    | EmptyWindow                // a date window with no rows (its mean or its date range is undefined)
    | StationMissingWindow       // a station with data in only one of the two windows (its other mean is NaN)
    | ZeroBaseline               // a percent change against a Before value of 0

  datatype Result<T> = Ok(value: T) | Err(error: Error)

  /** One row of a raw ridership export. Dates are day numbers (days since 1970-01-01). */
  datatype Record = Record(date: int, stop: string, route: string, entries: int, day: string)

  /** Total entries of one stop on one day, as produced by the daily aggregation. */
  datatype DailyTotal = DailyTotal(date: int, stop: string, total: int)

  /** An inclusive range of day numbers. */
  datatype Window = Window(start: int, end: int)

  predicate InWindow(d: int, w: Window)
  {
    w.start <= d <= w.end
  }

  /** The sum of the totals of a daily table. */
  function TotalOf(daily: seq<DailyTotal>): int
  {
    if daily == [] then 0 else TotalOf(daily[..|daily| - 1]) + daily[|daily| - 1].total
  }

  /** The rows of `daily` whose date lies in `w`, each once and in their original order. */
  function WindowRows(daily: seq<DailyTotal>, w: Window): (r: seq<DailyTotal>)
    ensures forall x :: x in r <==> x in daily && InWindow(x.date, w)
    ensures forall x :: multiset(r)[x] == if InWindow(x.date, w) then multiset(daily)[x] else 0
    ensures |r| <= |daily|
  {
    if daily == [] then []
    else
      var rest := WindowRows(daily[..|daily| - 1], w);
      var last := daily[|daily| - 1];
      assert daily == daily[..|daily| - 1] + [last];
      assert multiset(daily) == multiset(daily[..|daily| - 1]) + multiset{last};
      if InWindow(last.date, w) then rest + [last] else rest
  }

  /** Each daily row as an item of the by-date group-by. */
  function ByDate(daily: seq<DailyTotal>): (items: seq<(int, int)>)
    ensures |items| == |daily|
  {
    seq(|daily|, i requires 0 <= i < |daily| => (daily[i].date, daily[i].total))
  }

  /** The dates that occur in a daily table. */
  function DatesOf(daily: seq<DailyTotal>): set<int>
  {
    set x | x in daily :: x.date
  }

  /** The by-date items have exactly the table's dates as keys. */
  lemma ByDateKeys(daily: seq<DailyTotal>)
    ensures Grouping.ItemKeys(ByDate(daily)) == DatesOf(daily)
  {
    var items := ByDate(daily);
    forall d | d in Grouping.ItemKeys(items) ensures d in DatesOf(daily) {
      var j :| 0 <= j < |items| && items[j].0 == d;
      assert daily[j] in daily;
    }
    forall d | d in DatesOf(daily) ensures d in Grouping.ItemKeys(items) {
      var x :| x in daily && x.date == d;
      var j :| 0 <= j < |daily| && daily[j] == x;
      assert items[j].0 == d;
    }
  }
}
