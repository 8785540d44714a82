/**
 * The daily aggregator (`daily_ridership`): one row per (date, stop) holding the sum of the
 * entries of that stop's records on that day, valid and fraudulent entries alike.
 */
module DailyAggregator {
  import opened Common
  import opened Grouping

  /** The entries of the records of stop s on day d. */
  function EntriesAt(rs: seq<Record>, d: int, s: string): int
  {
    if rs == [] then 0
    else
      var last := rs[|rs| - 1];
      EntriesAt(rs[..|rs| - 1], d, s) + (if last.date == d && last.stop == s then last.entries else 0)
  }

  /** The entries of all records. */
  function EntriesTotal(rs: seq<Record>): int
  {
    if rs == [] then 0 else EntriesTotal(rs[..|rs| - 1]) + rs[|rs| - 1].entries
  }

  /** Each record as an item of the (date, stop) group-by. */
  function Keyed(rs: seq<Record>): (items: seq<((int, string), int)>)
    ensures |items| == |rs|
  {
    seq(|rs|, i requires 0 <= i < |rs| => ((rs[i].date, rs[i].stop), rs[i].entries))
  }

  /** One output row per group. */
  function Rows(gs: seq<Group<(int, string)>>): (out: seq<DailyTotal>)
    ensures |out| == |gs|
  {
    seq(|gs|, i requires 0 <= i < |gs| => DailyTotal(gs[i].key.0, gs[i].key.1, gs[i].sum))
  }

  lemma {:induction false} KeyedSums(rs: seq<Record>, d: int, s: string)
    ensures SumOf(Keyed(rs), (d, s)) == EntriesAt(rs, d, s)
    ensures Total(Keyed(rs)) == EntriesTotal(rs)
  {
    if rs != [] {
      var pre := rs[..|rs| - 1];
      assert Keyed(rs)[..|rs| - 1] == Keyed(pre);
      KeyedSums(pre, d, s);
    }
  }

  lemma {:induction false} RowsTotal(gs: seq<Group<(int, string)>>)
    ensures TotalOf(Rows(gs)) == GroupTotal(gs)
  {
    if gs != [] {
      assert Rows(gs)[..|gs| - 1] == Rows(gs[..|gs| - 1]);
      RowsTotal(gs[..|gs| - 1]);
      GroupTotalLast(gs);
    }
  }

  /** The (date, stop) pairs of a daily table. */
  function DayStops(daily: seq<DailyTotal>): set<(int, string)>
  {
    set x | x in daily :: (x.date, x.stop)
  }

  /** The (date, stop) pairs that occur in the records. */
  function RecordDayStops(rs: seq<Record>): set<(int, string)>
  {
    set y | y in rs :: (y.date, y.stop)
  }

  lemma RowsKeys(gs: seq<Group<(int, string)>>)
    ensures DayStops(Rows(gs)) == KeySet(gs)
  {
    var out := Rows(gs);
    forall k | k in DayStops(out) ensures k in KeySet(gs) {
      var x :| x in out && k == (x.date, x.stop);
      var i :| 0 <= i < |out| && out[i] == x;
      assert gs[i] in gs;
    }
    forall k | k in KeySet(gs) ensures k in DayStops(out) {
      var g :| g in gs && g.key == k;
      var i :| 0 <= i < |gs| && gs[i] == g;
      assert out[i] in out;
    }
  }

  lemma KeyedKeys(rs: seq<Record>)
    ensures ItemKeys(Keyed(rs)) == RecordDayStops(rs)
  {
    var items := Keyed(rs);
    forall k | k in ItemKeys(items) ensures k in RecordDayStops(rs) {
      var j :| 0 <= j < |items| && items[j].0 == k;
      assert rs[j] in rs;
    }
    forall k | k in RecordDayStops(rs) ensures k in ItemKeys(items) {
      var y :| y in rs && k == (y.date, y.stop);
      var j :| 0 <= j < |rs| && rs[j] == y;
      assert items[j].0 == k;
    }
  }

  lemma RowsDistinct(gs: seq<Group<(int, string)>>)
    requires DistinctKeys(gs)
    ensures var out := Rows(gs);
      forall i, j :: 0 <= i < j < |out| ==> (out[i].date, out[i].stop) != (out[j].date, out[j].stop)
  {
    forall i, j | 0 <= i < j < |gs| ensures gs[i].key != gs[j].key {
      DistinctKeysAt(gs, i, j);
    }
  }

  lemma RowsSums(rs: seq<Record>)
    ensures forall x :: x in Rows(GroupSum(Keyed(rs))) ==> x.total == EntriesAt(rs, x.date, x.stop)
  {
    var items := Keyed(rs);
    var gs := GroupSum(items);
    var out := Rows(gs);
    forall x | x in out ensures x.total == EntriesAt(rs, x.date, x.stop) {
      var i :| 0 <= i < |out| && out[i] == x;
      assert gs[i] in gs;
      GroupSumMember(items, gs[i]);
      KeyedSums(rs, x.date, x.stop);
    }
  }

  /**
   * One row per (date, stop) that occurs in the records, holding the sum of those records'
   * entries; the rows hold the records' grand total.
   */
  function DailyRidership(rs: seq<Record>): (out: seq<DailyTotal>)
    ensures forall i, j :: 0 <= i < j < |out| ==> (out[i].date, out[i].stop) != (out[j].date, out[j].stop)
    ensures DayStops(out) == RecordDayStops(rs)
    ensures forall x :: x in out ==> x.total == EntriesAt(rs, x.date, x.stop)
    ensures TotalOf(out) == EntriesTotal(rs)
  {
    var gs := GroupSum(Keyed(rs));
    RowsDistinct(gs);
    RowsKeys(gs);
    KeyedKeys(rs);
    RowsSums(rs);
    KeyedSums(rs, 0, "");
    RowsTotal(gs);
    Rows(gs)
  }

  /** There are exactly as many rows as distinct (date, stop) pairs in the records. */
  lemma DailyRidershipSize(rs: seq<Record>)
    ensures |DailyRidership(rs)| == |RecordDayStops(rs)|
  {
    var gs := GroupSum(Keyed(rs));
    DistinctKeysCard(gs);
    RowsKeys(gs);
    KeyedKeys(rs);
  }
}
