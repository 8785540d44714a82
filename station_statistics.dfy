/**
 * Station statistics (`station_stats`): for each station of a line, the rounded mean of its
 * daily totals before and after the closure, the difference and the rounded percent change,
 * followed by a line total row, displayed in the line's station order. The completeness
 * check runs first on the after-closure rows.
 */
module StationStatistics {
  import opened Common
  import opened Config
  import opened Grouping
  import opened Rounding
  import opened Decimal
  import opened SetSums
  import opened Completeness

  /** A station (or the line total) with its rounded means before and after the closure. */
  datatype MeanRow = MeanRow(name: string, before: int, after: int)

  /**
   * A row of the displayed table. A listed station without data, or a total row whose label
   * the display does not find, is a row of blanks.
   */
  datatype SummaryRow =
    | Filled(name: string, before: int, after: int, differential: int, percentChange: string)
    | Placeholder(name: string)

  // ---------------------------------------------------------------------------
  // Reference definitions over the daily rows
  // ---------------------------------------------------------------------------

  /** Each daily row as an item of the by-station group-by. */
  function ByStop(rows: seq<DailyTotal>): (items: seq<(string, int)>)
    ensures |items| == |rows|
  {
    seq(|rows|, i requires 0 <= i < |rows| => (rows[i].stop, rows[i].total))
  }

  /** The stations that have a row. */
  function Stops(rows: seq<DailyTotal>): set<string>
  {
    set x | x in rows :: x.stop
  }

  /**
   * The mean of a station's daily totals over the rows, rounded half to even: the sum of
   * its totals divided by its number of rows (0 for a station without rows).
   */
  function StationMean(rows: seq<DailyTotal>, s: string): int
  {
    var n := CountOf(ByStop(rows), s);
    if n == 0 then 0 else RoundHalfEven(SumOf(ByStop(rows), s), n)
  }

  /** StationMean of the rows, as a function of the station. */
  function MeanOf(rows: seq<DailyTotal>): string -> int
  {
    (s: string) => StationMean(rows, s)
  }

  // ---------------------------------------------------------------------------
  // The steps of the table
  // ---------------------------------------------------------------------------

  function MeanName(r: MeanRow): string
  {
    r.name
  }

  function MeanBefore(r: MeanRow): int
  {
    r.before
  }

  function MeanAfter(r: MeanRow): int
  {
    r.after
  }

  /**
   * The two mean columns side by side (the by-station groups of the before rows, each paired
   * with the same station's group of the after rows), each mean rounded half to even.
   */
  function MeanRows(bw: seq<DailyTotal>, aw: seq<DailyTotal>): (rows: seq<MeanRow>)
    requires KeySet(GroupSum(ByStop(bw))) == KeySet(GroupSum(ByStop(aw)))
    ensures |rows| == |GroupSum(ByStop(bw))|
  {
    var bg := GroupSum(ByStop(bw));
    var ag := GroupSum(ByStop(aw));
    MeansDefined(bg, ag);
    seq(|bg|, i requires 0 <= i < |bg| =>
      MeanRow(bg[i].key, RoundHalfEven(bg[i].sum, bg[i].count),
              RoundHalfEven(SumAt(ag, bg[i].key), CountAt(ag, bg[i].key))))
  }

  /** The mean columns followed by the total row: the sum of each column. */
  function WithTotal(rows: seq<MeanRow>, line: string): (full: seq<MeanRow>)
    ensures |full| == |rows| + 1 && full[..|rows|] == rows
  {
    rows + [MeanRow(TotalLabel(line), SumBy(rows, MeanBefore), SumBy(rows, MeanAfter))]
  }

  predicate HasZeroBefore(full: seq<MeanRow>)
  {
    exists i :: 0 <= i < |full| && full[i].before == 0
  }

  /** The Differential and "% Change" columns of a row with a non-zero Before value. */
  function Derive(r: MeanRow): (s: SummaryRow)
    requires r.before != 0
    ensures s.Filled? && s.name == r.name && s.before == r.before && s.after == r.after
    ensures s.differential == r.after - r.before
    ensures ParsePercent(s.percentChange).Some?
    ensures IsRoundHalfEven(100 * s.differential, s.before, ParsePercent(s.percentChange).value)
  {
    var p := RoundHalfEven(100 * (r.after - r.before), r.before);
    PercentTextRoundTrip(p);
    Filled(r.name, r.before, r.after, r.after - r.before, PercentText(p))
  }

  function DeriveAll(rows: seq<MeanRow>): (out: seq<SummaryRow>)
    requires forall i :: 0 <= i < |rows| ==> rows[i].before != 0
    ensures |out| == |rows|
  {
    seq(|rows|, i requires 0 <= i < |rows| => Derive(rows[i]))
  }

  /** The first row with the given name. */
  function Lookup(rows: seq<SummaryRow>, name: string): Option<SummaryRow>
  {
    if rows == [] then None
    else if rows[0].name == name then Some(rows[0])
    else Lookup(rows[1..], name)
  }

  /** A separator of Python's `str.split()`: a character for which `str.isspace()` holds. */
  predicate IsPySpace(c: char)
  {
    var n := c as int;
    9 <= n <= 13 || 28 <= n <= 32 || n == 0x85 || n == 0xA0 || n == 0x1680
    || 0x2000 <= n <= 0x200A || n == 0x2028 || n == 0x2029 || n == 0x202F
    || n == 0x205F || n == 0x3000
  }

  /**
   * The total row is labelled from the first two words of the line label, upper-cased; the
   * display finds it under TotalLabel only when the second word is exactly "Line", that is
   * when the line's name ends the label or is followed by a separator.
   */
  function TotalRowKept(line: string): (kept: bool)
    ensures line == OrangeLine || line == BlueLine ==> kept
    ensures OrangeLine <= line && |line| > |OrangeLine| && line[|OrangeLine|] == '(' ==> !kept
  {
    var n := if OrangeLine <= line then |OrangeLine| else |BlueLine|;
    |line| <= n || IsPySpace(line[n])
  }

  /**
   * The display step: the row of each listed station in list order (blank when the station
   * has no data; stations that are not listed are dropped), then the total row.
   */
  function Reindex(derived: seq<SummaryRow>, stations: seq<string>, line: string): (t: seq<SummaryRow>)
    requires |derived| >= 1
    ensures |t| == |stations| + 1
  {
    var stationRows := derived[..|derived| - 1];
    seq(|stations|, i requires 0 <= i < |stations| =>
      match Lookup(stationRows, stations[i])
      case None => Placeholder(stations[i])
      case Some(r) => r)
    + [if TotalRowKept(line) then derived[|derived| - 1] else Placeholder(TotalLabel(line))]
  }

  /** With the same stations in both windows, every mean of MeanRows has a divisor. */
  lemma MeansDefined(bg: seq<Group<string>>, ag: seq<Group<string>>)
    requires KeySet(bg) == KeySet(ag)
    requires forall g :: g in bg ==> g.count >= 1
    requires forall g :: g in ag ==> g.count >= 1
    ensures forall i :: 0 <= i < |bg| ==> bg[i].count >= 1 && CountAt(ag, bg[i].key) >= 1
  {
    forall i | 0 <= i < |bg| ensures bg[i].count >= 1 && CountAt(ag, bg[i].key) >= 1 {
      assert bg[i] in bg;
      assert bg[i].key in KeySet(bg);
      LookupPresent(ag, bg[i].key);
    }
  }

  /**
   * The table station_stats displays for the rows of the two windows, or the error that
   * stops it.
   */
  function Table(bw: seq<DailyTotal>, aw: seq<DailyTotal>, line: string): (r: Result<seq<SummaryRow>>)
    ensures r.Ok? ==> bw != [] && aw != []
    ensures r.Ok? ==> StationList(line).Some? && |r.value| == |StationList(line).value| + 1
  {
    if bw == [] || aw == [] then Err(EmptyWindow)
    else if KeySet(GroupSum(ByStop(bw))) != KeySet(GroupSum(ByStop(aw))) then Err(StationMissingWindow)
    else
      var full := WithTotal(MeanRows(bw, aw), line);
      if HasZeroBefore(full) then Err(ZeroBaseline)
      else
        match StationList(line)
        case None => Err(UnknownLine(line))
        case Some(stations) => Ok(Reindex(DeriveAll(full), stations, line))
  }

  /** station_stats for a line's daily per-station rows and the two windows. */
  function StationTable(daily: seq<DailyTotal>, line: string, before: Window, after: Window): (r: Result<seq<SummaryRow>>)
    ensures r == Err(EmptyWindow) <==>
      (forall x :: x in daily ==> !InWindow(x.date, before)) || (forall x :: x in daily ==> !InWindow(x.date, after))
  {
    var bw := WindowRows(daily, before);
    var aw := WindowRows(daily, after);
    assert bw != [] ==> bw[0] in bw;
    assert aw != [] ==> aw[0] in aw;
    Table(WindowRows(daily, before), WindowRows(daily, after), line)
  }

  /**
   * The Differential and "% Change" columns, computed row by row; None when some row's
   * Before value is 0, where the percent change does not exist.
   */
  method DeriveColumns(full: seq<MeanRow>) returns (derived: Option<seq<SummaryRow>>)
    ensures derived.None? <==> HasZeroBefore(full)
    ensures derived.Some? ==> derived.value == DeriveAll(full)
  {
    var out: seq<SummaryRow> := [];
    for i := 0 to |full|
      invariant |out| == i
      invariant forall j :: 0 <= j < i ==> full[j].before != 0 && out[j] == Derive(full[j])
    {
      if full[i].before == 0 {
        return None;
      }
      out := out + [Derive(full[i])];
    }
    return Some(out);
  }

  /**
   * station_stats: runs the completeness check on the after-closure rows, then builds the
   * table step by step.
   */
  method StationStats(daily: seq<DailyTotal>, line: string, before: Window, after: Window)
    returns (missing: seq<MissingDay>, table: Result<seq<SummaryRow>>)
    ensures missing == MissingReport(WindowRows(daily, after), line)
    ensures table == StationTable(daily, line, before, after)
  {
    var beforeRows := WindowRows(daily, before);
    var afterRows := WindowRows(daily, after);
    missing := CheckMissing(afterRows, line);
    if beforeRows == [] || afterRows == [] {
      return missing, Err(EmptyWindow);
    }
    if KeySet(GroupSum(ByStop(beforeRows))) != KeySet(GroupSum(ByStop(afterRows))) {
      return missing, Err(StationMissingWindow);
    }
    var full := WithTotal(MeanRows(beforeRows, afterRows), line);
    var derived := DeriveColumns(full);
    match derived
    case None =>
      table := Err(ZeroBaseline);
    case Some(d) =>
      match StationList(line)
      case None =>
        table := Err(UnknownLine(line));
      case Some(stations) =>
        table := Ok(Reindex(d, stations, line));
  }

  // ---------------------------------------------------------------------------
  // Properties
  // ---------------------------------------------------------------------------

  function RowName(r: SummaryRow): string
  {
    r.name
  }

  /** A column of the displayed table, a blank counting as 0. */
  function BeforeOf(r: SummaryRow): int
  {
    if r.Filled? then r.before else 0
  }

  function AfterOf(r: SummaryRow): int
  {
    if r.Filled? then r.after else 0
  }

  function DifferentialOf(r: SummaryRow): int
  {
    if r.Filled? then r.differential else 0
  }

  lemma ByStopKeys(rows: seq<DailyTotal>)
    ensures ItemKeys(ByStop(rows)) == Stops(rows)
  {
    var items := ByStop(rows);
    forall s | s in ItemKeys(items) ensures s in Stops(rows) {
      var j :| 0 <= j < |items| && items[j].0 == s;
      assert rows[j] in rows;
    }
    forall s | s in Stops(rows) ensures s in ItemKeys(items) {
      var x :| x in rows && x.stop == s;
      var j :| 0 <= j < |rows| && rows[j] == x;
      assert items[j].0 == s;
    }
  }

  /** A station without rows has mean 0. */
  lemma StationMeanAbsent(rows: seq<DailyTotal>, s: string)
    requires s !in Stops(rows)
    ensures StationMean(rows, s) == 0
  {
    ByStopKeys(rows);
    GroupSumLookup(ByStop(rows), s);
    LookupAbsent(GroupSum(ByStop(rows)), s);
  }

  /**
   * The mean columns: one row per station of the data, each holding that station's rounded
   * mean in each window; the columns add up to the set sums of those means.
   */
  lemma MeanRowsFacts(bw: seq<DailyTotal>, aw: seq<DailyTotal>)
    requires KeySet(GroupSum(ByStop(bw))) == KeySet(GroupSum(ByStop(aw)))
    ensures Stops(bw) == Stops(aw)
    ensures var rows := MeanRows(bw, aw);
      && NamesBy(rows, MeanName) == Stops(bw)
      && (forall i, j :: 0 <= i < j < |rows| ==> rows[i].name != rows[j].name)
      && (forall i :: 0 <= i < |rows| ==>
            rows[i].before == StationMean(bw, rows[i].name) && rows[i].after == StationMean(aw, rows[i].name))
      && SumBy(rows, MeanBefore) == SetSum(Stops(bw), MeanOf(bw))
      && SumBy(rows, MeanAfter) == SetSum(Stops(aw), MeanOf(aw))
  {
    var bg := GroupSum(ByStop(bw));
    var ag := GroupSum(ByStop(aw));
    var rows := MeanRows(bw, aw);
    ByStopKeys(bw);
    ByStopKeys(aw);
    forall i, j | 0 <= i < j < |rows| ensures rows[i].name != rows[j].name {
      DistinctKeysAt(bg, i, j);
    }
    forall i | 0 <= i < |rows|
      ensures rows[i].before == StationMean(bw, rows[i].name) && rows[i].after == StationMean(aw, rows[i].name)
    {
      assert bg[i] in bg;
      assert bg[i].key in KeySet(ag);
      GroupSumMember(ByStop(bw), bg[i]);
      GroupSumLookup(ByStop(aw), bg[i].key);
      LookupPresent(ag, bg[i].key);
    }
    assert NamesBy(rows, MeanName) == KeySet(bg) by {
      forall s | s in KeySet(bg) ensures s in NamesBy(rows, MeanName) {
        var g :| g in bg && g.key == s;
        var i :| 0 <= i < |bg| && bg[i] == g;
        assert MeanName(rows[i]) == s;
      }
    }
    SumAsSetSum(rows, MeanName, MeanBefore, MeanOf(bw));
    SumAsSetSum(rows, MeanName, MeanAfter, MeanOf(aw));
  }

  /** A station's row has Before value 0 exactly when its rounded Before mean is 0. */
  lemma MeanRowsZero(bw: seq<DailyTotal>, aw: seq<DailyTotal>)
    requires KeySet(GroupSum(ByStop(bw))) == KeySet(GroupSum(ByStop(aw)))
    ensures var rows := MeanRows(bw, aw);
      (exists i :: 0 <= i < |rows| && rows[i].before == 0) <==>
      (exists s :: s in Stops(bw) && StationMean(bw, s) == 0)
  {
    MeanRowsFacts(bw, aw);
    var rows := MeanRows(bw, aw);
    if exists s :: s in Stops(bw) && StationMean(bw, s) == 0 {
      var s :| s in Stops(bw) && StationMean(bw, s) == 0;
      var i :| 0 <= i < |rows| && MeanName(rows[i]) == s;
      assert rows[i].before == 0;
    }
    if exists i :: 0 <= i < |rows| && rows[i].before == 0 {
      var i :| 0 <= i < |rows| && rows[i].before == 0;
      assert MeanName(rows[i]) in NamesBy(rows, MeanName);
    }
  }

  /** Some Before value is 0 exactly when some station's rounded Before mean is 0 or their sum is 0. */
  lemma ZeroBeforeSpec(bw: seq<DailyTotal>, aw: seq<DailyTotal>, line: string)
    requires KeySet(GroupSum(ByStop(bw))) == KeySet(GroupSum(ByStop(aw)))
    ensures HasZeroBefore(WithTotal(MeanRows(bw, aw), line)) <==>
      (exists s :: s in Stops(bw) && StationMean(bw, s) == 0) || SetSum(Stops(bw), MeanOf(bw)) == 0
  {
    MeanRowsFacts(bw, aw);
    MeanRowsZero(bw, aw);
    var rows := MeanRows(bw, aw);
    var full := WithTotal(rows, line);
    assert full[|rows|].before == SetSum(Stops(bw), MeanOf(bw));
    if HasZeroBefore(full) {
      var i :| 0 <= i < |full| && full[i].before == 0;
      if i < |rows| {
        assert rows[i] == full[i];
      }
    }
    if exists i :: 0 <= i < |rows| && rows[i].before == 0 {
      var i :| 0 <= i < |rows| && rows[i].before == 0;
      assert full[i] == rows[i];
    }
  }

  /** The table exists exactly when both windows have rows, with the same stations, and no Before value is 0. */
  ghost predicate Computable(bw: seq<DailyTotal>, aw: seq<DailyTotal>)
  {
    && bw != [] && aw != []
    && Stops(bw) == Stops(aw)
    && (forall s :: s in Stops(bw) ==> StationMean(bw, s) != 0)
    && SetSum(Stops(bw), MeanOf(bw)) != 0
  }

  /**
   * The error cases, stated over the windows' rows: a window without rows; a station with
   * rows in one window only; a station whose rounded Before mean is 0, or Before means that
   * add up to 0; a line label with no station list. Otherwise the table exists.
   */
  lemma TableErrors(bw: seq<DailyTotal>, aw: seq<DailyTotal>, line: string)
    ensures var t := Table(bw, aw, line);
      && (t == Err(EmptyWindow) <==> bw == [] || aw == [])
      && (t == Err(StationMissingWindow) <==> bw != [] && aw != [] && Stops(bw) != Stops(aw))
      && (t == Err(ZeroBaseline) <==>
            && bw != [] && aw != [] && Stops(bw) == Stops(aw)
            && ((exists s :: s in Stops(bw) && StationMean(bw, s) == 0) || SetSum(Stops(bw), MeanOf(bw)) == 0))
      && (t == Err(UnknownLine(line)) <==> Computable(bw, aw) && StationList(line) == None)
      && (t.Ok? <==> Computable(bw, aw) && StationList(line).Some?)
  {
    ByStopKeys(bw);
    ByStopKeys(aw);
    if bw != [] && aw != [] && Stops(bw) == Stops(aw) {
      ZeroBeforeSpec(bw, aw, line);
    }
  }

  /** Looking a name up finds the first row with that name, and finds nothing only when no row has it. */
  lemma {:induction false} LookupSpec(rows: seq<SummaryRow>, s: string)
    ensures Lookup(rows, s).None? <==> forall i :: 0 <= i < |rows| ==> rows[i].name != s
    ensures Lookup(rows, s).Some? ==>
      exists i :: 0 <= i < |rows| && rows[i].name == s && Lookup(rows, s).value == rows[i]
  {
    if rows != [] && rows[0].name != s {
      LookupSpec(rows[1..], s);
      if Lookup(rows, s).Some? {
        var i :| 0 <= i < |rows[1..]| && rows[1..][i].name == s && Lookup(rows, s).value == rows[1..][i];
        assert rows[i + 1] == rows[1..][i];
      } else {
        forall i | 0 <= i < |rows| ensures rows[i].name != s {
          if i > 0 {
            assert rows[i] == rows[1..][i - 1];
          }
        }
      }
    }
  }

  /** A computed table is the display of the derived columns of the mean rows and their total. */
  lemma TableOk(bw: seq<DailyTotal>, aw: seq<DailyTotal>, line: string)
    requires Table(bw, aw, line).Ok?
    ensures StationList(line).Some?
    ensures KeySet(GroupSum(ByStop(bw))) == KeySet(GroupSum(ByStop(aw)))
    ensures !HasZeroBefore(WithTotal(MeanRows(bw, aw), line))
    ensures Table(bw, aw, line).value == Reindex(DeriveAll(WithTotal(MeanRows(bw, aw), line)), StationList(line).value, line)
  {
  }

  /**
   * The display step, one listed station at a time: a blank row when no station row has its
   * name, and otherwise a station row with that name.
   */
  lemma ReindexRow(derived: seq<SummaryRow>, stations: seq<string>, line: string, i: int)
    requires |derived| >= 1 && 0 <= i < |stations|
    ensures var t := Reindex(derived, stations, line);
      || (t[i] == Placeholder(stations[i]) && forall j :: 0 <= j < |derived| - 1 ==> derived[j].name != stations[i])
      || (exists j :: 0 <= j < |derived| - 1 && derived[j].name == stations[i] && t[i] == derived[j])
  {
    var stationRows := derived[..|derived| - 1];
    LookupSpec(stationRows, stations[i]);
    if Lookup(stationRows, stations[i]).None? {
      forall j | 0 <= j < |derived| - 1 ensures derived[j].name != stations[i] {
        assert stationRows[j] == derived[j];
      }
    } else {
      var j :| 0 <= j < |stationRows| && stationRows[j].name == stations[i]
        && Lookup(stationRows, stations[i]).value == stationRows[j];
      assert stationRows[j] == derived[j];
    }
  }

  /** A derived station row is filled and holds its station's rounded means. */
  lemma DerivedStationRow(bw: seq<DailyTotal>, aw: seq<DailyTotal>, line: string, j: int)
    requires KeySet(GroupSum(ByStop(bw))) == KeySet(GroupSum(ByStop(aw)))
    requires !HasZeroBefore(WithTotal(MeanRows(bw, aw), line))
    requires 0 <= j < |MeanRows(bw, aw)|
    ensures var rows := MeanRows(bw, aw);
      var d := DeriveAll(WithTotal(rows, line));
      && |d| == |rows| + 1
      && d[j].Filled?
      && d[j].name == rows[j].name
      && d[j].before == StationMean(bw, rows[j].name)
      && d[j].after == StationMean(aw, rows[j].name)
  {
    var rows := MeanRows(bw, aw);
    var full := WithTotal(rows, line);
    assert full[j] == rows[j];
    MeanRowsFacts(bw, aw);
  }

  /**
   * The displayed rows of a computed table: one per listed station in list order, then the
   * total row under the line's total label; a station's row is filled exactly when the
   * station has data, and then holds its rounded means before and after the closure.
   */
  lemma TableStations(bw: seq<DailyTotal>, aw: seq<DailyTotal>, line: string)
    requires Table(bw, aw, line).Ok?
    ensures StationList(line).Some?
    ensures var t := Table(bw, aw, line).value;
      var stations := StationList(line).value;
      && |t| == |stations| + 1
      && t[|stations|].name == TotalLabel(line)
      && forall i :: 0 <= i < |stations| ==>
           && t[i].name == stations[i]
           && (t[i].Filled? <==> stations[i] in Stops(bw))
           && (t[i].Filled? <==> stations[i] in Stops(aw))
           && (t[i].Filled? ==> t[i].before == StationMean(bw, stations[i]) && t[i].after == StationMean(aw, stations[i]))
  {
    TableOk(bw, aw, line);
    MeanRowsFacts(bw, aw);
    var rows := MeanRows(bw, aw);
    var d := DeriveAll(WithTotal(rows, line));
    var stations := StationList(line).value;
    var t := Reindex(d, stations, line);
    assert d[|d| - 1].name == TotalLabel(line);
    forall i | 0 <= i < |stations|
      ensures t[i].name == stations[i]
      ensures t[i].Filled? <==> stations[i] in Stops(bw)
      ensures t[i].Filled? ==> t[i].before == StationMean(bw, stations[i]) && t[i].after == StationMean(aw, stations[i])
    {
      ReindexRow(d, stations, line, i);
      if exists j :: 0 <= j < |d| - 1 && d[j].name == stations[i] && t[i] == d[j] {
        var j :| 0 <= j < |d| - 1 && d[j].name == stations[i] && t[i] == d[j];
        DerivedStationRow(bw, aw, line, j);
        assert MeanName(rows[j]) in NamesBy(rows, MeanName);
      } else if stations[i] in Stops(bw) {
        var j :| 0 <= j < |rows| && MeanName(rows[j]) == stations[i];
        DerivedStationRow(bw, aw, line, j);
      }
    }
  }

  /**
   * The total row is displayed exactly when the label's second word is "Line"; it then holds
   * the sums of the rounded means of every station with data, listed or not.
   */
  lemma TableTotal(bw: seq<DailyTotal>, aw: seq<DailyTotal>, line: string)
    requires Table(bw, aw, line).Ok?
    ensures StationList(line).Some?
    ensures var t := Table(bw, aw, line).value;
      var n := |StationList(line).value|;
      && |t| == n + 1
      && (t[n].Filled? <==> TotalRowKept(line))
      && (t[n].Filled? ==> t[n].before == SetSum(Stops(bw), MeanOf(bw)) && t[n].after == SetSum(Stops(aw), MeanOf(aw)))
  {
    TableOk(bw, aw, line);
    MeanRowsFacts(bw, aw);
    var full := WithTotal(MeanRows(bw, aw), line);
    assert DeriveAll(full)[|full| - 1] == Derive(full[|full| - 1]);
  }

  /**
   * Every filled row has a non-zero Before value, its Differential is After minus Before,
   * and its "% Change" cell reads back as 100 * Differential / Before rounded half to even.
   */
  lemma TableDerived(bw: seq<DailyTotal>, aw: seq<DailyTotal>, line: string)
    requires Table(bw, aw, line).Ok?
    ensures forall r :: r in Table(bw, aw, line).value && r.Filled? ==>
      && r.before != 0
      && r.differential == r.after - r.before
      && ParsePercent(r.percentChange).Some?
      && IsRoundHalfEven(100 * r.differential, r.before, ParsePercent(r.percentChange).value)
  {
    TableOk(bw, aw, line);
    var full := WithTotal(MeanRows(bw, aw), line);
    var d := DeriveAll(full);
    var stations := StationList(line).value;
    var t := Reindex(d, stations, line);
    forall r | r in t && r.Filled?
      ensures exists j :: 0 <= j < |full| && r == Derive(full[j])
    {
      var i :| 0 <= i < |t| && t[i] == r;
      if i < |stations| {
        ReindexRow(d, stations, line, i);
        var j :| 0 <= j < |d| - 1 && d[j].name == stations[i] && t[i] == d[j];
        assert r == Derive(full[j]);
      } else {
        assert r == Derive(full[|full| - 1]);
      }
    }
  }

  /**
   * Each displayed station row, blank or not, holds in its Before and After columns the
   * station's rounded means (0 for a station without data).
   */
  lemma ShownColumns(bw: seq<DailyTotal>, aw: seq<DailyTotal>, line: string)
    requires Table(bw, aw, line).Ok?
    ensures StationList(line).Some?
    ensures var t := Table(bw, aw, line).value;
      var stations := StationList(line).value;
      && |t| == |stations| + 1
      && forall i :: 0 <= i < |stations| ==>
           && RowName(t[i]) == stations[i]
           && BeforeOf(t[i]) == MeanOf(bw)(stations[i])
           && AfterOf(t[i]) == MeanOf(aw)(stations[i])
           && DifferentialOf(t[i]) == AfterOf(t[i]) - BeforeOf(t[i])
  {
    var t := Table(bw, aw, line).value;
    var stations := StationList(line).value;
    TableStations(bw, aw, line);
    TableDerived(bw, aw, line);
    forall i | 0 <= i < |stations|
      ensures BeforeOf(t[i]) == MeanOf(bw)(stations[i])
      ensures AfterOf(t[i]) == MeanOf(aw)(stations[i])
      ensures DifferentialOf(t[i]) == AfterOf(t[i]) - BeforeOf(t[i])
    {
      assert t[i] in t;
      if !t[i].Filled? {
        StationMeanAbsent(bw, stations[i]);
        StationMeanAbsent(aw, stations[i]);
      }
    }
  }

  /**
   * Rows named after a distinct list of stations that covers every station with data, each
   * holding its station's means: their columns add up to the set sums of the means.
   */
  lemma ShownSums(shown: seq<SummaryRow>, stations: seq<string>, bw: seq<DailyTotal>, aw: seq<DailyTotal>)
    requires |shown| == |stations|
    requires forall i, j :: 0 <= i < j < |stations| ==> stations[i] != stations[j]
    requires Stops(bw) == Stops(aw) && Stops(bw) <= AsSet(stations)
    requires forall i :: 0 <= i < |shown| ==>
      && RowName(shown[i]) == stations[i]
      && BeforeOf(shown[i]) == MeanOf(bw)(stations[i])
      && AfterOf(shown[i]) == MeanOf(aw)(stations[i])
      && DifferentialOf(shown[i]) == AfterOf(shown[i]) - BeforeOf(shown[i])
    ensures SumBy(shown, BeforeOf) == SetSum(Stops(bw), MeanOf(bw))
    ensures SumBy(shown, AfterOf) == SetSum(Stops(aw), MeanOf(aw))
    ensures SumBy(shown, DifferentialOf) == SumBy(shown, AfterOf) - SumBy(shown, BeforeOf)
  {
    assert NamesBy(shown, RowName) == AsSet(stations) by {
      forall s | s in AsSet(stations) ensures s in NamesBy(shown, RowName) {
        var i :| 0 <= i < |stations| && stations[i] == s;
        assert RowName(shown[i]) == s;
      }
    }
    forall s | s in AsSet(stations) && s !in Stops(bw) ensures MeanOf(bw)(s) == 0 && MeanOf(aw)(s) == 0 {
      StationMeanAbsent(bw, s);
      StationMeanAbsent(aw, s);
    }
    SumAsSetSum(shown, RowName, BeforeOf, MeanOf(bw));
    SumAsSetSum(shown, RowName, AfterOf, MeanOf(aw));
    SetSumZeroOutside(Stops(bw), AsSet(stations), MeanOf(bw));
    SetSumZeroOutside(Stops(aw), AsSet(stations), MeanOf(aw));
    SumByDifference(shown, DifferentialOf, AfterOf, BeforeOf);
  }

  /** The displayed station rows' columns add up to the set sums of the station means. */
  lemma ShownColumnSums(bw: seq<DailyTotal>, aw: seq<DailyTotal>, line: string)
    requires Table(bw, aw, line).Ok?
    requires StationList(line).Some? && Stops(bw) <= AsSet(StationList(line).value)
    ensures var t := Table(bw, aw, line).value;
      var n := |StationList(line).value|;
      && |t| == n + 1
      && SumBy(t[..n], BeforeOf) == SetSum(Stops(bw), MeanOf(bw))
      && SumBy(t[..n], AfterOf) == SetSum(Stops(aw), MeanOf(aw))
      && SumBy(t[..n], DifferentialOf) == SumBy(t[..n], AfterOf) - SumBy(t[..n], BeforeOf)
  {
    var t := Table(bw, aw, line).value;
    var stations := StationList(line).value;
    var n := |stations|;
    var shown := t[..n];
    ShownColumns(bw, aw, line);
    TableOk(bw, aw, line);
    MeanRowsFacts(bw, aw);
    forall i | 0 <= i < n ensures shown[i] == t[i] { }
    ShownSums(shown, stations, bw, aw);
  }

  /** The displayed total row, when kept, holds the set sums and its own difference. */
  lemma TotalRowValues(bw: seq<DailyTotal>, aw: seq<DailyTotal>, line: string)
    requires Table(bw, aw, line).Ok?
    requires TotalRowKept(line)
    ensures StationList(line).Some?
    ensures var t := Table(bw, aw, line).value;
      var n := |StationList(line).value|;
      && |t| == n + 1
      && t[n].Filled?
      && t[n].before == SetSum(Stops(bw), MeanOf(bw))
      && t[n].after == SetSum(Stops(aw), MeanOf(aw))
      && t[n].differential == t[n].after - t[n].before
  {
    TableTotal(bw, aw, line);
    TableDerived(bw, aw, line);
    var t := Table(bw, aw, line).value;
    assert t[|t| - 1] in t;
  }

  /**
   * When every station with data is listed, the displayed total row holds the sums of the
   * displayed station rows' Before, After and Differential columns.
   */
  lemma TotalIsColumnSum(bw: seq<DailyTotal>, aw: seq<DailyTotal>, line: string)
    requires Table(bw, aw, line).Ok?
    requires TotalRowKept(line)
    requires StationList(line).Some? && Stops(bw) <= AsSet(StationList(line).value)
    ensures var t := Table(bw, aw, line).value;
      var n := |StationList(line).value|;
      && |t| == n + 1
      && t[n].Filled?
      && t[n].before == SumBy(t[..n], BeforeOf)
      && t[n].after == SumBy(t[..n], AfterOf)
      && t[n].differential == SumBy(t[..n], DifferentialOf)
  {
    ShownColumnSums(bw, aw, line);
    TotalRowValues(bw, aw, line);
  }

  /**
   * The labels the analysis runs with select a station list and keep their total row; a
   * label whose second word runs on past "Line" loses it.
   */
  lemma AnalysisLabels()
    ensures StationList("Orange Line") == Some(OrangeStations) && TotalRowKept("Orange Line")
    ensures StationList("Blue Line") == Some(BlueStations) && TotalRowKept("Blue Line")
    ensures StationList("Orange Line (weekdays)") == Some(OrangeStations) && TotalRowKept("Orange Line (weekdays)")
    ensures StationList("Blue Line (weekdays)") == Some(BlueStations) && TotalRowKept("Blue Line (weekdays)")
    ensures StationList("Orange Line(weekdays)") == Some(OrangeStations) && !TotalRowKept("Orange Line(weekdays)")
  {
    assert OrangeLine <= "Orange Line (weekdays)";
    assert "Orange Line (weekdays)"[11] == ' ';
    assert "Blue Line (weekdays)"[0] != OrangeLine[0];
    assert "Blue Line"[0] != OrangeLine[0];
    assert BlueLine <= "Blue Line (weekdays)";
    assert "Blue Line (weekdays)"[9] == ' ';
    assert OrangeLine <= "Orange Line(weekdays)";
    assert "Orange Line(weekdays)"[11] == '(';
  }

  /**
   * Two rows worked through: a drop from 200 to 150 is "-25%"; a rise from 8 to 9 is
   * 12.5 percent, which rounds to the even 12.
   */
  lemma DeriveExamples()
    ensures Derive(MeanRow("Wonderland", 200, 150)) == Filled("Wonderland", 200, 150, -50, "-25%")
    ensures Derive(MeanRow("Aquarium", 8, 9)) == Filled("Aquarium", 8, 9, 1, "12%")
  {
    RoundHalfEvenUnique(-5000, 200, RoundHalfEven(-5000, 200), -25);
    RoundHalfEvenUnique(100, 8, RoundHalfEven(100, 8), 12);
    assert NatText(25) == "25";
    assert NatText(12) == "12";
  }

  /** The two windows of the closure never share a row. */
  lemma ClosureWindowsShareNoRow(daily: seq<DailyTotal>)
    ensures forall x :: x in WindowRows(daily, BeforeClosure) ==> x !in WindowRows(daily, AfterClosure)
  {
    ClosureWindowsAdjacent();
  }
}
