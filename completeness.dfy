/**
 * The completeness check (`check_missing`): the after-closure dates on which fewer stations
 * reported than the line has, each with the set of its stations that did not report.
 */
module Completeness {
  import opened Common
  import opened Config
  import opened Grouping

  /** A date with missing data and the stations that have no row on it. */
  datatype MissingDay = MissingDay(date: int, missing: set<string>)

  function AsSet(stations: seq<string>): set<string>
  {
    set s | s in stations
  }

  /** The stops that have a row on day d. */
  function StopsOn(after: seq<DailyTotal>, d: int): set<string>
  {
    set x | x in after && x.date == d :: x.stop
  }

  /** The dates whose row count is below n, in the order of the counts. */
  function LowDates(dateCounts: seq<Group<int>>, n: nat): seq<int>
  {
    if dateCounts == [] then []
    else (if dateCounts[0].count < n then [dateCounts[0].key] else []) + LowDates(dateCounts[1..], n)
  }

  /** What check_missing reports for the after-window rows of a line. */
  function MissingReport(after: seq<DailyTotal>, line: string): (r: seq<MissingDay>)
    ensures StationList(line).None? ==> r == []
    ensures StationList(line).Some? ==> forall m :: m in r ==> m.missing <= AsSet(StationList(line).value)
  {
    match StationList(line)
    case None => []
    case Some(stations) =>
      var low := LowDates(GroupSum(ByDate(after)), |stations|);
      seq(|low|, j requires 0 <= j < |low| => MissingDay(low[j], AsSet(stations) - StopsOn(after, low[j])))
  }

  /**
   * check_missing: counts the rows of each date, picks the dates below the number of the
   * line's stations and, date by date, collects the stations without a row.
   */
  method CheckMissing(after: seq<DailyTotal>, line: string) returns (report: seq<MissingDay>)
    ensures report == MissingReport(after, line)
  {
    match StationList(line)
    case None =>
      report := [];
    case Some(stations) =>
      var dateCounts := GroupSum(ByDate(after));
      var datesMissing := LowDates(dateCounts, |stations|);
      report := [];
      for i := 0 to |datesMissing|
        invariant |report| == i
        invariant forall j :: 0 <= j < i ==>
          report[j] == MissingDay(datesMissing[j], AsSet(stations) - StopsOn(after, datesMissing[j]))
      {
        var date := datesMissing[i];
        var current := WindowRows(after, Window(date, date));
        var reported := set x | x in current :: x.stop;
        assert reported == StopsOn(after, date);
        report := report + [MissingDay(date, AsSet(stations) - reported)];
      }
  }

  // ---------------------------------------------------------------------------
  // Properties
  // ---------------------------------------------------------------------------

  lemma {:induction false} LowDatesMember(dateCounts: seq<Group<int>>, n: nat, d: int)
    ensures d in LowDates(dateCounts, n) <==> exists g :: g in dateCounts && g.key == d && g.count < n
  {
    if dateCounts != [] {
      LowDatesMember(dateCounts[1..], n, d);
      if exists g :: g in dateCounts && g.key == d && g.count < n {
        var g :| g in dateCounts && g.key == d && g.count < n;
        if g != dateCounts[0] {
          assert g in dateCounts[1..];
        }
      }
    }
  }

  lemma {:induction false} LowDatesDistinct(dateCounts: seq<Group<int>>, n: nat)
    requires DistinctKeys(dateCounts)
    ensures forall i, j :: 0 <= i < j < |LowDates(dateCounts, n)| ==>
      LowDates(dateCounts, n)[i] != LowDates(dateCounts, n)[j]
  {
    if dateCounts != [] {
      var rest := LowDates(dateCounts[1..], n);
      LowDatesDistinct(dateCounts[1..], n);
      if dateCounts[0].count < n {
        forall j | 0 <= j < |rest| ensures rest[j] != dateCounts[0].key {
          LowDatesMember(dateCounts[1..], n, rest[j]);
          var g :| g in dateCounts[1..] && g.key == rest[j] && g.count < n;
          assert g.key in KeySet(dateCounts[1..]);
        }
      }
    }
  }

  /**
   * A date is reported exactly when it occurs in the after-window rows and has fewer rows
   * than the line has stations; its missing set is the line's stations without a row on
   * it; no date is reported twice. A line label with no station list reports nothing.
   */
  lemma MissingReportSpec(after: seq<DailyTotal>, line: string)
    ensures StationList(line) == None ==> MissingReport(after, line) == []
    ensures StationList(line).Some? ==> forall d ::
      (exists m :: m in MissingReport(after, line) && m.date == d) <==>
      d in DatesOf(after) && CountOf(ByDate(after), d) < |StationList(line).value|
    ensures StationList(line).Some? ==> forall m :: m in MissingReport(after, line) ==>
      m.missing == AsSet(StationList(line).value) - StopsOn(after, m.date)
    ensures forall i, j :: 0 <= i < j < |MissingReport(after, line)| ==>
      MissingReport(after, line)[i].date != MissingReport(after, line)[j].date
  {
    if StationList(line).Some? {
      var stations := StationList(line).value;
      var n := |stations|;
      var counts := GroupSum(ByDate(after));
      var low := LowDates(counts, n);
      var report := MissingReport(after, line);
      ByDateKeys(after);
      LowDatesDistinct(counts, n);
      forall d ensures (exists m :: m in report && m.date == d) <==>
        d in DatesOf(after) && CountOf(ByDate(after), d) < n
      {
        LowDatesMember(counts, n, d);
        if exists m :: m in report && m.date == d {
          var m :| m in report && m.date == d;
          var i :| 0 <= i < |report| && report[i] == m;
          assert low[i] == d;
          var g :| g in counts && g.key == d && g.count < n;
          GroupSumMember(ByDate(after), g);
          assert d in KeySet(counts);
        }
        if d in DatesOf(after) && CountOf(ByDate(after), d) < n {
          assert d in KeySet(counts);
          var g :| g in counts && g.key == d;
          GroupSumMember(ByDate(after), g);
          var i :| 0 <= i < |low| && low[i] == d;
          assert report[i] in report;
        }
      }
    }
  }

  lemma {:induction false} LowDatesNone(dateCounts: seq<Group<int>>, n: nat)
    requires forall g :: g in dateCounts ==> g.count >= n
    ensures LowDates(dateCounts, n) == []
  {
    if dateCounts != [] {
      assert dateCounts[0] in dateCounts;
      LowDatesNone(dateCounts[1..], n);
    }
  }

  /** When every date has at least as many rows as the line has stations, nothing is reported. */
  lemma NothingMissing(after: seq<DailyTotal>, line: string)
    requires StationList(line).Some?
    requires forall d :: d in DatesOf(after) ==> CountOf(ByDate(after), d) >= |StationList(line).value|
    ensures MissingReport(after, line) == []
  {
    var counts := GroupSum(ByDate(after));
    ByDateKeys(after);
    forall g | g in counts ensures g.count >= |StationList(line).value| {
      GroupSumMember(ByDate(after), g);
      assert g.key in KeySet(counts);
    }
    LowDatesNone(counts, |StationList(line).value|);
  }

  /** A day's distinct reporting stops are no more than its rows. */
  lemma {:induction false} StopsOnBound(after: seq<DailyTotal>, d: int)
    ensures |StopsOn(after, d)| <= CountOf(ByDate(after), d)
  {
    if after != [] {
      var pre := after[..|after| - 1];
      var last := after[|after| - 1];
      assert after == pre + [last];
      StopsOnBound(pre, d);
      assert ByDate(after)[..|after| - 1] == ByDate(pre);
      assert StopsOn(after, d) == StopsOn(pre, d) + (if last.date == d then {last.stop} else {});
    }
  }

  /** A list without repeats has as many members as entries. */
  lemma {:induction false} AsSetSize(stations: seq<string>)
    requires forall i, j :: 0 <= i < j < |stations| ==> stations[i] != stations[j]
    ensures |AsSet(stations)| == |stations|
  {
    if stations != [] {
      var pre := stations[..|stations| - 1];
      var last := stations[|stations| - 1];
      assert stations == pre + [last];
      AsSetSize(pre);
      assert AsSet(stations) == AsSet(pre) + {last};
      assert last !in AsSet(pre);
    }
  }

  /** Fewer members in `present` than in `all` leave some member of `all` out. */
  lemma DifferenceNonEmpty(all: set<string>, present: set<string>)
    requires |present| < |all|
    ensures all - present != {}
  {
    assert |present| == |all * present| + |present - all| by {
      assert (all * present) + (present - all) == present;
      assert (all * present) * (present - all) == {};
    }
    assert |all| == |all - present| + |all * present| by {
      assert (all - present) + (all * present) == all;
      assert (all - present) * (all * present) == {};
    }
  }

  /**
   * Every reported date really lacks a station: with fewer rows than the line has (distinct)
   * stations, at least one listed station has no row on that date.
   */
  lemma ReportedDatesLackAStation(after: seq<DailyTotal>, line: string)
    ensures forall m :: m in MissingReport(after, line) ==> m.missing != {}
  {
    if StationList(line).Some? {
      var stations := StationList(line).value;
      var all := AsSet(stations);
      AsSetSize(stations);
      forall m | m in MissingReport(after, line) ensures m.missing != {} {
        var d := m.date;
        assert m.missing == all - StopsOn(after, d) && CountOf(ByDate(after), d) < |stations| by {
          MissingReportSpec(after, line);
          assert m in MissingReport(after, line) && m.date == d;
        }
        StopsOnBound(after, d);
        DifferenceNonEmpty(all, StopsOn(after, d));
      }
    }
  }
}
