/**
 * The record filter (`get_line_entries`): relabels the records of the stops a line shares
 * with another line, keeps only the northern stations for the Orange Line, optionally keeps
 * weekdays only, and returns the records labelled with the line.
 */
module RecordFilter {
  import opened Common
  import opened Config

  /** A record of a shared stop takes the chosen line's label; other records are unchanged. */
  function Relabeled(x: Record, stops: seq<string>, line: string): Record
  {
    if x.stop in stops then x.(route := line) else x
  }

  /** Relabels every record, position by position. */
  function Relabel(rs: seq<Record>, stops: seq<string>, line: string): (r: seq<Record>)
    ensures |r| == |rs|
  {
    seq(|rs|, i requires 0 <= i < |rs| => Relabeled(rs[i], stops, line))
  }

  /** The records that satisfy p, each once and in their order (a boolean-mask `df.loc[...]`). */
  function Keep(rs: seq<Record>, p: Record -> bool): (r: seq<Record>)
    ensures forall x :: x in r <==> x in rs && p(x)
    ensures forall x :: multiset(r)[x] == if p(x) then multiset(rs)[x] else 0
  {
    if rs == [] then []
    else
      var last := rs[|rs| - 1];
      assert rs == rs[..|rs| - 1] + [last];
      assert multiset(rs) == multiset(rs[..|rs| - 1]) + multiset{last};
      Keep(rs[..|rs| - 1], p) + (if p(last) then [last] else [])
  }

  /** An Orange Line station north of (and including) State Street. */
  predicate IsNorthern(x: Record)
  {
    x.stop in OrangeStations
  }

  predicate IsWeekday(x: Record)
  {
    x.day == "Weekday"
  }

  /** The selection of the records labelled with the line. */
  function RouteIs(line: string): Record -> bool
  {
    (x: Record) => x.route == line
  }

  /** The weekday selection (when asked for) followed by the selection of the line's label. */
  function SelectLine(rs: seq<Record>, line: string, weekdaysOnly: bool): seq<Record>
  {
    Keep(if weekdaysOnly then Keep(rs, IsWeekday) else rs, RouteIs(line))
  }

  /** The stops a line shares with another line, chosen by exact label as get_line_entries does. */
  function SharedStops(line: string): (r: Option<seq<string>>)
    ensures r.Some? <==> line == BlueLine || line == OrangeLine
    ensures r.Some? ==> StationList(line).Some? && forall s :: s in r.value ==> s in StationList(line).value
  {
    if line == BlueLine then Some(BlueSharedStops)
    else if line == OrangeLine then Some(OrangeSharedStops)
    else None
  }

  /** What get_line_entries returns for the records `rs`. An unknown line label is an error. */
  function LineEntries(rs: seq<Record>, line: string, weekdaysOnly: bool): (r: Result<seq<Record>>)
    ensures r.Err? <==> SharedStops(line) == None
    ensures r.Err? ==> r.error == UnknownLine(line)
    ensures r.Ok? ==> forall x :: x in r.value ==> x.route == line
    ensures r.Ok? && weekdaysOnly ==> forall x :: x in r.value ==> IsWeekday(x)
  {
    if line == BlueLine then
      Ok(SelectLine(Relabel(rs, BlueSharedStops, line), line, weekdaysOnly))
    else if line == OrangeLine then
      var north := Keep(rs, IsNorthern);
      Ok(SelectLine(Relabel(north, OrangeSharedStops, line), line, weekdaysOnly))
    else
      Err(UnknownLine(line))
  }

  /**
   * The input records the filter keeps, stated without the filter's steps: for the Orange
   * Line a northern station; a shared stop of the line or a record already labelled with
   * it; a weekday when only weekdays are asked for.
   */
  predicate Retained(y: Record, line: string, weekdaysOnly: bool)
  {
    && SharedStops(line).Some?
    && (line == OrangeLine ==> y.stop in OrangeStations)
    && (y.stop in SharedStops(line).value || y.route == line)
    && (weekdaysOnly ==> IsWeekday(y))
  }

  lemma RelabelMember(rs: seq<Record>, stops: seq<string>, line: string, x: Record)
    ensures x in Relabel(rs, stops, line) <==> exists y :: y in rs && x == Relabeled(y, stops, line)
  {
    var r := Relabel(rs, stops, line);
    if x in r {
      var i :| 0 <= i < |r| && r[i] == x;
      assert rs[i] in rs;
    }
    if exists y :: y in rs && x == Relabeled(y, stops, line) {
      var y :| y in rs && x == Relabeled(y, stops, line);
      var i :| 0 <= i < |rs| && rs[i] == y;
      assert r[i] == x;
    }
  }

  /**
   * Nothing is invented: every returned record is an input record that the filter retains,
   * with its route label replaced by the line and every other field unchanged.
   */
  lemma LineEntriesSound(rs: seq<Record>, line: string, weekdaysOnly: bool, x: Record)
    requires LineEntries(rs, line, weekdaysOnly).Ok?
    requires x in LineEntries(rs, line, weekdaysOnly).value
    ensures exists y :: y in rs && Retained(y, line, weekdaysOnly) && x == y.(route := line)
  {
    var stops := SharedStops(line).value;
    var base := if line == BlueLine then rs else Keep(rs, IsNorthern);
    var rel := Relabel(base, stops, line);
    assert x in rel;
    RelabelMember(base, stops, line, x);
    var y :| y in base && x == Relabeled(y, stops, line);
    assert y in rs;
    assert x.route == line;
    assert x == y.(route := line);
    assert Retained(y, line, weekdaysOnly);
  }

  /** Nothing retained is lost: every retained input record comes out, relabelled. */
  lemma LineEntriesComplete(rs: seq<Record>, line: string, weekdaysOnly: bool, y: Record)
    requires SharedStops(line).Some?
    requires y in rs && Retained(y, line, weekdaysOnly)
    ensures y.(route := line) in LineEntries(rs, line, weekdaysOnly).value
  {
    var stops := SharedStops(line).value;
    var base := if line == BlueLine then rs else Keep(rs, IsNorthern);
    assert y in base;
    var x := Relabeled(y, stops, line);
    RelabelMember(base, stops, line, x);
    assert x == y.(route := line);
  }

  /**
   * A record at one of the line's shared stops is kept whatever its original label (on a
   * weekday, when only weekdays are asked for).
   */
  lemma SharedStopRetained(rs: seq<Record>, line: string, weekdaysOnly: bool, y: Record)
    requires SharedStops(line).Some?
    requires y in rs && y.stop in SharedStops(line).value
    requires weekdaysOnly ==> IsWeekday(y)
    ensures y.(route := line) in LineEntries(rs, line, weekdaysOnly).value
  {
    LineEntriesComplete(rs, line, weekdaysOnly, y);
  }

  /** Every record of the Orange Line's output is at one of its northern stations. */
  lemma OrangeStopsOnly(rs: seq<Record>, weekdaysOnly: bool, x: Record)
    requires x in LineEntries(rs, OrangeLine, weekdaysOnly).value
    ensures x.stop in OrangeStations
  {
    LineEntriesSound(rs, OrangeLine, weekdaysOnly, x);
  }

  lemma KeepSnoc(rs: seq<Record>, x: Record, p: Record -> bool)
    ensures Keep(rs + [x], p) == Keep(rs, p) + (if p(x) then [x] else [])
  {
    assert (rs + [x])[..|rs|] == rs;
  }

  lemma {:induction false} KeepKeep(rs: seq<Record>, p: Record -> bool, q: Record -> bool)
    ensures Keep(Keep(rs, p), q) == Keep(Keep(rs, q), p)
  {
    if rs != [] {
      var pre := rs[..|rs| - 1];
      var last := rs[|rs| - 1];
      KeepKeep(pre, p, q);
      var kp := Keep(pre, p);
      var kq := Keep(pre, q);
      assert Keep(rs, p) == kp + (if p(last) then [last] else []);
      assert Keep(rs, q) == kq + (if q(last) then [last] else []);
      if p(last) {
        KeepSnoc(kp, last, q);
      } else {
        assert Keep(rs, p) == kp;
      }
      if q(last) {
        KeepSnoc(kq, last, p);
      } else {
        assert Keep(rs, q) == kq;
      }
    }
  }

  /**
   * The day type plays no other part: the weekdays-only output is the full output with its
   * non-weekday records removed, in the same order.
   */
  lemma WeekdaysOnlyIsRestriction(rs: seq<Record>, line: string)
    requires SharedStops(line).Some?
    ensures LineEntries(rs, line, true).value == Keep(LineEntries(rs, line, false).value, IsWeekday)
  {
    var stops := SharedStops(line).value;
    var base := if line == BlueLine then rs else Keep(rs, IsNorthern);
    KeepKeep(Relabel(base, stops, line), IsWeekday, RouteIs(line));
  }

  /** The retained records, as a mask. */
  function RetainedBy(line: string, weekdaysOnly: bool): Record -> bool
  {
    (y: Record) => Retained(y, line, weekdaysOnly)
  }

  /** Every record labelled with the line, position by position. */
  function Stamp(rs: seq<Record>, line: string): (r: seq<Record>)
    ensures |r| == |rs|
  {
    seq(|rs|, i requires 0 <= i < |rs| => rs[i].(route := line))
  }

  lemma RelabelSnoc(rs: seq<Record>, x: Record, stops: seq<string>, line: string)
    ensures Relabel(rs + [x], stops, line) == Relabel(rs, stops, line) + [Relabeled(x, stops, line)]
  {
  }

  lemma StampSnoc(rs: seq<Record>, x: Record, line: string)
    ensures Stamp(rs + [x], line) == Stamp(rs, line) + [x.(route := line)]
  {
  }

  lemma SelectLineSnoc(rs: seq<Record>, x: Record, line: string, weekdaysOnly: bool)
    ensures SelectLine(rs + [x], line, weekdaysOnly)
      == SelectLine(rs, line, weekdaysOnly) + (if (weekdaysOnly ==> IsWeekday(x)) && x.route == line then [x] else [])
  {
    if weekdaysOnly {
      KeepSnoc(rs, x, IsWeekday);
      if IsWeekday(x) {
        KeepSnoc(Keep(rs, IsWeekday), x, RouteIs(line));
      } else {
        assert Keep(rs + [x], IsWeekday) == Keep(rs, IsWeekday);
      }
    } else {
      KeepSnoc(rs, x, RouteIs(line));
    }
  }

  /** Relabelling and selecting one more record adds it, relabelled, when it is selected. */
  lemma RelabelSelectSnoc(rs: seq<Record>, x: Record, stops: seq<string>, line: string, weekdaysOnly: bool)
    ensures SelectLine(Relabel(rs + [x], stops, line), line, weekdaysOnly)
      == SelectLine(Relabel(rs, stops, line), line, weekdaysOnly)
         + (if (x.stop in stops || x.route == line) && (weekdaysOnly ==> IsWeekday(x)) then [x.(route := line)] else [])
  {
    var z := Relabeled(x, stops, line);
    RelabelSnoc(rs, x, stops, line);
    SelectLineSnoc(Relabel(rs, stops, line), z, line, weekdaysOnly);
    assert (z.route == line && (weekdaysOnly ==> IsWeekday(z))) <==>
      (x.stop in stops || x.route == line) && (weekdaysOnly ==> IsWeekday(x));
    assert z.route == line ==> z == x.(route := line);
  }

  /** One more input record adds it, relabelled, exactly when the filter retains it. */
  lemma LineEntriesSnoc(rs: seq<Record>, x: Record, line: string, weekdaysOnly: bool)
    requires SharedStops(line).Some?
    ensures LineEntries(rs + [x], line, weekdaysOnly).value
      == LineEntries(rs, line, weekdaysOnly).value + (if Retained(x, line, weekdaysOnly) then [x.(route := line)] else [])
  {
    var stops := SharedStops(line).value;
    if line == BlueLine {
      RelabelSelectSnoc(rs, x, stops, line, weekdaysOnly);
    } else {
      var north := Keep(rs, IsNorthern);
      KeepSnoc(rs, x, IsNorthern);
      if IsNorthern(x) {
        RelabelSelectSnoc(north, x, stops, line, weekdaysOnly);
      } else {
        assert Keep(rs + [x], IsNorthern) == north;
      }
    }
  }

  /**
   * The output, exactly: the retained input records, each once and in their input order,
   * relabelled with the line (a boolean mask keeps every selected row once, in order).
   */
  lemma {:induction false} LineEntriesExact(rs: seq<Record>, line: string, weekdaysOnly: bool)
    requires SharedStops(line).Some?
    ensures LineEntries(rs, line, weekdaysOnly).value == Stamp(Keep(rs, RetainedBy(line, weekdaysOnly)), line)
  {
    if rs != [] {
      var pre := rs[..|rs| - 1];
      var last := rs[|rs| - 1];
      assert rs == pre + [last];
      LineEntriesExact(pre, line, weekdaysOnly);
      LineEntriesSnoc(pre, last, line, weekdaysOnly);
      KeepSnoc(pre, last, RetainedBy(line, weekdaysOnly));
      StampSnoc(Keep(pre, RetainedBy(line, weekdaysOnly)), last, line);
    }
  }

  // ---------------------------------------------------------------------------
  // The in-place steps
  // ---------------------------------------------------------------------------

  /** Assigns the line's label to the records of the shared stops, in place. */
  method RelabelInPlace(a: array<Record>, stops: seq<string>, line: string)
    modifies a
    ensures a[..] == Relabel(old(a[..]), stops, line)
  {
    var i := 0;
    while i < a.Length
      invariant 0 <= i <= a.Length
      invariant forall j :: 0 <= j < i ==> a[j] == Relabeled(old(a[j]), stops, line)
      invariant forall j :: i <= j < a.Length ==> a[j] == old(a[j])
    {
      if a[i].stop in stops {
        a[i] := a[i].(route := line);
      }
      i := i + 1;
    }
  }

  /**
   * get_line_entries on a table held in an array. For the Blue Line the caller's table is
   * relabelled in place; for the Orange Line the relabelling happens on the filtered copy
   * and the caller's table is left as it was; an unknown line changes nothing.
   */
  method GetLineEntries(df: array<Record>, line: string, weekdaysOnly: bool)
    returns (r: Result<seq<Record>>)
    modifies df
    ensures r == LineEntries(old(df[..]), line, weekdaysOnly)
    ensures df[..] == if line == BlueLine then Relabel(old(df[..]), BlueSharedStops, line) else old(df[..])
  {
    if line == BlueLine {
      RelabelInPlace(df, BlueSharedStops, line);
      r := Ok(SelectLine(df[..], line, weekdaysOnly));
    } else if line == OrangeLine {
      var north := Keep(df[..], IsNorthern);
      var copy := new Record[|north|](i requires 0 <= i < |north| => north[i]);
      assert copy[..] == north;
      RelabelInPlace(copy, OrangeSharedStops, line);
      r := Ok(SelectLine(copy[..], line, weekdaysOnly));
    } else {
      r := Err(UnknownLine(line));
    }
  }
}
