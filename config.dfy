/**
 * The fixed configuration of the Sumner Tunnel analysis: the two date windows around the
 * closure, the stations of each line and the stops each line shares with another line.
 */
module Config {
  import opened Common

  const BlueLine: string := "Blue Line"
  const OrangeLine: string := "Orange Line"

  /** Orange Line stations north of (and including) State Street, in display order. */
  const OrangeStations: seq<string> :=
    ["Oak Grove", "Malden Center", "Wellington", "Assembly", "Sullivan Square",
     "Community College", "North Station", "Haymarket", "State Street"]

  /** Blue Line stations, in display order. */
  const BlueStations: seq<string> :=
    ["Wonderland", "Revere Beach", "Beachmont", "Suffolk Downs", "Orient Heights",
     "Wood Island", "Airport", "Maverick", "Aquarium", "State Street",
     "Government Center", "Bowdoin"]

  /** Stops whose records are relabelled to the line that is being cleaned. */
  const BlueSharedStops: seq<string> := ["Government Center", "State Street"]
  const OrangeSharedStops: seq<string> := ["Haymarket", "North Station", "State Street"]

  /** 2023-06-01 .. 2023-07-04, before the closure. */
  const BeforeClosure: Window := Window(19509, 19542)
  /** 2023-07-05 .. 2023-09-01, after the closure. */
  const AfterClosure: Window := Window(19543, 19601)

  /** The two windows are adjacent and share no day; they cover 34 and 59 days. */
  lemma ClosureWindowsAdjacent()
    ensures BeforeClosure.end + 1 == AfterClosure.start
    ensures forall d :: !(InWindow(d, BeforeClosure) && InWindow(d, AfterClosure))
    ensures BeforeClosure.end - BeforeClosure.start + 1 == 34
    ensures AfterClosure.end - AfterClosure.start + 1 == 59
  {
  }

  /**
   * The station list chosen by the label's prefix, as the completeness check and the
   * station statistics choose it ("Orange Line (weekdays)" selects the Orange Line list).
   * No station is listed twice in either list.
   */
  function StationList(line: string): (r: Option<seq<string>>)
    ensures r.None? <==> !(OrangeLine <= line) && !(BlueLine <= line)
    ensures r.Some? ==> |r.value| > 0
    ensures r.Some? ==> forall i, j :: 0 <= i < j < |r.value| ==> r.value[i] != r.value[j]
  {
    if OrangeLine <= line then Some(OrangeStations)
    else if BlueLine <= line then Some(BlueStations)
    else None
  }

  /** The label of the total row as the reindex expects it. */
  function TotalLabel(line: string): string
  {
    if OrangeLine <= line then "ORANGE LINE TOTAL" else "BLUE LINE TOTAL"
  }
}
