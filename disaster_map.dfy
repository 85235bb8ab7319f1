/**
 * The animated disaster map: the table of all years, a play/pause button that enables a timer
 * advancing a month slider, a blinking marker per city with one hover block per disaster row,
 * and a viewport that follows a selected city or keeps the user's pan and zoom.
 */
module DisasterMap {
  import opened Util
  import opened Records

  // ---------------------------------------------------------------- constants

  /** A map position; the coordinates are the fixed decimal constants of the city table. */
  datatype Coord = Coord(lat: real, lon: real)

  /** The cities that can be placed on the map. */
  const CityCoords: map<string, Coord> := map[
    "New York City" := Coord(40.71, -74.01),
    "San Francisco Bay Area" := Coord(37.77, -122.42),
    "Los Angeles" := Coord(34.05, -118.24),
    "Chicago" := Coord(41.88, -87.63),
    "Houston" := Coord(29.76, -95.36),
    "London" := Coord(51.50, -0.12),
    "Vancouver" := Coord(49.28, -123.12),
    "Toronto" := Coord(43.65, -79.38),
    "Tijuana" := Coord(32.51, -117.03),
    "Toulouse" := Coord(43.60, 1.44),
    "Paris" := Coord(48.85, 2.35),
    "Amsterdam" := Coord(52.37, 4.90),
    "Bern" := Coord(46.95, 7.44),
    "Zurich" := Coord(47.37, 8.54),
    "Istanbul" := Coord(41.01, 28.97),
    "Tel Aviv" := Coord(32.09, 34.78),
    "Stockholm" := Coord(59.33, 18.07),
    "Dubai" := Coord(25.20, 55.27),
    "Bangalore" := Coord(12.97, 77.59),
    "Mumbai" := Coord(19.07, 72.88),
    "Chennai" := Coord(13.08, 80.27),
    "Gurugram" := Coord(28.46, 77.03),
    "Delhi" := Coord(28.61, 77.21),
    "Ahmedabad" := Coord(23.03, 72.58),
    "Manila" := Coord(14.60, 120.98),
    "Singapore" := Coord(1.35, 103.82),
    "Tokyo" := Coord(35.68, 139.69),
    "Osaka" := Coord(34.69, 135.50),
    "Fukuoka" := Coord(33.59, 130.40),
    "Shanghai" := Coord(31.23, 121.47),
    "Hong Kong" := Coord(22.32, 114.17)
  ]

  /** The city filter value that means "every city". */
  const AllCities: string := "All"

  /** The year files tried are `range(FirstYear, EndYear)`. */
  const FirstYear: int := 2026
  const EndYear: int := 2031

  // ---------------------------------------------------------------- loading

  /** The text after the first dash, when there is one. */
  function AfterFirstDash(s: string): (r: Option<string>)
    ensures r.Some? <==> '-' in s
  {
    if |s| == 0 then None
    else if s[0] == '-' then Some(s[1..])
    else
      assert s == [s[0]] + s[1..];
      AfterFirstDash(s[1..])
  }

  /** The text before the first dash (all of it when there is none). */
  function BeforeDash(s: string): (r: string)
    ensures '-' !in r && r <= s
  {
    if |s| == 0 || s[0] == '-' then "" else [s[0]] + BeforeDash(s[1..])
  }

  /**
   * `s.split("-")[1]`: the second dash-separated field; None when `s` has no dash. When there is
   * one, `s` is the first field, a dash, the second field, and then either nothing or a dash.
   */
  function SecondField(s: string): (r: Option<string>)
    ensures r.Some? <==> '-' in s
    ensures r.Some? ==> '-' !in r.value
  {
    match AfterFirstDash(s)
    case None => None
    case Some(rest) => Some(BeforeDash(rest))
  }

  /** The text is its first field, a dash and the rest after that dash. */
  lemma {:induction false} AfterFirstDashSplits(s: string)
    requires '-' in s
    ensures s == BeforeDash(s) + "-" + AfterFirstDash(s).value
  {
    if s[0] != '-' {
      assert s == [s[0]] + s[1..];
      AfterFirstDashSplits(s[1..]);
    }
  }

  /** The text before the first dash ends at that dash or at the end of the text. */
  lemma {:induction false} BeforeDashEndsAtDash(s: string)
    ensures |BeforeDash(s)| == |s| || s[|BeforeDash(s)|] == '-'
  {
    if |s| > 0 && s[0] != '-' {
      BeforeDashEndsAtDash(s[1..]);
    }
  }

  /**
   * When there is a dash, the text is the first field, a dash, the second field, and then either
   * nothing or a dash.
   */
  lemma SecondFieldSplits(s: string)
    requires '-' in s
    ensures var f := SecondField(s).value;
      var e := |BeforeDash(s)| + 1 + |f|;
      e <= |s| && s == BeforeDash(s) + "-" + f + s[e..] && (e == |s| || s[e] == '-')
  {
    AfterFirstDashSplits(s);
    var a := BeforeDash(s);
    var rest := AfterFirstDash(s).value;
    BeforeDashEndsAtDash(rest);
    var f := BeforeDash(rest);
    var tail := rest[|f|..];
    assert rest == f + tail;
    Regroup(s, a, "-", f, tail);
  }

  /** Splitting the rest of `a + sep + rest` into `f + tail` splits the whole. */
  lemma Regroup(s: string, a: string, sep: string, f: string, tail: string)
    requires s == a + sep + (f + tail)
    ensures s == a + sep + f + tail
    ensures s[|a| + |sep| + |f|..] == tail
  {
    assert a + sep + (f + tail) == a + sep + f + tail;
  }

  /** The derived Month_num column: the integer after the dash of "YYYY-MM"; None when the cast raises. */
  function ParseMonthNum(month: string): Option<nat> {
    match SecondField(month)
    case None => None
    case Some(field) => DigitsValue(field)
  }

  /** The cast raises exactly when there is no dash or the second field is not a run of digits. */
  lemma ParseMonthNumFails(month: string)
    ensures ParseMonthNum(month).Some? <==>
      '-' in month && |SecondField(month).value| > 0
      && forall i :: 0 <= i < |SecondField(month).value| ==> IsDigit(SecondField(month).value[i])
  {
  }

  lemma {:induction false} AfterFirstDashOfJoin(y: string, rest: string)
    requires '-' !in y
    ensures AfterFirstDash(y + "-" + rest) == Some(rest)
  {
    if |y| == 0 {
      assert y + "-" + rest == ['-'] + rest;
    } else {
      assert (y + "-" + rest)[1..] == y[1..] + "-" + rest;
      AfterFirstDashOfJoin(y[1..], rest);
    }
  }

  lemma {:induction false} BeforeDashStopsAtDash(f: string, b: string)
    requires '-' !in f && (b == "" || b[0] == '-')
    ensures BeforeDash(f + b) == f
  {
    if |f| == 0 {
      assert f + b == b;
    } else {
      assert (f + b)[0] == f[0] && (f + b)[1..] == f[1..] + b;
      assert '-' !in f[1..];
      BeforeDashStopsAtDash(f[1..], b);
      assert f == [f[0]] + f[1..];
    }
  }

  /**
   * The second field of a first field, a dash, a dash-free field and then nothing or a dash is
   * that field; with the decomposition in `SecondField`'s contract this pins the field down.
   */
  lemma SecondFieldOf(a: string, f: string, b: string)
    requires '-' !in a && '-' !in f && (b == "" || b[0] == '-')
    ensures SecondField(a + "-" + f + b) == Some(f)
  {
    assert a + "-" + f + b == a + "-" + (f + b);
    AfterFirstDashOfJoin(a, f + b);
    BeforeDashStopsAtDash(f, b);
  }

  /** A Month of two dash-free fields has as Month_num the value of its second field. */
  lemma ParseMonthNumOfField(y: string, f: string)
    requires '-' !in y && '-' !in f
    ensures ParseMonthNum(y + "-" + f) == DigitsValue(f)
  {
    assert y + "-" + f + "" == y + "-" + f;
    SecondFieldOf(y, f, "");
  }

  /** A month label "YYYY-MM", as the treemap's month level writes it, reads back as month MM. */
  lemma MonthNumOfLabel(year: string, m: nat)
    requires '-' !in year && 1 <= m <= 12
    ensures ParseMonthNum(year + "-" + Pad2(m)) == Some(m)
  {
    ParseMonthNumOfField(year, Pad2(m));
  }

  /** One row of the combined table: a record with its Year and Month_num columns. */
  datatype Row = Row(rec: Record, year: int, monthNum: nat)

  /** A year file's records with the Year and Month_num columns added; None when a Month does not parse. */
  function TagRows(recs: seq<Record>, year: int): (r: Option<seq<Row>>)
    ensures r.Some? <==> forall i :: 0 <= i < |recs| ==> ParseMonthNum(recs[i].month).Some?
    ensures r.Some? ==>
      && |r.value| == |recs|
      && forall i :: 0 <= i < |recs| ==> r.value[i] == Row(recs[i], year, ParseMonthNum(recs[i].month).value)
  {
    if |recs| == 0 then Some([])
    else
      var init := recs[..|recs| - 1];
      var last := recs[|recs| - 1];
      var prev := TagRows(init, year);
      var m := ParseMonthNum(last.month);
      if prev.None? || m.None? then None
      else Some(prev.value + [Row(last, year, m.value)])
  }

  /**
   * The table built from the year files `FirstYear .. hi - 1`, in year order, missing files skipped.
   * None when some existing file has a Month that does not parse (the load raises).
   */
  function LoadYears(files: map<int, seq<Record>>, hi: int): Option<seq<Row>>
    requires FirstYear <= hi
    decreases hi - FirstYear
  {
    if hi == FirstYear then Some([])
    else
      match LoadYears(files, hi - 1)
      case None => None
      case Some(prev) =>
        if hi - 1 !in files then Some(prev)
        else
          match TagRows(files[hi - 1], hi - 1)
          case None => None
          case Some(rows) => Some(prev + rows)
  }

  /** The load fails exactly when one of the existing year files has a Month that does not parse. */
  lemma {:induction false} LoadFailsIffBadMonth(files: map<int, seq<Record>>, hi: int)
    requires FirstYear <= hi
    ensures LoadYears(files, hi).None? <==>
      exists y :: FirstYear <= y < hi && y in files && TagRows(files[y], y).None?
    decreases hi - FirstYear
  {
    if hi > FirstYear {
      LoadFailsIffBadMonth(files, hi - 1);
    }
  }

  /**
   * Every loaded row comes from an existing file of a year in range, carries that year, and its
   * Month_num is its Month parsed.
   */
  lemma {:induction false} LoadedRowsComeFromTheirFile(files: map<int, seq<Record>>, hi: int)
    requires FirstYear <= hi
    ensures LoadYears(files, hi).Some? ==> forall row :: row in LoadYears(files, hi).value ==>
      && FirstYear <= row.year < hi
      && row.year in files
      && row.rec in files[row.year]
      && ParseMonthNum(row.rec.month) == Some(row.monthNum)
    decreases hi - FirstYear
  {
    if hi > FirstYear {
      LoadedRowsComeFromTheirFile(files, hi - 1);
      if LoadYears(files, hi - 1).Some? && hi - 1 in files && TagRows(files[hi - 1], hi - 1).Some? {
        var rows := TagRows(files[hi - 1], hi - 1).value;
        forall row | row in rows ensures row.rec in files[hi - 1] && row.year == hi - 1 {
          var i :| 0 <= i < |rows| && rows[i] == row;
        }
      }
    }
  }

  /** The row count is the sum of the sizes of the year files that exist. */
  function RowCount(files: map<int, seq<Record>>, hi: int): nat
    requires FirstYear <= hi
    decreases hi - FirstYear
  {
    if hi == FirstYear then 0
    else RowCount(files, hi - 1) + (if hi - 1 in files then |files[hi - 1]| else 0)
  }

  lemma {:induction false} LoadedRowCount(files: map<int, seq<Record>>, hi: int)
    requires FirstYear <= hi
    ensures LoadYears(files, hi).Some? ==> |LoadYears(files, hi).value| == RowCount(files, hi)
    decreases hi - FirstYear
  {
    if hi > FirstYear {
      LoadedRowCount(files, hi - 1);
    }
  }

  /** Only the files of the years 2026 to 2030 are read: files of other years change nothing. */
  lemma {:induction false} LoadReadsOnlyItsYears(files: map<int, seq<Record>>, other: map<int, seq<Record>>, hi: int)
    requires FirstYear <= hi
    requires forall y :: FirstYear <= y < hi ==> (y in files <==> y in other) && (y in files ==> files[y] == other[y])
    ensures LoadYears(files, hi) == LoadYears(other, hi)
    decreases hi - FirstYear
  {
    if hi > FirstYear {
      LoadReadsOnlyItsYears(files, other, hi - 1);
    }
  }

  /** A missing year file is skipped: the load reads as if that year's file were empty. */
  lemma {:induction false} MissingYearSkipped(files: map<int, seq<Record>>, y: int, hi: int)
    requires FirstYear <= hi && y !in files
    ensures LoadYears(files, hi) == LoadYears(files[y := []], hi)
    decreases hi - FirstYear
  {
    if hi > FirstYear {
      MissingYearSkipped(files, y, hi - 1);
      var prev := LoadYears(files, hi - 1);
      if prev.Some? && hi - 1 == y {
        assert TagRows([], y) == Some([]);
        assert prev.value + [] == prev.value;
      }
    }
  }

  /** Reads every year file that exists into one table, tagging each row with its Year and Month_num. */
  method LoadDisasterData(files: map<int, seq<Record>>) returns (table: Option<seq<Row>>)
    ensures table == LoadYears(files, EndYear)
  {
    var all: seq<Row> := [];
    var year := FirstYear;
    while year < EndYear
      invariant FirstYear <= year <= EndYear
      invariant LoadYears(files, year) == Some(all)
    {
      if year in files {
        var tagged := TagRows(files[year], year);
        if tagged.None? {
          LoadFailsIffBadMonth(files, year + 1);
          LoadFailsIffBadMonth(files, EndYear);
          return None;
        }
        all := all + tagged.value;
      }
      year := year + 1;
    }
    table := Some(all);
  }

  // ---------------------------------------------------------------- play, pause, timers

  /** The play button's callback: a registered click (truthy n_clicks) flips the timer's `disabled`. */
  function TogglePlay(nClicks: Option<int>, disabled: bool): (r: bool)
    ensures nClicks.Some? && nClicks.value != 0 ==> r != disabled
    ensures nClicks.None? || nClicks.value == 0 ==> r == disabled
  {
    if nClicks.Some? && nClicks.value != 0 then !disabled else disabled
  }

  /** The button text follows the timer: "Play" while it is disabled, "Pause" while it runs. */
  function ButtonLabel(disabled: bool): (r: string)
    ensures r == "Play" <==> disabled
    ensures r == "Pause" <==> !disabled
  {
    if disabled then "Play" else "Pause"
  }

  /** One timer tick of the month slider: December wraps to January. */
  function AdvanceMonth(current: int): (r: int)
    ensures 1 <= current <= 12 ==> 1 <= r <= 12 && r == current % 12 + 1
    ensures current != 12 ==> r == current + 1
  {
    if current == 12 then 1 else current + 1
  }

  /** `k` consecutive ticks. */
  function AdvanceBy(m: int, k: nat): int {
    if k == 0 then m else AdvanceMonth(AdvanceBy(m, k - 1))
  }

  /** `k` ticks from a month move it `k` places round the twelve-month cycle, never leaving it. */
  lemma {:induction false} AdvanceByCycles(m: int, k: nat)
    requires 1 <= m <= 12
    ensures AdvanceBy(m, k) == (m - 1 + k) % 12 + 1
  {
    if k > 0 {
      AdvanceByCycles(m, k - 1);
      NextInCycle(m - 2 + k);
    }
  }

  /** One step round the cycle: the position after `n` is one more, or 0 after 11. */
  lemma NextInCycle(n: int)
    requires n >= 0
    ensures (n + 1) % 12 == if n % 12 == 11 then 0 else n % 12 + 1
  {
    var q := n / 12;
    var r := n % 12;
    assert n == 12 * q + r;
    if r == 11 {
      assert n + 1 == 12 * (q + 1);
    } else {
      assert n + 1 == 12 * q + (r + 1);
    }
  }

  /** Twelve ticks return the slider to the month it started from. */
  lemma TwelveTicksReturn(m: int)
    requires 1 <= m <= 12
    ensures AdvanceBy(m, 12) == m
  {
    AdvanceByCycles(m, 12);
  }

  /** Marker opacity: 1 or 0.2. */
  datatype Opacity = Full | Dimmed

  /** The blink timer's count picks the opacity: full on even counts, dimmed on odd ones. */
  function OpacityFor(blink: int): (o: Opacity)
    ensures o == Full <==> blink % 2 == 0
  {
    if blink % 2 == 0 then Full else Dimmed
  }

  /** Consecutive blink counts alternate the opacity. */
  lemma BlinkAlternates(blink: int)
    ensures OpacityFor(blink + 1) != OpacityFor(blink)
  {
  }

  /**
   * The page's control state: the month timer's `disabled`, the play button's click count, the
   * slider's month and the blink timer's count.
   */
  datatype Controls = Controls(disabled: bool, nClicks: int, month: int, blinks: int)

  /** The state the page is created with: paused, no clicks, January, no blinks. */
  const InitialControls: Controls := Controls(true, 0, 1, 0)

  /** The page starts valid and paused, so the button reads "Play" and every later state is valid. */
  lemma InitialControlsPaused(events: seq<Event>)
    ensures ControlsValid(InitialControls)
    ensures ButtonLabel(InitialControls.disabled) == "Play"
    ensures ControlsValid(Run(InitialControls, events))
  {
    RunKeepsValid(InitialControls, events);
  }

  /** A press of the play button, a month-timer tick, or a blink-timer tick. */
  datatype Event = PressPlay | Tick | BlinkTick

  /** One event. A disabled month timer produces no tick, so a Tick while paused changes nothing. */
  function Step(c: Controls, e: Event): Controls {
    match e
    case PressPlay => c.(nClicks := c.nClicks + 1, disabled := TogglePlay(Some(c.nClicks + 1), c.disabled))
    case Tick => if c.disabled then c else c.(month := AdvanceMonth(c.month))
    case BlinkTick => c.(blinks := c.blinks + 1)
  }

  function Run(c: Controls, events: seq<Event>): Controls
    decreases |events|
  {
    if |events| == 0 then c else Run(Step(c, events[0]), events[1..])
  }

  predicate ControlsValid(c: Controls) {
    1 <= c.month <= 12 && c.nClicks >= 0 && c.blinks >= 0
  }

  /** Any sequence of events keeps the slider inside January..December. */
  lemma {:induction false} RunKeepsValid(c: Controls, events: seq<Event>)
    requires ControlsValid(c)
    ensures ControlsValid(Run(c, events))
    decreases |events|
  {
    if |events| > 0 {
      RunKeepsValid(Step(c, events[0]), events[1..]);
    }
  }

  /**
   * Each press flips play/pause and the button text; a month tick moves the slider only while playing;
   * a blink tick flips the opacity whether or not the map is playing, and touches nothing else.
   */
  lemma StepEffects(c: Controls)
    requires ControlsValid(c)
    ensures Step(c, PressPlay).disabled == !c.disabled
    ensures ButtonLabel(Step(c, PressPlay).disabled) != ButtonLabel(c.disabled)
    ensures Step(c, Tick).month == (if c.disabled then c.month else c.month % 12 + 1)
    ensures Step(c, BlinkTick).(blinks := c.blinks) == c
    ensures OpacityFor(Step(c, BlinkTick).blinks) != OpacityFor(c.blinks)
  {
  }

  // ---------------------------------------------------------------- markers

  /** The rows the map shows: the selected year and month, narrowed to one city unless the filter is "All". */
  function MonthFrame(table: seq<Row>, year: int, city: string, month: int): seq<Row> {
    if city == AllCities then Filter(table, (r: Row) => r.year == year && r.monthNum == month)
    else Filter(table, (r: Row) => r.year == year && r.rec.city == city && r.monthNum == month)
  }

  function RowCities(rows: seq<Row>): (r: seq<string>)
    ensures forall c :: c in r <==> exists row :: row in rows && row.rec.city == c
  {
    var r := seq(|rows|, i requires 0 <= i < |rows| => rows[i].rec.city);
    assert forall c :: c in r <==> exists row :: row in rows && row.rec.city == c by {
      forall c | c in r ensures exists row :: row in rows && row.rec.city == c {
        var i :| 0 <= i < |rows| && r[i] == c;
        assert rows[i] in rows;
      }
      forall c | exists row :: row in rows && row.rec.city == c ensures c in r {
        var row :| row in rows && row.rec.city == c;
        var i :| 0 <= i < |rows| && rows[i] == row;
        assert r[i] == c;
      }
    }
    r
  }

  /** The cities considered for markers: every distinct city of the frame, or the one selected city. */
  function Candidates(frame: seq<Row>, city: string): seq<string> {
    if city == AllCities then Unique(RowCities(frame)) else [city]
  }

  /** A city's rows of the frame, in table order. */
  function CityRows(frame: seq<Row>, c: string): seq<Row> {
    Filter(frame, (r: Row) => r.rec.city == c)
  }

  /** One disaster's hover block. */
  function HoverBlock(r: Record): (b: string)
    ensures |b| > 0
  {
    "<b>Disaster:</b> " + r.disaster + "<br>"
    + "<b>Severity:</b> " + r.severity + "<br>"
    + "<b>Scale:</b> " + r.scale + "<br>"
    + "<b>Value:</b> " + r.value + " " + r.unit + "<br>"
    + "------------------------"
  }

  /** One hover block per row, in row order. */
  function HoverBlocks(rows: seq<Row>): (r: seq<string>)
    ensures |r| == |rows|
    ensures forall i :: 0 <= i < |rows| ==> r[i] == HoverBlock(rows[i].rec)
  {
    if |rows| == 0 then [] else HoverBlocks(rows[..|rows| - 1]) + [HoverBlock(rows[|rows| - 1].rec)]
  }

  /** A marker's hover text: its rows' blocks joined by "<br>"; empty exactly when it has no rows. */
  function HoverText(rows: seq<Row>): (h: string)
    ensures h == "" <==> |rows| == 0
  {
    var blocks := HoverBlocks(rows);
    assert |blocks| > 0 ==> |blocks[0]| > 0;
    Join(blocks, "<br>")
  }

  /** One city's marker: its fixed position, its name, its hover text and the current opacity. */
  datatype Marker = Marker(city: string, at: Coord, hover: string, opacity: Opacity)

  /** A city's marker: at its coordinates, with its rows' hover text and the current opacity. */
  function CityMarker(coords: map<string, Coord>, frame: seq<Row>, opacity: Opacity, c: string): Marker
    requires c in coords
  {
    Marker(c, coords[c], HoverText(CityRows(frame, c)), opacity)
  }

  /**
   * The markers for the candidate cities, in candidate order, placed by the coordinate table
   * `coords`; a city without coordinates is skipped.
   */
  function MarkersAt(coords: map<string, Coord>, cands: seq<string>, frame: seq<Row>, opacity: Opacity): (r: seq<Marker>)
    ensures |r| <= |cands|
    ensures forall m :: m in r ==> m.city in cands && m.city in coords && m == CityMarker(coords, frame, opacity, m.city)
  {
    if |cands| == 0 then []
    else
      var init := cands[..|cands| - 1];
      var c := cands[|cands| - 1];
      var prev := MarkersAt(coords, init, frame, opacity);
      assert cands == init + [c];
      if c in coords then prev + [CityMarker(coords, frame, opacity, c)] else prev
  }

  /** Every candidate with coordinates gets a marker. */
  lemma {:induction false} MarkersCoverCandidates(coords: map<string, Coord>, cands: seq<string>, frame: seq<Row>, opacity: Opacity)
    ensures forall c :: c in cands && c in coords ==> exists m :: m in MarkersAt(coords, cands, frame, opacity) && m.city == c
    decreases |cands|
  {
    if |cands| > 0 {
      var init := cands[..|cands| - 1];
      var c := cands[|cands| - 1];
      MarkersCoverCandidates(coords, init, frame, opacity);
      assert cands == init + [c];
      var prev := MarkersAt(coords, init, frame, opacity);
      if c in coords {
        var m := CityMarker(coords, frame, opacity, c);
        assert MarkersAt(coords, cands, frame, opacity) == prev + [m];
        assert m in prev + [m];
      }
    }
  }

  /** No two markers are for the same city. */
  predicate DistinctCities(ms: seq<Marker>) {
    forall i, j :: 0 <= i < j < |ms| ==> ms[i].city != ms[j].city
  }

  /** A marker for a city none of the earlier markers' cities could be keeps the cities distinct. */
  lemma DistinctCitiesSnoc(ms: seq<Marker>, m: Marker, cities: seq<string>)
    requires DistinctCities(ms)
    requires forall x :: x in ms ==> x.city in cities
    requires m.city !in cities
    ensures DistinctCities(ms + [m])
  {
    var r := ms + [m];
    forall i, j | 0 <= i < j < |r|
      ensures r[i].city != r[j].city
    {
      assert r[i] == ms[i] && ms[i] in ms;
      if j < |ms| {
        assert r[j] == ms[j];
      }
    }
  }

  /** Distinct candidates give markers for distinct cities. */
  lemma {:induction false} MarkersDistinct(coords: map<string, Coord>, cands: seq<string>, frame: seq<Row>, opacity: Opacity)
    requires NoDup(cands)
    ensures DistinctCities(MarkersAt(coords, cands, frame, opacity))
    decreases |cands|
  {
    if |cands| > 0 {
      var init := cands[..|cands| - 1];
      var c := cands[|cands| - 1];
      assert cands == init + [c];
      assert NoDup(init) && c !in init;
      MarkersDistinct(coords, init, frame, opacity);
      var prev := MarkersAt(coords, init, frame, opacity);
      assert DistinctCities(prev);
      if c in coords {
        var m := CityMarker(coords, frame, opacity, c);
        assert MarkersAt(coords, cands, frame, opacity) == prev + [m];
        DistinctCitiesSnoc(prev, m, init);
      } else {
        assert MarkersAt(coords, cands, frame, opacity) == prev;
      }
    }
  }

  /** The markers for the candidate cities, placed by the city coordinate table. */
  function MarkersFor(cands: seq<string>, frame: seq<Row>, opacity: Opacity): seq<Marker> {
    MarkersAt(CityCoords, cands, frame, opacity)
  }

  // ---------------------------------------------------------------- viewport

  /** A map view: centre and zoom. */
  datatype View = View(center: Coord, zoom: real)

  /** What the map reported after the user's last pan or zoom: its centre and zoom, when present. */
  datatype Relayout = Relayout(center: Option<Coord>, zoom: Option<real>)

  const CityZoom: real := 5.0
  const DefaultView: View := View(Coord(0.0, 0.0), 1.0)

  /**
   * The view precedence: a selected city with coordinates recentres on it at zoom 5; otherwise a
   * reported centre is kept with its zoom (1 when none was reported); otherwise the whole world.
   */
  function Viewport(city: string, relayout: Relayout): (v: View)
    ensures city != AllCities && city in CityCoords ==> v == View(CityCoords[city], CityZoom)
    ensures (city == AllCities || city !in CityCoords) && relayout.center.Some? ==>
      v.center == relayout.center.value && (v.zoom == if relayout.zoom.Some? then relayout.zoom.value else 1.0)
    ensures (city == AllCities || city !in CityCoords) && relayout.center.None? ==> v == DefaultView
  {
    if city != AllCities && city in CityCoords then View(CityCoords[city], CityZoom)
    else if relayout.center.Some? then View(relayout.center.value, if relayout.zoom.Some? then relayout.zoom.value else 1.0)
    else DefaultView
  }

  /** With every city shown, a view the user panned to is reproduced exactly on the next render. */
  lemma ViewRetainedAcrossRenders(v: View)
    ensures Viewport(AllCities, Relayout(Some(v.center), Some(v.zoom))) == v
  {
  }

  /** A selected city overrides whatever view the map reported. */
  lemma CityOverridesRelayout(city: string, r1: Relayout, r2: Relayout)
    requires city != AllCities && city in CityCoords
    ensures Viewport(city, r1) == Viewport(city, r2)
  {
  }

  // ---------------------------------------------------------------- render

  /** The rendered map: its markers, in trace order, and its view. */
  datatype MapFigure = MapFigure(markers: seq<Marker>, view: View)

  /** The hover text of one marker: a block per row appended in row order, then joined by "<br>". */
  method BuildHoverText(cdata: seq<Row>) returns (h: string)
    ensures h == HoverText(cdata)
  {
    var blocks: seq<string> := [];
    var j := 0;
    while j < |cdata|
      invariant 0 <= j <= |cdata|
      invariant blocks == HoverBlocks(cdata[..j])
    {
      assert cdata[..j + 1][..j] == cdata[..j];
      blocks := blocks + [HoverBlock(cdata[j].rec)];
      j := j + 1;
    }
    assert cdata[..|cdata|] == cdata;
    h := Join(blocks, "<br>");
  }

  /** The map's render callback over the loaded table: one marker trace per placed city, then the view. */
  method UpdateMap(table: seq<Row>, year: int, city: string, month: int, blink: int, relayout: Relayout)
    returns (fig: MapFigure)
    ensures var frame := MonthFrame(table, year, city, month);
      fig.markers == MarkersFor(Candidates(frame, city), frame, OpacityFor(blink))
    ensures fig.view == Viewport(city, relayout)
  {
    var opacity := OpacityFor(blink);
    var frame := MonthFrame(table, year, city, month);
    var cities := Candidates(frame, city);
    var markers: seq<Marker> := [];
    var i := 0;
    while i < |cities|
      invariant 0 <= i <= |cities|
      invariant markers == MarkersFor(cities[..i], frame, opacity)
    {
      var c := cities[i];
      assert cities[..i + 1][..i] == cities[..i];
      if c in CityCoords {
        var hover := BuildHoverText(CityRows(frame, c));
        markers := markers + [Marker(c, CityCoords[c], hover, opacity)];
      }
      i := i + 1;
    }
    assert cities[..|cities|] == cities;
    fig := MapFigure(markers, Viewport(city, relayout));
  }

  /**
   * With every city shown, the markers are exactly the cities with coordinates that have a row in the
   * selected year and month, each once, each with the hover text of its rows.
   */
  lemma AllCitiesMarkers(table: seq<Row>, year: int, month: int, opacity: Opacity)
    ensures var frame := MonthFrame(table, year, AllCities, month);
      var markers := MarkersFor(Candidates(frame, AllCities), frame, opacity);
      && (forall c :: (exists m :: m in markers && m.city == c) <==>
            c in CityCoords && exists row :: row in table && row.year == year && row.monthNum == month && row.rec.city == c)
      && DistinctCities(markers)
  {
    var frame := MonthFrame(table, year, AllCities, month);
    var cands := Candidates(frame, AllCities);
    MarkersCoverCandidates(CityCoords, cands, frame, opacity);
    MarkersDistinct(CityCoords, cands, frame, opacity);
  }

  /**
   * With one city selected, there is exactly one marker when the city has coordinates (even with no
   * rows) and none otherwise; its hover text is empty exactly when the city has no row that month.
   */
  lemma SelectedCityMarker(table: seq<Row>, year: int, city: string, month: int, opacity: Opacity)
    requires city != AllCities
    ensures var frame := MonthFrame(table, year, city, month);
      var markers := MarkersFor(Candidates(frame, city), frame, opacity);
      && |markers| == (if city in CityCoords then 1 else 0)
      && (city in CityCoords ==>
            && markers[0].city == city
            && markers[0].at == CityCoords[city]
            && (markers[0].hover == "" <==>
                  !exists row :: row in table && row.year == year && row.monthNum == month && row.rec.city == city))
  {
    var frame := MonthFrame(table, year, city, month);
    var markers := MarkersFor(Candidates(frame, city), frame, opacity);
    assert Candidates(frame, city) == [city];
    assert [city][..0] == [];
    if city in CityCoords {
      assert markers[0] in markers;
      var rows := CityRows(frame, city);
      if exists row :: row in table && row.year == year && row.monthNum == month && row.rec.city == city {
        var row :| row in table && row.year == year && row.monthNum == month && row.rec.city == city;
        assert row in frame;
        assert row in rows;
      }
      if |rows| > 0 {
        assert rows[0] in rows;
        assert rows[0] in frame;
      }
    }
  }
}
