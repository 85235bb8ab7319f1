/**
 * The drill-down treemap page: four treemap charts (years, months of a year, cities of a month,
 * disasters of a city in a month) of which exactly one is visible, and the click handler that
 * moves the selection (year, month, city) down and back up the hierarchy.
 */
module Treemap {
  import opened Util
  import opened Records

  /** The years offered at the top level, as text. */
  const AvailableYears: seq<string> := ["2026", "2027", "2028", "2029", "2030"]

  /** A treemap's parallel label, parent and value lists; `Blank` is an empty figure. */
  datatype Figure = Blank | Tree(labels: seq<string>, parents: seq<string>, values: seq<int>)

  /** The four charts of the page, in the order the handler lists its outputs. */
  datatype Chart = YearChart | MonthChart | CityChart | DisasterChart

  /** One value per chart. */
  datatype PerChart<T> = PerChart(year: T, month: T, city: T, disaster: T) {
    function Get(c: Chart): T {
      match c
      case YearChart => year
      case MonthChart => month
      case CityChart => city
      case DisasterChart => disaster
    }
  }

  /** A chart's CSS display: "block" or "none". */
  datatype Display = Block | Hidden

  function Mark(shown: bool): Display {
    if shown then Block else Hidden
  }

  /** The chart `c` is displayed and the other three are hidden. */
  predicate ShowsOnly(d: PerChart<Display>, c: Chart) {
    d == PerChart(Mark(c == YearChart), Mark(c == MonthChart), Mark(c == CityChart), Mark(c == DisasterChart))
  }

  /** The first displayed chart, or the year chart when none is. */
  function FirstShown(d: PerChart<Display>): Chart {
    if d.year == Block then YearChart
    else if d.month == Block then MonthChart
    else if d.city == Block then CityChart
    else DisasterChart
  }

  /** Styles that show only `c` set exactly one chart to "block". */
  lemma ShowsOnlyExactlyOne(d: PerChart<Display>, c: Chart)
    requires ShowsOnly(d, c)
    ensures forall c' :: d.Get(c') == Block <==> c' == c
    ensures FirstShown(d) == c
  {
  }

  /** How an optional selection prints inside an f-string: the text itself, or "None". */
  function Text(o: Option<string>): string {
    match o
    case Some(t) => t
    case None => "None"
  }

  /** `f` is a one-level tree: `root` on top, every other label its child, every weight 1. */
  predicate RootedAt(f: Figure, root: string) {
    && f.Tree?
    && |f.labels| >= 1
    && |f.parents| == |f.labels|
    && f.values == Repeat(1, |f.labels|)
    && f.labels[0] == root
    && f.parents[0] == ""
    && forall i :: 1 <= i < |f.parents| ==> f.parents[i] == root
  }

  /** The clickable labels under the root of a one-level tree. */
  function Children(f: Figure): seq<string>
    requires f.Tree? && |f.labels| >= 1
  {
    f.labels[1..]
  }

  // ---------------------------------------------------------------- figure builders

  /** The top level: every available year, all top-level, weight 1. */
  function YearTreemap(): (f: Figure)
    ensures f.Tree? && f.labels == AvailableYears
    ensures |f.parents| == |f.labels| && forall i :: 0 <= i < |f.parents| ==> f.parents[i] == ""
    ensures f.values == Repeat(1, |f.labels|)
  {
    Tree(AvailableYears, Repeat("", |AvailableYears|), Repeat(1, |AvailableYears|))
  }

  /** The label of month `m` of `year`: "YYYY-MM". */
  function MonthLabel(year: string, m: nat): (r: string)
    requires 1 <= m <= 12
    ensures |r| == |year| + 3
  {
    year + "-" + Pad2(m)
  }

  /** The month level: the year as root, then its twelve months in calendar order. */
  function MonthTreemap(year: string): (f: Figure)
    ensures RootedAt(f, year) && |f.labels| == 13
    ensures forall m :: 1 <= m <= 12 ==> f.labels[m] == MonthLabel(year, m)
  {
    var months := seq(12, i requires 0 <= i < 12 => MonthLabel(year, i + 1));
    Tree([year] + months, [""] + Repeat(year, 12), Repeat(1, 13))
  }

  /** The rows of a year table with the given Month (a missing month matches no row). */
  function MonthRows(rows: seq<Record>, month: Option<string>): seq<Record> {
    Filter(rows, (r: Record) => Some(r.month) == month)
  }

  /** The rows of a year table with the given Month and City, in table order. */
  function CityMonthRows(rows: seq<Record>, month: Option<string>, city: string): seq<Record> {
    Filter(rows, (r: Record) => Some(r.month) == month && r.city == city)
  }

  function Cities(rows: seq<Record>): (r: seq<string>)
    ensures |r| == |rows| && forall i :: 0 <= i < |rows| ==> r[i] == rows[i].city
  {
    seq(|rows|, i requires 0 <= i < |rows| => rows[i].city)
  }

  function Disasters(rows: seq<Record>): (r: seq<string>)
    ensures |r| == |rows| && forall i :: 0 <= i < |rows| ==> r[i] == rows[i].disaster
  {
    seq(|rows|, i requires 0 <= i < |rows| => rows[i].disaster)
  }

  /**
   * The city level of `month`: the month as root, then each city with a row in that month, once,
   * in order of first appearance. None when the table `<year>.csv` does not exist (the read raises).
   */
  function CityTreemap(files: map<string, seq<Record>>, year: Option<string>, month: Option<string>): (r: Option<Figure>)
    ensures r.Some? <==> Text(year) in files
    ensures r.Some? ==> RootedAt(r.value, Text(month)) && NoDup(Children(r.value))
    ensures r.Some? ==> forall c :: c in Children(r.value) <==>
      exists row :: row in files[Text(year)] && Some(row.month) == month && row.city == c
  {
    if Text(year) !in files then None
    else
      var rows := MonthRows(files[Text(year)], month);
      var cities := Unique(Cities(rows));
      var f := Tree([Text(month)] + cities, [""] + Repeat(Text(month), |cities|), Repeat(1, |cities| + 1));
      assert Children(f) == cities;
      assert forall c :: c in Cities(rows) <==> exists row :: row in rows && row.city == c by {
        forall c | c in Cities(rows) ensures exists row :: row in rows && row.city == c {
          var i :| 0 <= i < |rows| && Cities(rows)[i] == c;
          assert rows[i] in rows;
        }
        forall c | exists row :: row in rows && row.city == c ensures c in Cities(rows) {
          var row :| row in rows && row.city == c;
          var i :| 0 <= i < |rows| && rows[i] == row;
          assert Cities(rows)[i] == c;
        }
      }
      Some(f)
  }

  /**
   * The disaster level of `city` in `month`: the city as root, then one leaf per matching row,
   * in table order. None when the table `<year>.csv` does not exist.
   */
  function DisasterTreemap(files: map<string, seq<Record>>, year: Option<string>, month: Option<string>, city: string): (r: Option<Figure>)
    ensures r.Some? <==> Text(year) in files
    ensures r.Some? ==> RootedAt(r.value, city)
    ensures r.Some? ==>
      var matching := CityMonthRows(files[Text(year)], month, city);
      && |Children(r.value)| == |matching|
      && forall i :: 0 <= i < |matching| ==> Children(r.value)[i] == matching[i].disaster
  {
    if Text(year) !in files then None
    else
      var rows := CityMonthRows(files[Text(year)], month, city);
      var f := Tree([city] + Disasters(rows), [""] + Repeat(city, |rows|), Repeat(1, |rows| + 1));
      assert Children(f) == Disasters(rows);
      Some(f)
  }

  /** No month label is a year: a click on a month never reads as "back to the years". */
  lemma MonthLabelIsNotAYear(year: string, m: nat)
    requires year in AvailableYears && 1 <= m <= 12
    ensures MonthLabel(year, m) !in AvailableYears
  {
  }

  /** The thirteen labels of a month level are pairwise different. */
  lemma MonthTreemapLabelsDistinct(year: string)
    ensures NoDup(MonthTreemap(year).labels)
  {
    var ls := MonthTreemap(year).labels;
    forall i, j | 0 <= i < j < |ls| ensures ls[i] != ls[j] {
      if i == 0 {
        assert |ls[j]| == |year| + 3;
      } else {
        assert ls[i] == year + "-" + Pad2(i) && ls[j] == year + "-" + Pad2(j);
        Pad2Injective(i, j);
        assert ls[i][|year| + 1..] == Pad2(i);
        assert ls[j][|year| + 1..] == Pad2(j);
      }
    }
  }

  // ---------------------------------------------------------------- navigation

  /** The stored selection: year, month and city, each possibly unset. */
  datatype NavState = NavState(year: Option<string>, month: Option<string>, city: Option<string>)

  const Cleared: NavState := NavState(None, None, None)

  /** What fired the handler: nothing (the first render), or a chart with the label in its click payload. */
  datatype Trigger = NoTrigger | Clicked(chart: Chart, clickData: Option<string>)

  /**
   * The handler's result: new selection, the four figures and the four display styles; or no update
   * at all; or a failed table read (the handler raises and nothing is updated).
   */
  datatype Outcome =
    | Update(state: NavState, figures: PerChart<Figure>, styles: PerChart<Display>)
    | PreventUpdate
    | ReadFailure

  /** The click handler. Which branch runs depends on which chart fired, not on the stored level. */
  function Navigation(files: map<string, seq<Record>>, trigger: Trigger, s: NavState): (o: Outcome)
    ensures trigger == NoTrigger ==>
      o.Update? && o.state == Cleared && ShowsOnly(o.styles, YearChart) && o.figures.year == YearTreemap()
    ensures o.Update? ==> ShowsOnly(o.styles, FirstShown(o.styles)) && o.figures.Get(FirstShown(o.styles)).Tree?
    ensures trigger.Clicked? && trigger.clickData.None? ==> o == PreventUpdate
  {
    match trigger
    case NoTrigger =>
      Update(Cleared, PerChart(YearTreemap(), Blank, Blank, Blank), PerChart(Block, Hidden, Hidden, Hidden))
    case Clicked(chart, None) => PreventUpdate
    case Clicked(YearChart, Some(lbl)) =>
      Update(NavState(Some(lbl), None, None),
             PerChart(YearTreemap(), MonthTreemap(lbl), Blank, Blank),
             PerChart(Hidden, Block, Hidden, Hidden))
    case Clicked(MonthChart, Some(lbl)) =>
      if lbl in AvailableYears then
        Update(Cleared, PerChart(YearTreemap(), Blank, Blank, Blank), PerChart(Block, Hidden, Hidden, Hidden))
      else
        match CityTreemap(files, s.year, Some(lbl)) {
          case None => ReadFailure
          case Some(cityFig) =>
            Update(NavState(s.year, Some(lbl), None),
                   PerChart(YearTreemap(), MonthTreemap(Text(s.year)), cityFig, Blank),
                   PerChart(Hidden, Hidden, Block, Hidden))
        }
    case Clicked(CityChart, Some(lbl)) =>
      if Some(lbl) == s.month then
        Update(NavState(s.year, None, None),
               PerChart(YearTreemap(), MonthTreemap(Text(s.year)), Blank, Blank),
               PerChart(Hidden, Block, Hidden, Hidden))
      else
        match (CityTreemap(files, s.year, s.month), DisasterTreemap(files, s.year, s.month, lbl)) {
          case (Some(cityFig), Some(disasterFig)) =>
            Update(NavState(s.year, s.month, Some(lbl)),
                   PerChart(YearTreemap(), MonthTreemap(Text(s.year)), cityFig, disasterFig),
                   PerChart(Hidden, Hidden, Hidden, Block))
          case _ => ReadFailure
        }
    case Clicked(DisasterChart, Some(lbl)) =>
      if Some(lbl) == s.city then
        match CityTreemap(files, s.year, s.month) {
          case None => ReadFailure
          case Some(cityFig) =>
            Update(NavState(s.year, s.month, None),
                   PerChart(YearTreemap(), MonthTreemap(Text(s.year)), cityFig, Blank),
                   PerChart(Hidden, Hidden, Block, Hidden))
        }
      else
        PreventUpdate
  }

  /** A year click selects that year alone and shows the month chart. */
  lemma YearClick(files: map<string, seq<Record>>, s: NavState, lbl: string)
    ensures var o := Navigation(files, Clicked(YearChart, Some(lbl)), s);
      o.Update? && o.state == NavState(Some(lbl), None, None) && ShowsOnly(o.styles, MonthChart)
  {
  }

  /**
   * A month click on a year label clears everything and shows the year chart; on any other label
   * it keeps the year, selects that month, clears the city and shows the city chart (unless the
   * year's table is missing).
   */
  lemma MonthClick(files: map<string, seq<Record>>, s: NavState, lbl: string)
    ensures var o := Navigation(files, Clicked(MonthChart, Some(lbl)), s);
      && (lbl in AvailableYears ==> o.Update? && o.state == Cleared && ShowsOnly(o.styles, YearChart))
      && (lbl !in AvailableYears && Text(s.year) in files ==>
            o.Update? && o.state == NavState(s.year, Some(lbl), None) && ShowsOnly(o.styles, CityChart))
      && (lbl !in AvailableYears && Text(s.year) !in files ==> o == ReadFailure)
  {
  }

  /**
   * A city click on the selected month goes back to the month chart, keeping only the year;
   * any other label selects that city, keeps year and month, and shows the disaster chart.
   */
  lemma CityClick(files: map<string, seq<Record>>, s: NavState, lbl: string)
    ensures var o := Navigation(files, Clicked(CityChart, Some(lbl)), s);
      && (Some(lbl) == s.month ==> o.Update? && o.state == NavState(s.year, None, None) && ShowsOnly(o.styles, MonthChart))
      && (Some(lbl) != s.month && Text(s.year) in files ==>
            o.Update? && o.state == NavState(s.year, s.month, Some(lbl)) && ShowsOnly(o.styles, DisasterChart))
      && (Some(lbl) != s.month && Text(s.year) !in files ==> o == ReadFailure)
  {
  }

  /** A disaster click on the selected city clears only the city; every other disaster click is ignored. */
  lemma DisasterClick(files: map<string, seq<Record>>, s: NavState, lbl: string)
    ensures var o := Navigation(files, Clicked(DisasterChart, Some(lbl)), s);
      && (Some(lbl) == s.city && Text(s.year) in files ==>
            o.Update? && o.state == NavState(s.year, s.month, None) && ShowsOnly(o.styles, CityChart))
      && (Some(lbl) == s.city && Text(s.year) !in files ==> o == ReadFailure)
      && (Some(lbl) != s.city ==> o == PreventUpdate)
  {
  }

  // ---------------------------------------------------------------- the drill-down invariant

  /**
   * A selection that clicks on visible charts can reach: set fields form a prefix of
   * year, month, city; the year is an available one and the month is a month of that year.
   */
  predicate WellFormed(s: NavState) {
    && (s.month.Some? ==> s.year.Some?)
    && (s.city.Some? ==> s.month.Some?)
    && (s.year.Some? ==> s.year.value in AvailableYears)
    && (s.month.Some? ==> exists m :: 1 <= m <= 12 && s.month.value == MonthLabel(s.year.value, m))
  }

  /** The level a selection is at: the chart that should be visible for it. */
  function Level(s: NavState): Chart {
    if s.year.None? then YearChart
    else if s.month.None? then MonthChart
    else if s.city.None? then CityChart
    else DisasterChart
  }

  /** The figure the chart at the selection's level shows (None when its table cannot be read). */
  function VisibleFigure(files: map<string, seq<Record>>, s: NavState): Option<Figure> {
    match Level(s)
    case YearChart => Some(YearTreemap())
    case MonthChart => Some(MonthTreemap(s.year.value))
    case CityChart => CityTreemap(files, s.year, s.month)
    case DisasterChart => DisasterTreemap(files, s.year, s.month, s.city.value)
  }

  /** A click a user can make: on the visible chart, on one of the labels it shows. */
  predicate ClickOnVisibleChart(files: map<string, seq<Record>>, s: NavState, t: Trigger) {
    && t.Clicked?
    && t.chart == Level(s)
    && t.clickData.Some?
    && VisibleFigure(files, s).Some?
    && t.clickData.value in VisibleFigure(files, s).value.labels
  }

  /**
   * Clicks on the visible chart keep the selection well formed, show exactly the chart of the new
   * selection's level, and that chart holds the figure of the new selection. Only a disaster leaf
   * is ignored.
   */
  lemma NavigationKeepsWellFormed(files: map<string, seq<Record>>, s: NavState, t: Trigger)
    requires WellFormed(s) && ClickOnVisibleChart(files, s, t)
    ensures var o := Navigation(files, t, s);
      && (o.Update? ==>
            && WellFormed(o.state)
            && ShowsOnly(o.styles, Level(o.state))
            && VisibleFigure(files, o.state) == Some(o.figures.Get(Level(o.state))))
      && (o.PreventUpdate? ==> Level(s) == DisasterChart)
  {
    var lbl := t.clickData.value;
    match Level(s)
    case YearChart =>
      YearClick(files, s, lbl);
    case MonthChart =>
      MonthClickKeepsWellFormed(files, s, lbl);
    case CityChart =>
      CityClick(files, s, lbl);
    case DisasterChart =>
      DisasterClick(files, s, lbl);
  }

  lemma MonthClickKeepsWellFormed(files: map<string, seq<Record>>, s: NavState, lbl: string)
    requires WellFormed(s) && Level(s) == MonthChart && lbl in MonthTreemap(s.year.value).labels
    ensures var o := Navigation(files, Clicked(MonthChart, Some(lbl)), s);
      && !o.PreventUpdate?
      && (o.Update? ==>
            && WellFormed(o.state)
            && ShowsOnly(o.styles, Level(o.state))
            && VisibleFigure(files, o.state) == Some(o.figures.Get(Level(o.state))))
  {
  }

  /** The selection one level up: the deepest set field cleared. */
  function Parent(s: NavState): NavState {
    if s.city.Some? then s.(city := None)
    else if s.month.Some? then s.(month := None)
    else Cleared
  }

  /** Clicking the root label of the visible chart goes exactly one level up and keeps the higher selections. */
  lemma BackToParent(files: map<string, seq<Record>>, s: NavState)
    requires WellFormed(s) && Level(s) != YearChart && VisibleFigure(files, s).Some?
    ensures var o := Navigation(files, Clicked(Level(s), Some(VisibleFigure(files, s).value.labels[0])), s);
      o.Update? && o.state == Parent(s) && ShowsOnly(o.styles, Level(Parent(s)))
  {
  }

  /** Drilling down with a click and then clicking the new chart's root label restores the selection. */
  lemma DrillDownThenBack(files: map<string, seq<Record>>, s: NavState, t: Trigger)
    requires WellFormed(s) && ClickOnVisibleChart(files, s, t)
    requires Navigation(files, t, s).Update?
    requires Level(Navigation(files, t, s).state) != YearChart && Parent(Navigation(files, t, s).state) == s
    ensures var s' := Navigation(files, t, s).state;
      var back := Navigation(files, Clicked(Level(s'), Some(VisibleFigure(files, s').value.labels[0])), s');
      back.Update? && back.state == s && ShowsOnly(back.styles, Level(s))
  {
  }

  /** Every click on the visible chart that changes the level goes down one level or up one level. */
  lemma ClicksMoveOneLevel(files: map<string, seq<Record>>, s: NavState, t: Trigger)
    requires WellFormed(s) && ClickOnVisibleChart(files, s, t)
    requires Navigation(files, t, s).Update?
    ensures var s' := Navigation(files, t, s).state;
      Parent(s') == s || s' == Parent(s)
  {
  }
}
