# Weather dashboard: treemap navigator, disaster map controller, auth gate

A Dafny model of the three places in the weather dashboard where the code keeps state and makes
promises about it.

- **Treemap drill-down** (`treemap.dfy`, module `Treemap`). The treemaps page has four charts:
  the years, the months of a year, the cities of a month, and the disasters of a city in a month.
  Exactly one chart is visible at a time. A click handler (`Navigation`) takes the chart that
  fired, the clicked label and the stored selection (year, month, city). It returns one of three
  things: the new selection with the four figures and the four display styles; no update; or a
  failed table read. The figure builders are functions over the year tables. The tables are passed
  in as a map from file stem to rows.
- **Disaster map** (`disaster_map.dfy`, module `DisasterMap`). This covers:
  - loading every year file 2026 to 2030 into one table with a derived `Month_num`;
  - the play/pause toggle and its button text;
  - the month timer, which wraps December to January;
  - the blink opacity;
  - the markers, one per city with coordinates, with one hover block per disaster row;
  - the viewport precedence rule.

  The two loops of the source are methods proved against specification functions: `LoadDisasterData`
  and `UpdateMap`, with `BuildHoverText` for the inner loop. `Controls` and `Step` tie the callbacks
  together with the timers: a press, a month tick or a blink tick is one event.
- **App shell** (`app.dfy`, module `App`). The user store is a class whose `users` map is
  updated in place by `Auth`. `AuthStep` is the handler as a function, and the method is proved
  equal to it. `RenderPage` maps (session, path) to a page.

`util.dfy` holds the shared helpers: `Option`, `Filter`, `Unique` (pandas `unique()`: first
occurrence order), `Join`, `Pad2` (the `:02d` format) and `DigitsValue` (`int()` of a digit
string). It also holds the `Record` row type.

## Model

| member | source | states |
|---|---|---|
| `Util.Unique` | treemap_app.py:59 | the distinct values of a column: no duplicates, the same elements as the input, and the first value first |
| `Util.UniqueInFirstAppearanceOrder` | treemap_app.py:59 | `unique()` lists the values in order of first appearance: a value listed earlier first occurs earlier in the column |
| `Util.Filter` | treemap_app.py:58 | a boolean-mask row filter keeps exactly the rows that satisfy the mask and no more rows than it was given |
| `Util.FilterCount` | treemap_app.py:58 | every row satisfying the mask is kept as often as it occurs; every other row is dropped |
| `Util.FilterAppend` | treemap_app.py:73 | filtering a concatenation is the concatenation of the filtered parts, so kept rows stay in table order |
| `Util.Pad2` | treemap_app.py:45 | `{i:02d}` gives exactly two characters, and they read back as `i` |
| `Util.Join` | rr.py:169 | a join of no parts is empty; a join starts with its first part; its length is the total length of the parts plus one separator between each two |
| `Util.JoinAppend` | rr.py:169 | appending a part to a non-empty list appends the separator and then that part, so the parts follow in order with `sep` between each two |
| `Util.DigitsValueIsPositional` | rr.py:54 | `astype(int)` of a digit string is its positional decimal value: each digit weighted by ten to the number of digits after it |
| `Treemap.YearTreemap` | treemap_app.py:33-41 | the top level lists exactly the five available years, each top-level, each weighted 1 |
| `Treemap.MonthTreemap` | treemap_app.py:44-53 | 13 labels: the year as root, then `year-01` … `year-12` in calendar order, each a child of the year, all weights 1 |
| `Treemap.MonthTreemapLabelsDistinct` | treemap_app.py:45-48 | the 13 labels of a month level are pairwise different |
| `Treemap.MonthLabelIsNotAYear` | treemap_app.py:145-151 | no month label of an available year is itself an available year, so a click on a month never counts as "back" |
| `Treemap.CityTreemap` | treemap_app.py:56-68 | exists exactly when the year's table exists; the month is the root; the children are distinct; a city is a child exactly when some row of that month names it |
| `Treemap.DisasterTreemap` | treemap_app.py:71-77 | exists exactly when the year's table exists; the city is the root, with one leaf per matching row, in table order, labelled with that row's disaster |
| `Treemap.ShowsOnlyExactlyOne` | treemap_app.py:132-133 | a styles tuple that shows chart c sets c to "block" and each of the other three to "none" |
| `Treemap.Navigation` | treemap_app.py:128-172 | with no trigger: cleared selection, only the year chart shown, year figure built; every update shows exactly one chart and that chart holds a treemap; a click with empty click data is no update |
| `Treemap.YearClick` | treemap_app.py:138-141 | a year click with label Y yields selection (Y, None, None) and shows only the month chart |
| `Treemap.MonthClick` | treemap_app.py:144-151 | a month click on an available year clears all three and shows the year chart. Any other label, with the year's table present, keeps the year, sets the month, clears the city and shows the city chart; with the table missing it is a read failure |
| `Treemap.CityClick` | treemap_app.py:154-162 | a city click on the selected month clears month and city and shows the month chart. Any other label, with the table present, keeps year and month, sets the city and shows the disaster chart; with the table missing it is a read failure |
| `Treemap.DisasterClick` | treemap_app.py:165-172 | a disaster click on the selected city, with the table present, clears only the city and shows the city chart; with the table missing it is a read failure. Any other disaster click is no update |
| `Treemap.NavigationKeepsWellFormed` | treemap_app.py:128-172 | a click on a label of the visible chart keeps the selection well formed: set fields form a prefix, the year is available, the month belongs to that year. The visible chart is then the new selection's level, and it holds that selection's figure. Only a disaster leaf is ignored |
| `Treemap.MonthClickKeepsWellFormed` | treemap_app.py:144-151 | the month-level case of the invariant: a clicked month label is `year-MM` for some MM in 1..12 |
| `Treemap.BackToParent` | treemap_app.py:143-170 | clicking the root label of the visible chart goes exactly one level up and keeps the higher selections |
| `Treemap.DrillDownThenBack` | treemap_app.py:137-170 | a drill-down click followed by a click on the new chart's root restores the earlier selection and its chart |
| `Treemap.ClicksMoveOneLevel` | treemap_app.py:137-170 | every update from a click on the visible chart moves exactly one level down or one level up |
| `DisasterMap.SecondField` | rr.py:54 | `split("-")[1]` exists exactly when there is a dash, and is dash-free |
| `DisasterMap.SecondFieldSplits` | rr.py:54 | when there is a dash, the text is the first field, a dash, the second field, then either nothing or a dash |
| `DisasterMap.SecondFieldOf` | rr.py:54 | for a dash-free first field `a`, a dash-free `f` and a rest that is empty or starts with a dash, the second field of `a-f…` is `f` |
| `DisasterMap.ParseMonthNumFails` | rr.py:54 | the `Month_num` cast raises exactly when the Month has no dash or its second field is not a non-empty run of digits |
| `DisasterMap.ParseMonthNumOfField` | rr.py:54 | the `Month_num` of `y-f`, with `y` and `f` dash-free, is `f` read as a decimal number |
| `DisasterMap.MonthNumOfLabel` | rr.py:54 | `Month_num` of a label `YYYY-MM` is MM as an integer |
| `DisasterMap.TagRows` | rr.py:53-54 | tagging a year file succeeds exactly when every Month parses; each row keeps its record and gets that year and its parsed month |
| `DisasterMap.LoadFailsIffBadMonth` | rr.py:47-58 | the load raises exactly when an existing year file has a Month that does not parse |
| `DisasterMap.LoadedRowsComeFromTheirFile` | rr.py:49-55 | every loaded row comes from an existing file of a year in 2026..2030 and carries that year; its `Month_num` is its Month parsed |
| `DisasterMap.LoadedRowCount` | rr.py:49-58 | the loaded table has as many rows as the existing year files together |
| `DisasterMap.LoadReadsOnlyItsYears` | rr.py:49-51 | files of years outside 2026..2030 do not change the result |
| `DisasterMap.MissingYearSkipped` | rr.py:50-51 | a missing year file is skipped: the load gives the same result as with an empty file for that year |
| `DisasterMap.LoadDisasterData` | rr.py:47-58 | the loop over the years builds exactly the table `LoadYears` specifies, including the failure |
| `DisasterMap.TogglePlay` | rr.py:106-107 | a truthy click count flips `disabled`; a zero or missing count leaves it unchanged |
| `DisasterMap.ButtonLabel` | rr.py:113-114 | the button reads "Play" exactly when the timer is disabled and "Pause" exactly when it runs |
| `DisasterMap.AdvanceMonth` | rr.py:121-122 | from a month in 1..12 the result stays in 1..12 and is the next month cyclically; any other value is incremented |
| `DisasterMap.AdvanceByCycles` | rr.py:121-122 | k ticks from month m give `(m - 1 + k) % 12 + 1` |
| `DisasterMap.TwelveTicksReturn` | rr.py:121-122 | twelve ticks return to the starting month |
| `DisasterMap.OpacityFor` | rr.py:133 | full opacity exactly when the blink count is even |
| `DisasterMap.BlinkAlternates` | rr.py:133 | consecutive blink counts give different opacities |
| `DisasterMap.RunKeepsValid` | rr.py:99-122 | any sequence of presses and ticks keeps the slider in 1..12 |
| `DisasterMap.InitialControlsPaused` | rr.py:84-95 | the page starts with the month timer disabled, the button reading "Play" and the slider at 1; every sequence of events from there keeps the slider in 1..12 |
| `DisasterMap.StepEffects` | rr.py:104-133 | a press flips play/pause and the button text; a month tick moves the month only while playing; a blink tick changes only the blink count and always flips the opacity |
| `DisasterMap.HoverBlocks` | rr.py:151-159 | one hover block per row, in row order, each built from that row |
| `DisasterMap.HoverText` | rr.py:151-169 | the hover text is empty exactly when the city has no rows |
| `DisasterMap.MarkersAt` | rr.py:145-171 | every marker's city is a candidate with coordinates, and the marker sits at those coordinates with its rows' hover text and the current opacity; there are no more markers than candidates |
| `DisasterMap.MarkersCoverCandidates` | rr.py:145-147 | every candidate with coordinates gets a marker |
| `DisasterMap.MarkersDistinct` | rr.py:145-171 | distinct candidates give markers for distinct cities |
| `DisasterMap.BuildHoverText` | rr.py:150-169 | the append loop followed by the `<br>` join yields the city's hover text |
| `DisasterMap.UpdateMap` | rr.py:132-191 | the loop over the candidate cities emits exactly the markers `MarkersAt` specifies for the city coordinate table; the view is the precedence rule's |
| `DisasterMap.AllCitiesMarkers` | rr.py:136-147 | with "All", there is a marker for a city exactly when it has coordinates and a row in the selected year and month; no city gets two |
| `DisasterMap.SelectedCityMarker` | rr.py:139-171 | with a named city there is exactly one marker if the city has coordinates, none otherwise; its hover text is empty exactly when no row matches |
| `DisasterMap.Viewport` | rr.py:173-182 | a named city with coordinates gives its coordinate at zoom 5. Otherwise a reported centre is kept, with the reported zoom or 1. Otherwise centre (0, 0) at zoom 1 |
| `DisasterMap.ViewRetainedAcrossRenders` | rr.py:177-179 | with "All", a view reported by the map is reproduced exactly on the next render |
| `DisasterMap.CityOverridesRelayout` | rr.py:174-176 | a named city with coordinates makes the view independent of whatever the map reported |
| `App.AuthStep` | app.py:136-154 | a missing email or password changes nothing and says "Enter email & password", before the button is looked at. A signup with a known email says "User already exists" and keeps the stored password. A signup with a new email adds exactly that entry and logs in. A login with both fields present succeeds exactly when the email is stored with that password: it logs that email in and says "Login successful!". Otherwise it says "Invalid login" and leaves the session unchanged. Any other trigger changes nothing and gives an empty message. The store never loses or changes an entry |
| `App.UserStore.constructor` | app.py:12 | the store starts empty |
| `App.UserStore.Auth` | app.py:136-154 | the handler updates the store in place and returns the session and message, exactly as `AuthStep` says |
| `App.SignupThenLogin` | app.py:143-152 | after a signup, a second signup with that email fails without replacing the password; a login with its password succeeds; a login with any other password fails |
| `App.RenderPage` | app.py:103-122 | not logged in: the login page for every path. Logged in: the route table's page, and home for an unknown path |
| `App.LoginPageOnlyOnLogout` | app.py:119-120 | a logged-in user sees the login page for "/logout" and for no other path |
| `App.NavbarReachesEveryPage` | app.py:36-51 | the navigation links lead to pairwise different pages and together reach every page |

## Left out

- Plotting and styling: figure titles, margins, colours, hover templates, marker size, text
  position, the map style. The disaster treemap's severity colours and `customdata` are not
  modelled. Only labels, parents, values, marker positions, hover text and opacity are kept.
- Dash plumbing: callback registration, the `callback_context` trigger parsing (modelled as a
  `Trigger` or `Button` value), the stores, `dcc.Location`, layouts and the navbar's markup (only
  its hrefs are kept). Dash's first call of a callback at page load is modelled only for the treemap handler, as the
  `NoTrigger` case of `Treemap.Navigation`. For the map page it is not modelled. That includes the
  call of `advance_month` with `n_intervals = 0`, which moves the slider from 1 to 2.
- File I/O: each year table is a parameter. In the treemap it is a map from file stem to rows. In
  the map it is a map from year to rows. `read_csv` failing on a missing file is modelled as
  `ReadFailure`. Other read errors are not modelled.
- Timers: interval periods are not modelled. A tick is one event, and a disabled month timer
  produces none.
- Floats: coordinates are the table's decimal constants as reals. Opacity is the enum
  `Full`/`Dimmed` (1 and 0.2). The Scale and Value columns are kept as the text they print as, so
  number formatting is not modelled.
- `Treemap.Navigation`: a missing year or month is shown as the text "None" wherever it is formatted
  into a file name or label. The source passes `None` itself as a label.
- `DisasterMap.ParseMonthNum`: only fields of ASCII digits parse. Python's `int` also accepts
  surrounding whitespace, a leading `+` and `_` separators.
- `DisasterMap.LoadDisasterData`: when no year file exists, the source returns a DataFrame with no
  columns, and later column lookups on it raise. The model returns an empty table.
- `App.AuthStep`: a missing (`None`) email or password and an empty one are both written `""`.
  Password security and `app.run` are out of scope.
- The bar chart, pie chart and 3D plot pages are not part of this model. They are library calls
  with no state of their own.
