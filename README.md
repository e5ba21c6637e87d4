# U.S. Treasury yield curve resolver

A Dafny model of the logic inside the U.S. Treasury Yield Curve Analyzer, a
Streamlit application. The application fetches eleven daily Treasury yield
series from FRED into a table with one row per trading day and one column per
maturity. The user picks a date, and the application plots that day's yield
curve: yield against maturity.

The model covers these parts of the application:

- **Maturity configuration** (`maturities.dfy`). This is the ordered table of
  maturity labels with their FRED series identifiers, plus the label-to-maturity
  map. Maturities are whole months (1, 3, 6, 12, 24, 36, 60, 84, 120, 240, 360),
  where the application uses fractional years.
- **Curve resolver** (`resolver.dfy`, with its properties in `properties.dfy`).
  `Resolve(series, requested)` is a pure function with four outcomes:
  - `NoData`: the table is empty.
  - `NoDateOnOrBefore(requested)`: the table has no day on or before the request.
  - `EmptyCurve(date)`: a day was found, but its row has no yield.
  - `Curve(date, exact, points)`: a day was found and has yields to plot.

  The day shown is the requested day when the table has it. Otherwise it is the
  latest earlier day. When a day has several rows, the last one is used. The
  plotted points are that row's present yields, each paired with its column's
  maturity, in column order.
- **Date picker** (`picker.dfy`). With data, the picker's range runs from the
  table's first day to its last day, and the picker starts on the last day.
  Without data, the range is 2000-01-01 to today.
- **Worked cases** (`scenarios.dfy`). These cover a gap day, a request before
  the data starts, a partly published day, a blank day and a repeated day.

Dates are `(year, month, day)` values in calendar order (`calendar.dfy`). A
yield cell is `Option<int>`: `None` stands for a missing value (NaN in the
table). The integer is the yield in hundredths of a percent. A series is a
sequence of dated rows in delivery order. Dates may repeat, and the series
need not be sorted. Each row has exactly the eleven columns. `Resolve` is a
function of its two arguments only, so two calls with the same table and date
give the same outcome.

The code handles repeated dates: it takes the last row of a repeated date. The
model follows the code on this point. It does not assume that dates are unique.

## Model

| member | source | states |
|---|---|---|
| Maturities.Columns | app.py:16-35 | The table has eleven column labels, none of them twice. Every label has a maturity, so the lookup that pairs labels with maturities never fails. Column k carries the k-th label and holds the k-th requested FRED series. |
| Maturities.RequestedSeries | app.py:16-20 | Eleven FRED identifiers are requested, one per maturity, none of them twice, in declaration order. |
| Maturities.ColumnMonths | app.py:22-26 | In column order, the maturities are 1, 3, 6, 12, 24, 36, 60, 84, 120, 240 and 360 months: the year values times twelve. They strictly increase, so column order is maturity order. |
| CurveResolver.DatesOnOrBefore | app.py:104 | A date survives the mask exactly when it is available and falls on or before the request. |
| CurveResolver.Latest | app.py:109 | The maximum is one of the dates, and no date is later than it. |
| CurveResolver.Earliest | app.py:53 | The minimum is one of the dates, and no date is earlier than it. |
| CurveResolver.ResolveDate | app.py:101-114 | An available request resolves to itself, flagged exact. Otherwise the result is the latest available day on or before the request, flagged inexact. The result is None exactly when every available day is after the request. |
| CurveResolver.LastIndexOn | app.py:117-120 | The chosen row carries the date, and no later row carries it. |
| CurveResolver.DropAbsent | app.py:122-125 | Dropping missing values never lengthens the sequence. |
| CurveResolver.DropAbsentKeepsOnlyPresent | app.py:122-125 | Every kept point is a present value paired with its own position's maturity. |
| CurveResolver.DropAbsentKeepsAllPresent | app.py:122-125 | Every present value is kept, paired with its position's maturity. |
| CurveResolver.DropAbsentKeepsEverythingPresent | app.py:122-125 | With no missing value, nothing is dropped, and point k is maturity k paired with value k. |
| CurveResolver.DropAbsentKeepsOrder | app.py:122-125 | Increasing maturities stay increasing after missing values are dropped. |
| CurveResolver.PlotSet | app.py:122-125 | A row gives at most eleven points, strictly increasing in maturity. |
| CurveResolver.Resolve | app.py:91-129 | The outcome is NoData exactly when the table is empty. It is NoDateOnOrBefore, naming the request, exactly when every day of a non-empty table is after the request. Otherwise the outcome's day is in the table, falls on or before the request, and no table day between the two is skipped. A Curve has points, and it is flagged exact exactly when its day is the request. |
| CurveProperties.ExactDateIsShown | app.py:103-114 | A requested day that the table has is shown as is: either an empty curve naming it, or an exact curve on it. |
| CurveProperties.NearestEarlierDateIsShown | app.py:103-110 | A requested day missing from the table, with an earlier day present, shows the maximum of the earlier days. That day is in the table and before the request, no table day falls strictly between the two, and the curve is not flagged exact. |
| CurveProperties.RequestBeforeFirstDateFindsNothing | app.py:104-107 | A request before a non-empty table's first day gives NoDateOnOrBefore naming the request. |
| CurveProperties.RequestAfterLastDateShowsLastDate | app.py:104-110 | A request after the table's last day shows the last day, not flagged exact. |
| CurveProperties.LastRowIsUnique | app.py:117-120 | Only one row can be the last row with a given date. |
| CurveProperties.LastDuplicateRowWins | app.py:117-125 | The shown points are the plot set of the last row with the shown date: among repeated rows, the later one wins. |
| CurveProperties.ColumnMonthsInjective | app.py:22-26 | Different columns have different maturities. |
| CurveProperties.PlotSetHoldsPresentYields | app.py:122-125 | The plot set holds exactly the present yields, each paired with its column's maturity. A missing yield has no point at its maturity: it is dropped, not filled with zero. |
| CurveProperties.PlotSetIncreasesInMaturity | app.py:16-26 | The plot set strictly increases in maturity, so no maturity appears twice. |
| CurveProperties.PlotSetEmptyIffNoYields | app.py:125-127 | A row's plot set is empty exactly when the row has no yield. |
| CurveProperties.EmptyCurveIffNoYields | app.py:116-129 | Once a day is found, the outcome names that day. It is an empty curve exactly when the day's last row has no yield, and a curve otherwise. |
| DatePicker.PickerBounds | app.py:48-54 | An empty table gives the range 2000-01-01 to today. A non-empty table gives a range from its earliest to its latest day, both of them days of the table. |
| DatePicker.DefaultSelection | app.py:67-73 | The picker starts on a day of a non-empty table, and no day of the table is later (today when the table is empty). |
| DatePicker.PickedDateFindsADay | app.py:67-110 | With data, every date inside the picker's range resolves to a day: the dead-end outcome is unreachable from the picker. |
| DatePicker.DefaultSelectionIsExact | app.py:67-114 | The initial selection shows the table's last day, flagged exact. |
| Scenarios.FullRowPlotsEveryMaturity | app.py:122-125 | A row with every yield present plots all eleven maturities, in order. |
| Scenarios.GapDayShowsPreviousDay | app.py:103-125 | Rows exist for 2024-01-02 and 2024-01-04, and 2024-01-03 is requested. The result is an inexact curve for 2024-01-02 with eleven points. |
| Scenarios.RequestBeforeDataIsDeadEnd | app.py:104-107 | The data starts on 2020-01-02, and 2019-12-31 is requested. The result is NoDateOnOrBefore(2019-12-31). |
| Scenarios.TenAndThirtyOnlyPlotsTwoPoints | app.py:122-125 | A row with only the 10- and 30-year yields plots just (120, 10-year yield) and (360, 30-year yield). |
| Scenarios.PartialDayShowsTwoPoints | app.py:111-125 | Requesting such a day gives an exact two-point curve. |
| Scenarios.BlankRowIsEmptyCurve | app.py:127-129 | A later request resolving to a day with no yield gives an empty curve naming that day. |
| Scenarios.RepeatedDayUsesLaterRow | app.py:117-120 | When two rows share the requested day, the outcome is an exact curve on that day built from the second row. |

## Left out

- Fetching from FRED (`get_yield_data`) is left out because it is network I/O through a library outside the model. The table is a parameter and may be empty. The model assumes, as the renaming of the columns does, that FRED returns the series in the order requested.
- Streamlit's result caching is left out because it is framework memoisation. It does affect results: a failed fetch returns an empty table, and that empty table is cached for the fetch interval, so every rerun shows NoData without fetching again. The model takes the table as a parameter that may be empty, so it covers that outcome but not the caching itself.
- The widgets, status messages, sidebar text and the Plotly figure are left out because they are UI. The outcome variants carry what the messages name: the requested date or the resolved date. The dead-end message asks for an earlier date, although only a later date could help. This affects message text only and is not modelled.
- The y-axis range (0.9 × minimum to 1.1 × maximum yield) is left out because it is floating-point arithmetic.
- Maturities are whole months rather than fractional years. This is an exact rescaling by 12, so order and distinctness carry over.
- Yields are integers (hundredths of a percent) rather than floats. A missing value is `None` instead of NaN.
- The fetch window (five years up to yesterday) is left out because it depends on the wall clock. `today` is a parameter of `PickerBounds`.
- The conversion of a picked `datetime` to a `date` is left out because it is a runtime type adjustment with no logical content. Table timestamps are modelled as plain dates.
