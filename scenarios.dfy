/** Worked cases of the resolver on small tables. */
module Scenarios {
  import opened Wrappers
  import opened Calendar
  import opened Maturities
  import opened CurveResolver
  import opened CurveProperties

  /** A row with every maturity present: yield `base + k` in column k. */
  function FullRow(base: Yield): (row: Row)
    ensures forall k :: 0 <= k < Width ==> row[k] == Some(base + k)
  {
    seq(Width, k requires 0 <= k < Width => Some(base + k))
  }

  /** A full row plots all eleven maturities in order. */
  lemma FullRowPlotsEveryMaturity(base: Yield)
    ensures PlotSet(FullRow(base)) == [
      CurvePoint(1, base), CurvePoint(3, base + 1), CurvePoint(6, base + 2), CurvePoint(12, base + 3),
      CurvePoint(24, base + 4), CurvePoint(36, base + 5), CurvePoint(60, base + 6), CurvePoint(84, base + 7),
      CurvePoint(120, base + 8), CurvePoint(240, base + 9), CurvePoint(360, base + 10)]
  {
    DropAbsentKeepsEverythingPresent(ColumnMonths(), FullRow(base));
  }

  /** A gap day (2024-01-03) shows the day before it, not flagged exact, with all eleven points. */
  lemma GapDayShowsPreviousDay()
    ensures var series := [Observation(Date(2024, 1, 2), FullRow(500)), Observation(Date(2024, 1, 4), FullRow(400))];
      Resolve(series, Date(2024, 1, 3)) == Curve(Date(2024, 1, 2), false, [
        CurvePoint(1, 500), CurvePoint(3, 501), CurvePoint(6, 502), CurvePoint(12, 503),
        CurvePoint(24, 504), CurvePoint(36, 505), CurvePoint(60, 506), CurvePoint(84, 507),
        CurvePoint(120, 508), CurvePoint(240, 509), CurvePoint(360, 510)])
  {
    var series := [Observation(Date(2024, 1, 2), FullRow(500)), Observation(Date(2024, 1, 4), FullRow(400))];
    assert AvailableDates(series) == [Date(2024, 1, 2), Date(2024, 1, 4)];
    assert ResolveDate(series, Date(2024, 1, 3)) == Some(Target(Date(2024, 1, 2), false));
    assert LastIndexOn(series, Date(2024, 1, 2)) == 0;
    FullRowPlotsEveryMaturity(500);
  }

  /** A request before the first day (2020-01-02) is a dead end naming the request. */
  lemma RequestBeforeDataIsDeadEnd()
    ensures var series := [Observation(Date(2020, 1, 2), FullRow(150)), Observation(Date(2020, 1, 3), FullRow(160))];
      Resolve(series, Date(2019, 12, 31)) == NoDateOnOrBefore(Date(2019, 12, 31))
  {
  }

  /** A row with only the 10- and 30-year yields published. */
  const TenAndThirtyOnly: Row := [None, None, None, None, None, None, None, None, Some(415), None, Some(437)]

  /** Such a row plots just its two published maturities. */
  lemma TenAndThirtyOnlyPlotsTwoPoints()
    ensures PlotSet(TenAndThirtyOnly) == [CurvePoint(120, 415), CurvePoint(360, 437)]
  {
    var ms := ColumnMonths();
    assert DropAbsent(ms[10..], TenAndThirtyOnly[10..]) == [CurvePoint(360, 437)];
    assert DropAbsent(ms[9..], TenAndThirtyOnly[9..]) == [CurvePoint(360, 437)];
    assert DropAbsent(ms[8..], TenAndThirtyOnly[8..]) == [CurvePoint(120, 415), CurvePoint(360, 437)];
    assert DropAbsent(ms[7..], TenAndThirtyOnly[7..]) == [CurvePoint(120, 415), CurvePoint(360, 437)];
    assert DropAbsent(ms[6..], TenAndThirtyOnly[6..]) == [CurvePoint(120, 415), CurvePoint(360, 437)];
    assert DropAbsent(ms[5..], TenAndThirtyOnly[5..]) == [CurvePoint(120, 415), CurvePoint(360, 437)];
    assert DropAbsent(ms[4..], TenAndThirtyOnly[4..]) == [CurvePoint(120, 415), CurvePoint(360, 437)];
    assert DropAbsent(ms[3..], TenAndThirtyOnly[3..]) == [CurvePoint(120, 415), CurvePoint(360, 437)];
    assert DropAbsent(ms[2..], TenAndThirtyOnly[2..]) == [CurvePoint(120, 415), CurvePoint(360, 437)];
    assert DropAbsent(ms[1..], TenAndThirtyOnly[1..]) == [CurvePoint(120, 415), CurvePoint(360, 437)];
    assert DropAbsent(ms[0..], TenAndThirtyOnly[0..]) == [CurvePoint(120, 415), CurvePoint(360, 437)];
    assert ms[0..] == ms && TenAndThirtyOnly[0..] == TenAndThirtyOnly;
  }

  /** Requesting that day shows it as is, with a two-point curve. */
  lemma PartialDayShowsTwoPoints()
    ensures Resolve([Observation(Date(2024, 3, 1), TenAndThirtyOnly)], Date(2024, 3, 1))
      == Curve(Date(2024, 3, 1), true, [CurvePoint(120, 415), CurvePoint(360, 437)])
  {
    var series := [Observation(Date(2024, 3, 1), TenAndThirtyOnly)];
    assert AvailableDates(series) == [Date(2024, 3, 1)];
    ExactDateIsShown(series, Date(2024, 3, 1));
    LastDuplicateRowWins(series, Date(2024, 3, 1), 0);
    TenAndThirtyOnlyPlotsTwoPoints();
  }

  /** A later day with nothing published is an empty curve naming the day found. */
  lemma BlankRowIsEmptyCurve()
    ensures var row: Row := [None, None, None, None, None, None, None, None, None, None, None];
      Resolve([Observation(Date(2024, 3, 1), row)], Date(2024, 3, 4)) == EmptyCurve(Date(2024, 3, 1))
  {
  }

  /** Two rows for one day: the later row is the one plotted. */
  lemma RepeatedDayUsesLaterRow()
    ensures var series := [Observation(Date(2024, 5, 6), FullRow(300)), Observation(Date(2024, 5, 6), FullRow(700))];
      Resolve(series, Date(2024, 5, 6)) == Curve(Date(2024, 5, 6), true, PlotSet(FullRow(700)))
  {
  }
}
