/** What the curve resolver guarantees about the day it shows and the points it plots. */
module CurveProperties {
  import opened Wrappers
  import opened Calendar
  import opened Maturities
  import opened CurveResolver

  /** A requested date the table has is shown as is, flagged exact. */
  lemma ExactDateIsShown(series: Series, requested: Date)
    requires requested in AvailableDates(series)
    ensures var r := Resolve(series, requested);
      || r == EmptyCurve(requested)
      || (r.Curve? && r.date == requested && r.exact)
  {
  }

  /**
   * A requested date the table lacks, with some earlier day in the table, is
   * replaced by the latest earlier day: a day of the table, before the request,
   * with no day of the table strictly in between, and not flagged exact.
   */
  lemma NearestEarlierDateIsShown(series: Series, requested: Date)
    requires requested !in AvailableDates(series)
    requires exists x :: x in AvailableDates(series) && OnOrBefore(x, requested)
    ensures var r := Resolve(series, requested);
      && (r.EmptyCurve? || (r.Curve? && !r.exact))
      && r.date == Latest(DatesOnOrBefore(AvailableDates(series), requested))
      && r.date in AvailableDates(series)
      && Before(r.date, requested)
      && forall x :: x in AvailableDates(series) ==> !(Before(r.date, x) && Before(x, requested))
  {
  }

  /** A request earlier than every day of a non-empty table is a dead end naming the request. */
  lemma RequestBeforeFirstDateFindsNothing(series: Series, requested: Date)
    requires series != []
    requires Before(requested, Earliest(AvailableDates(series)))
    ensures Resolve(series, requested) == NoDateOnOrBefore(requested)
  {
  }

  /** A request later than every day of the table shows the table's last day, not flagged exact. */
  lemma RequestAfterLastDateShowsLastDate(series: Series, requested: Date)
    requires series != []
    requires Before(Latest(AvailableDates(series)), requested)
    ensures var r := Resolve(series, requested);
      && (r.EmptyCurve? || (r.Curve? && !r.exact))
      && r.date == Latest(AvailableDates(series))
  {
  }

  /** Only one row can be the last row with a given date. */
  lemma LastRowIsUnique(series: Series, i: int, j: int, d: Date)
    requires LastRowOn(series, i, d) && LastRowOn(series, j, d)
    ensures i == j
  {
  }

  /**
   * The points shown come from the last row carrying the shown date, so among
   * rows with a repeated date the later one wins.
   */
  lemma LastDuplicateRowWins(series: Series, requested: Date, i: int)
    requires Resolve(series, requested).Curve? || Resolve(series, requested).EmptyCurve?
    requires LastRowOn(series, i, Resolve(series, requested).date)
    ensures var r := Resolve(series, requested);
      PlotSet(series[i].row) == if r.Curve? then r.points else []
  {
    var r := Resolve(series, requested);
    var t := ResolveDate(series, requested).value;
    LastRowIsUnique(series, i, LastIndexOn(series, t.date), t.date);
  }

  /** The maturities of the columns are pairwise distinct. */
  lemma ColumnMonthsInjective()
    ensures forall i, j :: 0 <= i < Width && 0 <= j < Width && ColumnMonths()[i] == ColumnMonths()[j] ==> i == j
  {
  }

  /**
   * A row's plot set holds exactly its present yields, each paired with its
   * column's maturity; a missing yield is dropped, never filled in.
   */
  lemma PlotSetHoldsPresentYields(row: Row)
    ensures var ps := PlotSet(row);
      && (forall k :: 0 <= k < Width && row[k].Some? ==> CurvePoint(ColumnMonths()[k], row[k].value) in ps)
      && (forall k :: 0 <= k < Width && row[k].None? ==> forall p :: p in ps ==> p.months != ColumnMonths()[k])
      && (forall p :: p in ps ==> exists k :: 0 <= k < Width && p.months == ColumnMonths()[k] && row[k] == Some(p.percent))
  {
    var ps := PlotSet(row);
    ColumnMonthsInjective();
    DropAbsentKeepsOnlyPresent(ColumnMonths(), row);
    DropAbsentKeepsAllPresent(ColumnMonths(), row);
    forall k, p | 0 <= k < Width && row[k].None? && p in ps ensures p.months != ColumnMonths()[k] {
      var k' :| 0 <= k' < Width && ColumnMonths()[k'] == p.months && row[k'] == Some(p.percent);
    }
  }

  /** A plot set is strictly increasing in maturity, so no maturity appears twice. */
  lemma PlotSetIncreasesInMaturity(row: Row)
    ensures var ps := PlotSet(row);
      && IncreasingInMaturity(ps)
      && (forall i, j :: 0 <= i < |ps| && 0 <= j < |ps| && i != j ==> ps[i].months != ps[j].months)
  {
    var ps := PlotSet(row);
    forall i, j | 0 <= i < |ps| && 0 <= j < |ps| && i != j ensures ps[i].months != ps[j].months {
      if i < j {
        assert ps[i].months < ps[j].months;
      } else {
        assert ps[j].months < ps[i].months;
      }
    }
  }

  /** A row's plot set is empty exactly when the row has no yield at all. */
  lemma PlotSetEmptyIffNoYields(row: Row)
    ensures PlotSet(row) == [] <==> forall k :: 0 <= k < Width ==> row[k].None?
  {
    PlotSetHoldsPresentYields(row);
    if PlotSet(row) != [] {
      assert PlotSet(row)[0] in PlotSet(row);
    }
  }

  /**
   * Once a day is found, the outcome names that day, and it is an empty curve
   * exactly when the last row of that day has no yield at all.
   */
  lemma EmptyCurveIffNoYields(series: Series, requested: Date, i: int)
    requires ResolveDate(series, requested).Some?
    requires LastRowOn(series, i, ResolveDate(series, requested).value.date)
    ensures var r := Resolve(series, requested);
      && (r.EmptyCurve? || r.Curve?)
      && r.date == ResolveDate(series, requested).value.date
      && (r.EmptyCurve? <==> forall k :: 0 <= k < Width ==> series[i].row[k].None?)
  {
    var t := ResolveDate(series, requested).value;
    assert t.date in AvailableDates(series);
    LastRowIsUnique(series, i, LastIndexOn(series, t.date), t.date);
    PlotSetEmptyIffNoYields(series[i].row);
  }
}
