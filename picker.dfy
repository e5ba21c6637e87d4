/**
 * The date picker's range and initial value. With data the range is the
 * table's first to last day and the picker starts on the last day; without
 * data it falls back to 2000-01-01 through today.
 */
module DatePicker {
  import opened Calendar
  import opened CurveResolver

  /** Lower bound of the picker when nothing was fetched. */
  const FallbackFirstDate := Date(2000, 1, 1)

  datatype Bounds = Bounds(first: Date, last: Date)

  /** The picker's range; `today` is the wall-clock date, passed in. */
  function PickerBounds(series: Series, today: Date): (b: Bounds)
    ensures series == [] ==> b == Bounds(FallbackFirstDate, today)
    ensures series != [] ==>
      && b.first in AvailableDates(series)
      && b.last in AvailableDates(series)
      && forall x :: x in AvailableDates(series) ==> OnOrBefore(b.first, x) && OnOrBefore(x, b.last)
  {
    if series == [] then Bounds(FallbackFirstDate, today)
    else Bounds(Earliest(AvailableDates(series)), Latest(AvailableDates(series)))
  }

  /** The date the picker starts on: the upper end of its range. */
  function DefaultSelection(series: Series, today: Date): (d: Date)
    ensures series == [] ==> d == today
    ensures series != [] ==> d in AvailableDates(series)
    ensures forall x :: x in AvailableDates(series) ==> OnOrBefore(x, d)
  {
    PickerBounds(series, today).last
  }

  /** Every date the picker lets through resolves to a day of a non-empty table. */
  lemma PickedDateFindsADay(series: Series, today: Date, picked: Date)
    requires series != []
    requires OnOrBefore(PickerBounds(series, today).first, picked)
    requires OnOrBefore(picked, PickerBounds(series, today).last)
    ensures Resolve(series, picked).EmptyCurve? || Resolve(series, picked).Curve?
  {
  }

  /** The initial selection is shown as is: the table's last day, flagged exact. */
  lemma DefaultSelectionIsExact(series: Series, today: Date)
    requires series != []
    ensures var r := Resolve(series, DefaultSelection(series, today));
      || r == EmptyCurve(Latest(AvailableDates(series)))
      || (r.Curve? && r.date == Latest(AvailableDates(series)) && r.exact)
  {
  }
}
