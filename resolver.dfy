/**
 * The curve resolver: given the fetched yield table and a requested date, pick
 * the trading day to show, take that day's row and turn it into the points of
 * the yield curve, or report why there is nothing to plot.
 */
module CurveResolver {
  import opened Wrappers
  import opened Calendar
  import opened Maturities

  /** A yield in hundredths of a percent: an integer stand-in for the table's floating-point percentages. */
  type Yield = int

  /** One row of the table: one optional yield per column, in column order. */
  type Row = r: seq<Option<Yield>> | |r| == Width witness seq(Width, k => None)

  /** One dated row of the table. */
  datatype Observation = Observation(date: Date, row: Row)

  /** The fetched table, in the order the rows were delivered; dates may repeat. */
  type Series = seq<Observation>

  /** A point of the plotted curve: maturity in months and its yield. */
  datatype CurvePoint = CurvePoint(months: nat, percent: Yield)

  /** Outcome of one resolution. */
  datatype Resolution =
    | NoData
    | NoDateOnOrBefore(requested: Date)
    | EmptyCurve(date: Date)
    | Curve(date: Date, exact: bool, points: seq<CurvePoint>)

  /** The trading day chosen for a request, and whether it is the requested day itself. */
  datatype Target = Target(date: Date, exact: bool)

  /** The dates of the table's rows, in row order. */
  function AvailableDates(series: Series): (ds: seq<Date>)
    ensures |ds| == |series|
    ensures forall i :: 0 <= i < |series| ==> ds[i] == series[i].date
  {
    seq(|series|, i requires 0 <= i < |series| => series[i].date)
  }

  /** The dates of `ds` that fall on or before `d`, in their original order. */
  function DatesOnOrBefore(ds: seq<Date>, d: Date): (vs: seq<Date>)
    ensures forall x :: x in vs <==> x in ds && OnOrBefore(x, d)
  {
    if ds == [] then []
    else (if OnOrBefore(ds[0], d) then [ds[0]] else []) + DatesOnOrBefore(ds[1..], d)
  }

  /** The latest date of a non-empty sequence of dates. */
  function Latest(ds: seq<Date>): (m: Date)
    requires ds != []
    ensures m in ds
    ensures forall x :: x in ds ==> OnOrBefore(x, m)
  {
    if |ds| == 1 then ds[0]
    else
      var rest := Latest(ds[1..]);
      assert forall x :: x in ds ==> x == ds[0] || x in ds[1..];
      if OnOrBefore(ds[0], rest) then rest else ds[0]
  }

  /** The earliest date of a non-empty sequence of dates. */
  function Earliest(ds: seq<Date>): (m: Date)
    requires ds != []
    ensures m in ds
    ensures forall x :: x in ds ==> OnOrBefore(m, x)
  {
    if |ds| == 1 then ds[0]
    else
      var rest := Earliest(ds[1..]);
      assert forall x :: x in ds ==> x == ds[0] || x in ds[1..];
      if OnOrBefore(ds[0], rest) then ds[0] else rest
  }

  /**
   * The trading day to show for `requested`: the requested day itself when the
   * table has it, otherwise the latest day before it, and None when the table
   * has no day on or before it.
   */
  function ResolveDate(series: Series, requested: Date): (t: Option<Target>)
    ensures requested in AvailableDates(series) ==> t == Some(Target(requested, true))
    ensures t.None? <==> forall x :: x in AvailableDates(series) ==> Before(requested, x)
    ensures t.Some? ==>
      && t.value.date in AvailableDates(series)
      && OnOrBefore(t.value.date, requested)
      && (t.value.exact <==> t.value.date == requested)
      && forall x :: x in AvailableDates(series) && OnOrBefore(x, requested) ==> OnOrBefore(x, t.value.date)
  {
    var available := AvailableDates(series);
    if requested in available then Some(Target(requested, true))
    else
      var valid := DatesOnOrBefore(available, requested);
      if valid == [] then None
      else Some(Target(Latest(valid), false))
  }

  /** Row `i` is the last row of the table dated `d`. */
  predicate LastRowOn(series: Series, i: int, d: Date) {
    && 0 <= i < |series|
    && series[i].date == d
    && forall j :: i < j < |series| ==> series[j].date != d
  }

  /** The position of the last row dated `d`; a repeated date resolves to its last row. */
  function LastIndexOn(series: Series, d: Date): (i: nat)
    requires d in AvailableDates(series)
    ensures LastRowOn(series, i, d)
  {
    var n := |series| - 1;
    if series[n].date == d then n
    else
      assert AvailableDates(series[..n]) == AvailableDates(series)[..n];
      LastIndexOn(series[..n], d)
  }

  /**
   * Pair every maturity with the value in the same position and drop the
   * positions whose value is missing, keeping the order of the rest.
   */
  function DropAbsent(months: seq<nat>, values: seq<Option<Yield>>): (ps: seq<CurvePoint>)
    requires |months| == |values|
    ensures |ps| <= |values|
  {
    if values == [] then []
    else
      var rest := DropAbsent(months[1..], values[1..]);
      match values[0]
      case None => rest
      case Some(y) => [CurvePoint(months[0], y)] + rest
  }

  /** Every kept point is a present value at its own position's maturity. */
  lemma {:induction false} DropAbsentKeepsOnlyPresent(months: seq<nat>, values: seq<Option<Yield>>)
    requires |months| == |values|
    ensures forall p :: p in DropAbsent(months, values) ==>
      exists k :: 0 <= k < |values| && months[k] == p.months && values[k] == Some(p.percent)
  {
    if values != [] {
      DropAbsentKeepsOnlyPresent(months[1..], values[1..]);
      forall p | p in DropAbsent(months, values)
        ensures exists k :: 0 <= k < |values| && months[k] == p.months && values[k] == Some(p.percent)
      {
        if p in DropAbsent(months[1..], values[1..]) {
          var k :| 0 <= k < |values| - 1 && months[1..][k] == p.months && values[1..][k] == Some(p.percent);
          assert months[k + 1] == p.months && values[k + 1] == Some(p.percent);
        } else {
          assert months[0] == p.months && values[0] == Some(p.percent);
        }
      }
    }
  }

  /** Every present value is kept, at its position's maturity. */
  lemma {:induction false} DropAbsentKeepsAllPresent(months: seq<nat>, values: seq<Option<Yield>>)
    requires |months| == |values|
    ensures forall k :: 0 <= k < |values| && values[k].Some? ==>
      CurvePoint(months[k], values[k].value) in DropAbsent(months, values)
  {
    if values != [] {
      DropAbsentKeepsAllPresent(months[1..], values[1..]);
      forall k | 0 <= k < |values| && values[k].Some?
        ensures CurvePoint(months[k], values[k].value) in DropAbsent(months, values)
      {
        if 0 < k {
          assert months[1..][k - 1] == months[k] && values[1..][k - 1] == values[k];
        }
      }
    }
  }

  /** When no value is missing nothing is dropped: point k is maturity k with value k. */
  lemma {:induction false} DropAbsentKeepsEverythingPresent(months: seq<nat>, values: seq<Option<Yield>>)
    requires |months| == |values|
    requires forall k :: 0 <= k < |values| ==> values[k].Some?
    ensures |DropAbsent(months, values)| == |values|
    ensures forall k :: 0 <= k < |values| ==> DropAbsent(months, values)[k] == CurvePoint(months[k], values[k].value)
  {
    if values != [] {
      DropAbsentKeepsEverythingPresent(months[1..], values[1..]);
      var rest := DropAbsent(months[1..], values[1..]);
      assert DropAbsent(months, values) == [CurvePoint(months[0], values[0].value)] + rest;
      forall k | 0 < k < |values| ensures DropAbsent(months, values)[k] == CurvePoint(months[k], values[k].value) {
        assert rest[k - 1] == CurvePoint(months[1..][k - 1], values[1..][k - 1].value);
      }
    }
  }

  /** Each point's maturity is below the maturity of every later point. */
  predicate IncreasingInMaturity(ps: seq<CurvePoint>) {
    forall i, j :: 0 <= i < j < |ps| ==> ps[i].months < ps[j].months
  }

  /** Dropping positions keeps increasing maturities increasing. */
  lemma {:induction false} DropAbsentKeepsOrder(months: seq<nat>, values: seq<Option<Yield>>)
    requires |months| == |values|
    requires StrictlyIncreasing(months)
    ensures IncreasingInMaturity(DropAbsent(months, values))
  {
    if values != [] {
      var rest := DropAbsent(months[1..], values[1..]);
      assert StrictlyIncreasing(months[1..]);
      DropAbsentKeepsOrder(months[1..], values[1..]);
      assert IncreasingInMaturity(rest);
      if values[0].None? {
        assert DropAbsent(months, values) == rest;
      } else {
        DropAbsentKeepsOnlyPresent(months[1..], values[1..]);
        forall p | p in rest ensures months[0] < p.months {
          var k :| 0 <= k < |values| - 1 && months[1..][k] == p.months && values[1..][k] == Some(p.percent);
          assert months[k + 1] == p.months;
        }
        var ps := DropAbsent(months, values);
        assert ps == [CurvePoint(months[0], values[0].value)] + rest;
        forall i, j | 0 <= i < j < |ps| ensures ps[i].months < ps[j].months {
          assert ps[j] == rest[j - 1];
          if 0 < i {
            assert ps[i] == rest[i - 1];
          } else {
            assert rest[j - 1] in rest;
          }
        }
      }
    }
  }

  /**
   * The points plotted for one row: its present yields, each at its column's
   * maturity, at most one per column and strictly increasing in maturity.
   */
  function PlotSet(row: Row): (ps: seq<CurvePoint>)
    ensures |ps| <= Width
    ensures IncreasingInMaturity(ps)
  {
    DropAbsentKeepsOrder(ColumnMonths(), row);
    DropAbsent(ColumnMonths(), row)
  }

  /** Resolve a requested date against the table into one of the four outcomes. */
  function Resolve(series: Series, requested: Date): (r: Resolution)
    ensures r.NoData? <==> series == []
    ensures r.NoDateOnOrBefore? <==>
      series != [] && forall x :: x in AvailableDates(series) ==> Before(requested, x)
    ensures r.NoDateOnOrBefore? ==> r.requested == requested
    ensures r.EmptyCurve? || r.Curve? ==>
      && r.date in AvailableDates(series)
      && OnOrBefore(r.date, requested)
      && forall x :: x in AvailableDates(series) && OnOrBefore(x, requested) ==> OnOrBefore(x, r.date)
    ensures r.Curve? ==> r.points != [] && (r.exact <==> r.date == requested)
  {
    if series == [] then NoData
    else
      match ResolveDate(series, requested)
      case None => NoDateOnOrBefore(requested)
      case Some(target) =>
        var points := PlotSet(series[LastIndexOn(series, target.date)].row);
        if points == [] then EmptyCurve(target.date)
        else Curve(target.date, target.exact, points)
  }
}
