/**
 * The static maturity configuration: the eleven Treasury maturities, the FRED
 * series fetched for each, and each maturity's length. The lengths are whole
 * months where the application plots fractional years (1/12, 0.25, ..., 30).
 */
module Maturities {

  /** Number of maturities, hence of columns in the yield table. */
  const Width: nat := 11

  /** Maturity label and FRED series identifier, in declaration order. */
  const SeriesIds: seq<(string, string)> := [
    ("1 Mo", "DGS1MO"), ("3 Mo", "DGS3MO"), ("6 Mo", "DGS6MO"), ("1 Yr", "DGS1"),
    ("2 Yr", "DGS2"), ("3 Yr", "DGS3"), ("5 Yr", "DGS5"), ("7 Yr", "DGS7"),
    ("10 Yr", "DGS10"), ("20 Yr", "DGS20"), ("30 Yr", "DGS30")
  ]

  /** Maturity label to maturity length in months. */
  const MaturityMonths: map<string, nat> := map[
    "1 Mo" := 1, "3 Mo" := 3, "6 Mo" := 6, "1 Yr" := 12, "2 Yr" := 24, "3 Yr" := 36,
    "5 Yr" := 60, "7 Yr" := 84, "10 Yr" := 120, "20 Yr" := 240, "30 Yr" := 360
  ]

  /** No entry of `xs` occurs twice. */
  predicate Distinct(xs: seq<string>) {
    forall i, j :: 0 <= i < j < |xs| ==> xs[i] != xs[j]
  }

  predicate StrictlyIncreasing(ms: seq<nat>) {
    forall i, j :: 0 <= i < j < |ms| ==> ms[i] < ms[j]
  }

  /** A sequence whose neighbours increase is strictly increasing throughout. */
  lemma {:induction false} StepwiseIncreasing(ms: seq<nat>)
    requires forall k :: 0 <= k < |ms| - 1 ==> ms[k] < ms[k + 1]
    ensures StrictlyIncreasing(ms)
  {
    if |ms| > 1 {
      StepwiseIncreasing(ms[1..]);
      assert StrictlyIncreasing(ms[1..]);
      forall i, j | 0 <= i < j < |ms| ensures ms[i] < ms[j] {
        if 0 < i {
          assert ms[i] == ms[1..][i - 1] && ms[j] == ms[1..][j - 1];
        } else if 1 < j {
          assert ms[j] == ms[1..][j - 1] && ms[1] == ms[1..][0];
        }
      }
    }
  }

  /**
   * The series identifiers requested from FRED, one per maturity and none
   * twice, in declaration order.
   */
  function RequestedSeries(): (ids: seq<string>)
    ensures |ids| == Width
    ensures Distinct(ids)
    ensures forall k :: 0 <= k < Width ==> ids[k] == SeriesIds[k].1
  {
    var ids := seq(|SeriesIds|, k requires 0 <= k < |SeriesIds| => SeriesIds[k].1);
    assert ids == ["DGS1MO", "DGS3MO", "DGS6MO", "DGS1", "DGS2", "DGS3", "DGS5", "DGS7", "DGS10", "DGS20", "DGS30"];
    ids
  }

  /**
   * The column labels the fetched table is given: the labels of SeriesIds in
   * declaration order, so column k holds the data of series RequestedSeries()[k].
   * No label occurs twice, and every label has a maturity in MaturityMonths,
   * so looking a column up there never fails.
   */
  function Columns(): (cs: seq<string>)
    ensures |cs| == Width
    ensures Distinct(cs)
    ensures forall c :: c in cs ==> c in MaturityMonths
    ensures forall k :: 0 <= k < Width ==> (cs[k], RequestedSeries()[k]) == SeriesIds[k]
  {
    var cs := seq(|SeriesIds|, k requires 0 <= k < |SeriesIds| => SeriesIds[k].0);
    assert cs == ["1 Mo", "3 Mo", "6 Mo", "1 Yr", "2 Yr", "3 Yr", "5 Yr", "7 Yr", "10 Yr", "20 Yr", "30 Yr"];
    cs
  }

  /**
   * The maturity of every column, in column order, read from MaturityMonths:
   * 1, 3, 6, 12, 24, 36, 60, 84, 120, 240 and 360 months, so the column order
   * is the order of increasing maturity.
   */
  function ColumnMonths(): (ms: seq<nat>)
    ensures ms == [1, 3, 6, 12, 24, 36, 60, 84, 120, 240, 360]
    ensures StrictlyIncreasing(ms)
    ensures forall k :: 0 <= k < Width ==> ms[k] == MaturityMonths[Columns()[k]]
  {
    var ms := seq(Width, k requires 0 <= k < Width => MaturityMonths[Columns()[k]]);
    assert Columns() == ["1 Mo", "3 Mo", "6 Mo", "1 Yr", "2 Yr", "3 Yr", "5 Yr", "7 Yr", "10 Yr", "20 Yr", "30 Yr"];
    assert ms == [1, 3, 6, 12, 24, 36, 60, 84, 120, 240, 360];
    StepwiseIncreasing(ms);
    ms
  }
}
