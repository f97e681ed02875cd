/** How the three copies of the row pipeline relate. The analytics slide and the
    chart slide filter with the same test (`PriceRows.HasDateAndNumericPrice`) and
    read the year the same way (`PriceRows.YearOf`); the summary slide filters by
    converting the price with `Number`, and the two growth loops guard the
    division differently. */
module CrossCopies {
  import opened Options
  import opened JsValues
  import opened PriceRows
  import AnalyticsInterpretation
  import DataVisualization
  import DataDashboard

  /** A row the analytics and chart pipelines keep is kept by the summary slide,
      with the same price. */
  lemma NumericRowsKeptEverywhere(row: RawRow)
    requires ReaderRow(row) && HasDateAndNumericPrice(row)
    ensures DataDashboard.KeepsRow(row)
    ensures ToNumber(row.price) == row.price.n
  {
  }

  /** The summary slide also keeps a row whose price cell is empty, as price 0,
      which the other two pipelines drop. */
  lemma EmptyPriceKeptOnlyBySummary()
    ensures var row := RawRow(Str("1/1/2020"), Null);
      && DataDashboard.KeepsRow(row) && ToNumber(row.price) == Finite(0.0)
      && !HasDateAndNumericPrice(row)
  {
  }

  /** When every price cell holds a number, the three pipelines keep the same
      rows. */
  lemma {:induction false} SameRowsWhenPricesAreNumbers(rows: seq<RawRow>)
    requires forall i :: 0 <= i < |rows| ==> ReaderRow(rows[i]) && rows[i].price.Num?
    ensures Keep(rows, HasDateAndNumericPrice) == Keep(rows, DataDashboard.KeepsRow)
  {
    if |rows| > 0 {
      SameRowsWhenPricesAreNumbers(rows[1..]);
    }
  }

  /** Against a previous average that is positive, zero or +Infinity the two growth
      loops give the same figure. */
  lemma GrowthAgreesOnNonNegative(avg: JsNumber, prevAvg: JsNumber)
    requires (prevAvg.Finite? && prevAvg.value >= 0.0) || prevAvg == Infinite(false)
    ensures AnalyticsInterpretation.Growth(avg, prevAvg) == DataVisualization.Growth(avg, prevAvg)
  {
  }

  /** Against a negative previous average they differ: the analytics slide shows 0,
      the chart the (negative) percentage change. */
  lemma GrowthDiffersOnNegative()
    ensures AnalyticsInterpretation.Growth(Finite(50.0), Finite(-100.0)) == Finite(0.0)
    ensures DataVisualization.Growth(Finite(50.0), Finite(-100.0)).Finite?
    ensures DataVisualization.Growth(Finite(50.0), Finite(-100.0)).value < -149.0
  {
    DataVisualization.GrowthMeaning(50.0, -100.0);
  }
}
