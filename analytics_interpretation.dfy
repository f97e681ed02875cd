/** The analytics slide: the `complete` callback of the CSV reader keeps the rows
    with a date and a numeric price, reads each date's year and month, and builds
    one summary per year (rounded average, highest, lowest, range and growth over
    the year before) and the rounded average of each calendar month. */
module AnalyticsInterpretation {
  import opened Options
  import opened JsValues
  import opened Statistics
  import opened PriceRows

  /** A cleaned row: the date text, the price, and the year and month read from
      the date (`None` for NaN). */
  datatype PriceRecord = PriceRecord(date: string, price: real, year: Option<int>, month: Option<int>)

  /** The record of a kept row: `Number(price)` is the number itself, and the
      year and month are the third and second `/`-separated fields. */
  function ToRecord(row: RawRow): (d: PriceRecord)
    requires row.date.Str? && row.price.Num? && row.price.n.Finite?
    ensures d.price == ToNumber(row.price).value
    ensures d.year == YearOf(row.date.s) && d.month == MonthOf(row.date.s)
  {
    PriceRecord(row.date.s, row.price.n.value, YearOf(row.date.s), MonthOf(row.date.s))
  }

  /** The filter and map of the callback. `None` when a kept row's `Date` is truthy
      but not a string: `split` is then missing, the callback throws, and nothing
      is set. */
  function Records(rows: seq<RawRow>): (r: Option<seq<PriceRecord>>)
    requires forall i :: 0 <= i < |rows| ==> ReaderRow(rows[i])
    ensures r.Some? <==> DatesAreStrings(KeptRows(rows))
    ensures r.Some? ==> |r.value| == |KeptRows(rows)|
    ensures r.Some? ==> forall i :: 0 <= i < |r.value| ==>
      KeptRows(rows)[i] == RawRow(Str(r.value[i].date), Num(Finite(r.value[i].price)))
  {
    var kept := KeptRows(rows);
    if DatesAreStrings(kept) then
      KeptRowsFinite(rows);
      Some(seq(|kept|, i requires 0 <= i < |kept| => ToRecord(kept[i])))
    else None
  }

  /** A kept row dated `D/M/YYYY` is filed under that year and month. */
  lemma RecordOfDatedRow(day: nat, month: nat, year: nat, price: real)
    ensures ToRecord(RawRow(Str(DateString(day, month, year)), Num(Finite(price))))
      == PriceRecord(DateString(day, month, year), price, Some(year), Some(month))
  {
    DateFieldsRoundTrip(day, month, year);
  }

  function YearOfRecord(d: PriceRecord): Option<int> {
    d.year
  }

  function MonthOfRecord(d: PriceRecord): Option<int> {
    d.month
  }

  function PriceOfRecord(d: PriceRecord): real {
    d.price
  }

  /** `data.map(d => d.year)`. */
  function Years(data: seq<PriceRecord>): seq<Option<int>> {
    seq(|data|, i requires 0 <= i < |data| => data[i].year)
  }

  /** The prices of one year. */
  function YearPrices(data: seq<PriceRecord>, year: Option<int>): seq<real> {
    PricesWith(data, YearOfRecord, PriceOfRecord, year)
  }

  /** One row of the yearly table, growth in percent over the year before. */
  datatype YearStat = YearStat(year: Option<int>, average: JsNumber, highest: JsNumber, lowest: JsNumber,
                               range: JsNumber, growth: JsNumber)

  /** `Math.max(...prices)`: `-Infinity` for no prices. */
  function Highest(prices: seq<real>): (r: JsNumber)
    ensures r.Finite? <==> |prices| > 0
  {
    if |prices| == 0 then Infinite(true) else Finite(Max(prices))
  }

  /** `Math.min(...prices)`: `Infinity` for no prices. */
  function Lowest(prices: seq<real>): (r: JsNumber)
    ensures r.Finite? <==> |prices| > 0
  {
    if |prices| == 0 then Infinite(false) else Finite(Min(prices))
  }

  /** `highest - lowest`; with no prices it is `-Infinity - Infinity`. */
  function Range(prices: seq<real>): (r: JsNumber)
    ensures r.Finite? <==> |prices| > 0
  {
    Sub(Highest(prices), Lowest(prices))
  }

  /** The guard `prevAvg > 0`; NaN fails it. */
  predicate GrowthApplies(prevAvg: JsNumber) {
    (prevAvg.Finite? && prevAvg.value > 0.0) || prevAvg == Infinite(false)
  }

  /** `parseFloat(growth.toFixed(1))` where `growth` is 0, or, when `prevAvg > 0`,
      `((avg - prevAvg) / prevAvg) * 100`. The figure is finite exactly when the
      guard fails or both averages are finite; an infinite average over a finite
      positive one gives that same infinity, and the rest is NaN. */
  function Growth(avg: JsNumber, prevAvg: JsNumber): (g: JsNumber)
    ensures !GrowthApplies(prevAvg) ==> g == Finite(0.0)
    ensures g.Finite? <==> !GrowthApplies(prevAvg) || (avg.Finite? && prevAvg.Finite?)
    ensures GrowthApplies(prevAvg) && avg.Infinite? && prevAvg.Finite? ==> g == avg
  {
    if !GrowthApplies(prevAvg) then Finite(0.0) else PercentChange(avg, prevAvg)
  }

  /** The growth is the change over the previous average in percent, to within the
      one-decimal rounding, and it has the sign of the change; a previous average
      that is not positive gives 0. */
  lemma GrowthMeaning(avg: real, prevAvg: real)
    ensures prevAvg <= 0.0 ==> Growth(Finite(avg), Finite(prevAvg)) == Finite(0.0)
    ensures prevAvg > 0.0 ==> Growth(Finite(avg), Finite(prevAvg)).Finite?
    ensures prevAvg > 0.0 ==>
      var g := Growth(Finite(avg), Finite(prevAvg)).value;
      var exact := (avg - prevAvg) / prevAvg * 100.0;
      && -0.05 <= g - exact <= 0.05
      && (avg >= prevAvg ==> g >= 0.0)
      && (avg <= prevAvg ==> g <= 0.0)
  {
    if prevAvg > 0.0 {
      var exact := (avg - prevAvg) / prevAvg * 100.0;
      assert avg >= prevAvg ==> exact >= 0.0;
      assert avg <= prevAvg ==> exact <= 0.0;
      ToFixed1Sign(exact);
    }
  }

  /** The row of `year`, given the average of the row before. */
  function YearEntry(data: seq<PriceRecord>, year: Option<int>, prevAvg: JsNumber): YearStat {
    var prices := YearPrices(data, year);
    var avg := RoundedAverage(prices);
    YearStat(year, avg, Highest(prices), Lowest(prices), Range(prices), Growth(avg, prevAvg))
  }

  /** A row's average, highest and lowest are finite together, exactly when the
      year has prices, and then the range is the highest less the lowest; the
      growth is finite exactly when the guard fails or both averages are finite. */
  lemma YearEntryShape(data: seq<PriceRecord>, year: Option<int>, prevAvg: JsNumber)
    ensures var e := YearEntry(data, year, prevAvg);
      && e.year == year
      && (e.average.Finite? <==> |YearPrices(data, year)| > 0)
      && e.highest.Finite? == e.average.Finite? && e.lowest.Finite? == e.average.Finite?
      && (e.average.Finite? ==> e.lowest.value <= e.highest.value && e.range == Finite(e.highest.value - e.lowest.value))
      && (e.growth.Finite? <==> !GrowthApplies(prevAvg) || (e.average.Finite? && prevAvg.Finite?))
  {
    var prices := YearPrices(data, year);
    var avg := RoundedAverage(prices);
    var e := YearEntry(data, year, prevAvg);
    assert e == YearStat(year, avg, Highest(prices), Lowest(prices), Range(prices), Growth(avg, prevAvg));
    if |prices| > 0 {
      assert Min(prices) <= prices[0] <= Max(prices);
      assert e.range == Finite(Max(prices) - Min(prices));
    }
  }

  /** The average that the loop carries into row `i`: 0 before the first row. */
  function PreviousAverage(stats: seq<YearStat>, i: nat): JsNumber
    requires i <= |stats|
  {
    if i == 0 then Finite(0.0) else stats[i - 1].average
  }

  /** The first `|stats|` rows of `years.map(...)`, with `prevAvg` carried from
      row to row: each row is measured against the average of the row before. */
  ghost predicate RowsUpTo(data: seq<PriceRecord>, years: seq<Option<int>>, stats: seq<YearStat>) {
    && |stats| <= |years|
    && forall i {:trigger PreviousAverage(stats, i)} :: 0 <= i < |stats| ==>
         stats[i] == YearEntry(data, years[i], PreviousAverage(stats, i))
  }

  /** All the rows of `years.map(...)`: one per year of `years`. */
  ghost predicate RowsFor(data: seq<PriceRecord>, years: seq<Option<int>>, stats: seq<YearStat>) {
    RowsUpTo(data, years, stats) && |stats| == |years|
  }

  /** The yearly table over the sorted distinct years of the records. */
  ghost predicate IsYearlyStats(data: seq<PriceRecord>, stats: seq<YearStat>) {
    RowsFor(data, SortedYears(Years(data)), stats)
  }

  lemma RowAt(data: seq<PriceRecord>, years: seq<Option<int>>, stats: seq<YearStat>, i: nat)
    requires RowsUpTo(data, years, stats) && i < |stats|
    ensures stats[i] == YearEntry(data, years[i], PreviousAverage(stats, i))
  {
  }

  lemma {:induction false} SameRow(data: seq<PriceRecord>, years: seq<Option<int>>, a: seq<YearStat>, b: seq<YearStat>, i: nat)
    requires RowsFor(data, years, a) && RowsFor(data, years, b) && i < |a|
    ensures a[i] == b[i]
  {
    if i > 0 {
      SameRow(data, years, a, b, i - 1);
    }
    RowAt(data, years, a, i);
    RowAt(data, years, b, i);
  }

  /** The yearly table is determined by the records. */
  lemma YearlyStatsUnique(data: seq<PriceRecord>, a: seq<YearStat>, b: seq<YearStat>)
    requires IsYearlyStats(data, a) && IsYearlyStats(data, b)
    ensures a == b
  {
    forall i | 0 <= i < |a|
      ensures a[i] == b[i]
    {
      SameRow(data, SortedYears(Years(data)), a, b, i);
    }
  }

  /** The rows so far grow by the row of the next year. */
  lemma RowsStep(data: seq<PriceRecord>, years: seq<Option<int>>, stats: seq<YearStat>)
    requires RowsUpTo(data, years, stats) && |stats| < |years|
    ensures RowsUpTo(data, years, stats + [YearEntry(data, years[|stats|], PreviousAverage(stats, |stats|))])
  {
    var next := stats + [YearEntry(data, years[|stats|], PreviousAverage(stats, |stats|))];
    forall j | 0 <= j < |next|
      ensures next[j] == YearEntry(data, years[j], PreviousAverage(next, j))
    {
      if j < |stats| {
        assert next[j] == stats[j];
        assert PreviousAverage(next, j) == PreviousAverage(stats, j);
      }
    }
  }

  /** The loop over `years`: each row's growth is measured against `prevAvg`, the
      previous row's average, which starts at 0. */
  method YearRows(data: seq<PriceRecord>, years: seq<Option<int>>) returns (stats: seq<YearStat>)
    ensures RowsFor(data, years, stats)
  {
    var prevAvg := Finite(0.0);
    stats := [];
    while |stats| < |years|
      invariant RowsUpTo(data, years, stats)
      invariant prevAvg == PreviousAverage(stats, |stats|)
      decreases |years| - |stats|
    {
      var entry := YearEntry(data, years[|stats|], prevAvg);
      RowsStep(data, years, stats);
      prevAvg := entry.average;
      stats := stats + [entry];
    }
  }

  /** `[...new Set(data.map(d => d.year))].sort()` and the yearly rows over it. */
  method YearlyStats(data: seq<PriceRecord>) returns (stats: seq<YearStat>)
    ensures IsYearlyStats(data, stats)
  {
    var years := SortedYears(Years(data));
    stats := YearRows(data, years);
  }

  /** The rows follow the years in ascending order with NaN last, one row per
      year that occurs, and the first row shows no growth. */
  lemma YearlyStatsOrder(data: seq<PriceRecord>, stats: seq<YearStat>)
    requires IsYearlyStats(data, stats)
    ensures forall i, j :: 0 <= i < j < |stats| ==> YearBefore(stats[i].year, stats[j].year)
    ensures forall k :: 0 <= k < |data| ==> exists i :: 0 <= i < |stats| && stats[i].year == data[k].year
    ensures |stats| > 0 ==> stats[0].growth == Finite(0.0)
  {
    var years := SortedYears(Years(data));
    RowYears(data, years, stats);
    forall k | 0 <= k < |data|
      ensures exists i :: 0 <= i < |stats| && stats[i].year == data[k].year
    {
      YearListed(data, years, k);
    }
    if |stats| > 0 {
      RowAt(data, years, stats, 0);
    }
  }

  /** Row `i` is the row of year `i`. */
  lemma RowYears(data: seq<PriceRecord>, years: seq<Option<int>>, stats: seq<YearStat>)
    requires RowsFor(data, years, stats)
    ensures |stats| == |years| && forall i :: 0 <= i < |stats| ==> stats[i].year == years[i]
  {
    forall i | 0 <= i < |stats|
      ensures stats[i].year == years[i]
    {
      RowAt(data, years, stats, i);
    }
  }

  /** The year of every record is among the sorted years. */
  lemma YearListed(data: seq<PriceRecord>, years: seq<Option<int>>, k: nat)
    requires years == SortedYears(Years(data)) && k < |data|
    ensures exists i :: 0 <= i < |years| && years[i] == data[k].year
  {
    assert Years(data)[k] == data[k].year;
    assert data[k].year in years;
  }

  /** The row of a parsed year that occurs: finite figures, the average between
      the rounded lowest and highest price, and a range that is the spread of the
      prices. */
  lemma ParsedYearEntry(data: seq<PriceRecord>, k: nat, prevAvg: JsNumber)
    requires k < |data| && data[k].year.Some?
    ensures var e := YearEntry(data, data[k].year, prevAvg);
      && e.average.Finite? && e.highest.Finite? && e.lowest.Finite? && e.range.Finite?
      && Round(e.lowest.value) as real <= e.average.value <= Round(e.highest.value) as real
      && e.lowest.value <= e.highest.value
      && e.range.value == e.highest.value - e.lowest.value
  {
    var prices := YearPrices(data, data[k].year);
    PricesWithEmpty(data, YearOfRecord, PriceOfRecord, data[k].year);
    RoundedAverageBetween(prices);
  }

  /** The NaN year collects no prices (NaN equals nothing), so its row is NaN,
      `-Infinity`, `Infinity` and `-Infinity`, and its growth NaN or 0. */
  lemma NaNYearEntry(data: seq<PriceRecord>, prevAvg: JsNumber)
    ensures var e := YearEntry(data, None, prevAvg);
      && e.average == NaN && e.highest == Infinite(true) && e.lowest == Infinite(false) && e.range == Infinite(true)
      && e.growth == (if GrowthApplies(prevAvg) then NaN else Finite(0.0))
  {
    PricesWithEmpty(data, YearOfRecord, PriceOfRecord, None);
  }

  /** One bar of the monthly chart. */
  datatype MonthAverage = MonthAverage(name: string, value: int)

  const MonthNames: seq<string> := ["Jan", "Feb", "Mar", "Apr", "May", "Jun", "Jul", "Aug", "Sep", "Oct", "Nov", "Dec"]

  /** The prices of month `i + 1`. */
  function MonthPrices(data: seq<PriceRecord>, i: nat): seq<real> {
    PricesWith(data, MonthOfRecord, PriceOfRecord, Some(i + 1))
  }

  /** The bar of month `i + 1`: the rounded average of its prices, which lies
      between their rounded extremes, or 0 for none. */
  function MonthEntry(data: seq<PriceRecord>, i: nat): (e: MonthAverage)
    requires i < 12
    ensures e.name == MonthNames[i]
    ensures |MonthPrices(data, i)| == 0 ==> e.value == 0
    ensures |MonthPrices(data, i)| > 0 ==>
      Round(Min(MonthPrices(data, i))) <= e.value <= Round(Max(MonthPrices(data, i)))
  {
    var prices := MonthPrices(data, i);
    if |prices| > 0 then
      RoundedAverageBetween(prices);
      MonthAverage(MonthNames[i], Round(Mean(prices)))
    else MonthAverage(MonthNames[i], 0)
  }

  /** `Array.from({ length: 12 }, ...)`: twelve bars, January to December. */
  function MonthlyAverages(data: seq<PriceRecord>): (r: seq<MonthAverage>)
    ensures |r| == 12
    ensures forall i :: 0 <= i < 12 ==> r[i].name == MonthNames[i]
  {
    seq(12, i requires 0 <= i < 12 => MonthEntry(data, i))
  }

  /** A month no record falls in shows 0; any other month shows a value between
      its rounded lowest and highest price. */
  lemma MonthlyAverageBounds(data: seq<PriceRecord>, i: nat)
    requires i < 12
    ensures (forall k :: 0 <= k < |data| ==> data[k].month != Some(i + 1)) ==> MonthlyAverages(data)[i].value == 0
    ensures (exists k :: 0 <= k < |data| && data[k].month == Some(i + 1)) ==>
      var prices := MonthPrices(data, i);
      && |prices| > 0
      && Round(Min(prices)) <= MonthlyAverages(data)[i].value <= Round(Max(prices))
  {
    var prices := MonthPrices(data, i);
    PricesWithEmpty(data, MonthOfRecord, PriceOfRecord, Some(i + 1));
    if |prices| > 0 {
      RoundedAverageBetween(prices);
    }
  }

  /** The component state: the yearly table, the monthly bars and the loading flag. */
  datatype View = View(yearlyStats: seq<YearStat>, monthlyAvg: seq<MonthAverage>, loading: bool)

  const Initial := View([], [], true)

  /** The `complete` callback. The state is set only when some record survives;
      otherwise (or when the callback throws) the slide keeps loading. */
  method Complete(rows: seq<RawRow>) returns (view: View)
    requires forall i :: 0 <= i < |rows| ==> ReaderRow(rows[i])
    ensures view.loading <==> Records(rows).None? || |Records(rows).value| == 0
    ensures view.loading ==> view == Initial
    ensures !view.loading ==>
      && IsYearlyStats(Records(rows).value, view.yearlyStats)
      && view.monthlyAvg == MonthlyAverages(Records(rows).value)
  {
    var records := Records(rows);
    if records.None? {
      return Initial;
    }
    var data := records.value;
    if |data| == 0 {
      return Initial;
    }
    var yearly := YearlyStats(data);
    view := View(yearly, MonthlyAverages(data), false);
  }
}
