/** The chart slide: the `complete` callback keeps the rows with a numeric price
    and a date, orders them by timestamp, and derives four series from them: every
    fifth record for the trend line, a 12-bin price histogram, the yearly average
    with its growth over the year before, and a 40-bin price density. */
module DataVisualization {
  import opened Options
  import opened JsValues
  import opened Statistics
  import opened PriceRows
  import Sorting

  /** A cleaned row: the date text, its timestamp, the price and the year read
      from the date (`None` for NaN). */
  datatype ChartRecord = ChartRecord(fullDate: string, timestamp: real, price: real, year: Option<int>)

  /** The record of a kept row. `stamp` stands for
      `new Date(year, month - 1, day).getTime()` on the date's fields. */
  function ToRecord(row: RawRow, stamp: string -> real): (d: ChartRecord)
    requires row.date.Str? && row.price.Num? && row.price.n.Finite?
    ensures d.price == ToNumber(row.price).value && d.year == YearOf(row.date.s)
  {
    ChartRecord(row.date.s, stamp(row.date.s), row.price.n.value, YearOf(row.date.s))
  }

  function Timestamp(d: ChartRecord): real {
    d.timestamp
  }

  /** The kept rows as records, in file order. */
  function Mapped(rows: seq<RawRow>, stamp: string -> real): (r: seq<ChartRecord>)
    requires forall i :: 0 <= i < |rows| ==> ReaderRow(rows[i])
    requires DatesAreStrings(KeptRows(rows))
    ensures |r| == |KeptRows(rows)|
    ensures forall i :: 0 <= i < |r| ==>
      KeptRows(rows)[i] == RawRow(Str(r[i].fullDate), Num(Finite(r[i].price))) && r[i].timestamp == stamp(r[i].fullDate)
  {
    var kept := KeptRows(rows);
    KeptRowsFinite(rows);
    seq(|kept|, i requires 0 <= i < |kept| => ToRecord(kept[i], stamp))
  }

  /** The filter, map and sort of the callback: the kept rows as records in
      ascending timestamp order. `None` when a kept row's `Date` is truthy but not
      a string and the callback throws. */
  function Clean(rows: seq<RawRow>, stamp: string -> real): (r: Option<seq<ChartRecord>>)
    requires forall i :: 0 <= i < |rows| ==> ReaderRow(rows[i])
    ensures r.Some? <==> DatesAreStrings(KeptRows(rows))
    ensures r.Some? ==> |r.value| == |KeptRows(rows)| && Sorting.SortedBy(r.value, Timestamp)
  {
    if DatesAreStrings(KeptRows(rows)) then Some(Sorting.SortBy(Mapped(rows, stamp), Timestamp)) else None
  }

  /** The records are the kept rows rearranged, and rows with the same timestamp
      keep the order they had in the file. */
  lemma CleanIsStableSort(rows: seq<RawRow>, stamp: string -> real, t: real)
    requires forall i :: 0 <= i < |rows| ==> ReaderRow(rows[i])
    requires DatesAreStrings(KeptRows(rows))
    ensures multiset(Clean(rows, stamp).value) == multiset(Mapped(rows, stamp))
    ensures Sorting.WithKey(Clean(rows, stamp).value, Timestamp, t) == Sorting.WithKey(Mapped(rows, stamp), Timestamp, t)
  {
    Sorting.SortByStable(Mapped(rows, stamp), Timestamp, t);
  }

  /** `clean.filter((_, i) => i % 5 === 0)` from index `k` on. */
  function Sample<T>(s: seq<T>, k: nat): seq<T>
    decreases |s| - k
  {
    if k >= |s| then [] else (if k % 5 == 0 then [s[k]] else []) + Sample(s, k + 1)
  }

  /** The trend series: the records at indices 0, 5, 10, ...: a fifth of them,
      rounded up. */
  function Trend<T>(s: seq<T>): (r: seq<T>)
    ensures |r| == (|s| + 4) / 5
    ensures forall j :: 0 <= j < |r| ==> 5 * j < |s| && r[j] == s[5 * j]
  {
    SampleFromFifth(s, 0);
    Sample(s, 0)
  }

  lemma SkipToNextFifth<T>(s: seq<T>, m: nat)
    ensures Sample(s, 5 * m + 1) == Sample(s, 5 * m + 5)
  {
    assert (5 * m + 1) % 5 != 0 && (5 * m + 2) % 5 != 0 && (5 * m + 3) % 5 != 0 && (5 * m + 4) % 5 != 0;
    assert Sample(s, 5 * m + 1) == Sample(s, 5 * m + 2);
    assert Sample(s, 5 * m + 2) == Sample(s, 5 * m + 3);
    assert Sample(s, 5 * m + 3) == Sample(s, 5 * m + 4);
    assert Sample(s, 5 * m + 4) == Sample(s, 5 * m + 5);
  }

  lemma {:induction false} SampleFromFifth<T>(s: seq<T>, m: nat)
    ensures |Sample(s, 5 * m)| == if 5 * m >= |s| then 0 else (|s| - 5 * m + 4) / 5
    ensures forall j :: 0 <= j < |Sample(s, 5 * m)| ==> 5 * (m + j) < |s| && Sample(s, 5 * m)[j] == s[5 * (m + j)]
    decreases |s| - 5 * m
  {
    if 5 * m < |s| {
      SkipToNextFifth(s, m);
      SampleFromFifth(s, m + 1);
      assert 5 * (m + 1) == 5 * m + 5;
      var r := Sample(s, 5 * m);
      assert r == [s[5 * m]] + Sample(s, 5 * (m + 1));
      forall j | 0 <= j < |r|
        ensures 5 * (m + j) < |s| && r[j] == s[5 * (m + j)]
      {
        if j > 0 {
          assert r[j] == Sample(s, 5 * (m + 1))[j - 1];
          assert m + 1 + (j - 1) == m + j;
        }
      }
    }
  }

  /** `prices.filter(p => p >= lo && p < hi).length`. */
  function CountBetween(prices: seq<real>, lo: real, hi: real): (n: nat)
    ensures n <= |prices|
  {
    if |prices| == 0 then 0
    else (if lo <= prices[0] < hi then 1 else 0) + CountBetween(prices[1..], lo, hi)
  }

  /** Adjacent half-open intervals count each price once. */
  lemma {:induction false} CountSplit(prices: seq<real>, lo: real, mid: real, hi: real)
    requires lo <= mid <= hi
    ensures CountBetween(prices, lo, mid) + CountBetween(prices, mid, hi) == CountBetween(prices, lo, hi)
  {
    if |prices| > 0 {
      CountSplit(prices[1..], lo, mid, hi);
    }
  }

  /** When every price lies in `[lo, hi]`, the half-open interval `[lo, hi)` misses
      exactly the prices equal to `hi`. */
  lemma {:induction false} CountBelowTop(prices: seq<real>, lo: real, hi: real)
    requires forall i :: 0 <= i < |prices| ==> lo <= prices[i] <= hi
    ensures CountBetween(prices, lo, hi) == |prices| - multiset(prices)[hi]
  {
    if |prices| > 0 {
      CountBelowTop(prices[1..], lo, hi);
      assert prices == [prices[0]] + prices[1..];
    }
  }

  /** `lo + i * ((hi - lo) / n)`: edge `i` of `n` equal steps from `lo` to `hi`. */
  function EdgeOf(lo: real, hi: real, n: nat, i: nat): real
    requires n > 0
  {
    lo + i as real * ((hi - lo) / n as real)
  }

  lemma EdgeOfEnds(lo: real, hi: real, n: nat)
    requires n > 0
    ensures EdgeOf(lo, hi, n, 0) == lo && EdgeOf(lo, hi, n, n) == hi
  {
    var w := (hi - lo) / n as real;
    assert n as real * w == hi - lo;
  }

  lemma EdgeOfMonotone(lo: real, hi: real, n: nat, i: nat, j: nat)
    requires n > 0 && lo <= hi && i <= j
    ensures EdgeOf(lo, hi, n, i) <= EdgeOf(lo, hi, n, j)
  {
    var w := (hi - lo) / n as real;
    assert w >= 0.0;
    assert j as real * w - i as real * w == (j - i) as real * w;
  }

  /** `min + i * width` with `width = (max - min) / bins`: the lower edge of bin
      `i`, and the upper edge of bin `i - 1`. */
  function Edge(prices: seq<real>, bins: nat, i: nat): real
    requires |prices| > 0 && bins > 0
  {
    EdgeOf(Min(prices), Max(prices), bins, i)
  }

  /** The edges rise from the lowest price to the highest one. */
  lemma EdgeMonotone(prices: seq<real>, bins: nat, i: nat, j: nat)
    requires |prices| > 0 && bins > 0 && i <= j
    ensures Edge(prices, bins, i) <= Edge(prices, bins, j)
  {
    assert Min(prices) <= prices[0] <= Max(prices);
    EdgeOfMonotone(Min(prices), Max(prices), bins, i, j);
  }

  lemma OuterEdges(prices: seq<real>, bins: nat)
    requires |prices| > 0 && bins > 0
    ensures Edge(prices, bins, 0) == Min(prices)
    ensures Edge(prices, bins, bins) == Max(prices)
  {
    EdgeOfEnds(Min(prices), Max(prices), bins);
  }

  /** One histogram bar: its lower and upper edge (NaN when there are no prices)
      and the number of prices in the half-open interval between them. */
  datatype Bin = Bin(start: JsNumber, end: JsNumber, count: nat)

  /** `Array.from({ length: bins }, ...)`: the bins of equal width between the
      lowest and the highest price. With no prices `Math.min` and `Math.max` are
      `Infinity` and `-Infinity`, every edge is NaN and every count 0. */
  function Bins(prices: seq<real>, bins: nat): (r: seq<Bin>)
    ensures |r| == bins
  {
    if |prices| == 0 || bins == 0 then seq(bins, i => Bin(NaN, NaN, 0))
    else seq(bins, i requires 0 <= i < bins => BinOf(prices, bins, i))
  }

  /** Bin `i`: from edge `i` to edge `i + 1`, counting the prices in between. */
  function BinOf(prices: seq<real>, bins: nat, i: nat): Bin
    requires |prices| > 0 && bins > 0
  {
    var start := Edge(prices, bins, i);
    var end := Edge(prices, bins, i + 1);
    Bin(Finite(start), Finite(end), CountBetween(prices, start, end))
  }

  lemma BinAt(prices: seq<real>, bins: nat, i: nat)
    requires |prices| > 0 && i < bins
    ensures Bins(prices, bins)[i]
      == Bin(Finite(Edge(prices, bins, i)), Finite(Edge(prices, bins, i + 1)),
             CountBetween(prices, Edge(prices, bins, i), Edge(prices, bins, i + 1)))
  {
    assert Bins(prices, bins)[i] == BinOf(prices, bins, i);
  }

  /** The sum of the counts. */
  function Total(bs: seq<Bin>): nat {
    if |bs| == 0 then 0 else Total(bs[..|bs| - 1]) + bs[|bs| - 1].count
  }

  /** The first `k` bins together count the prices between the lowest price and
      the upper edge of bin `k - 1`. */
  lemma {:induction false} TotalOfFirstBins(prices: seq<real>, bins: nat, k: nat)
    requires |prices| > 0 && bins > 0 && k <= bins
    ensures Total(Bins(prices, bins)[..k]) == CountBetween(prices, Edge(prices, bins, 0), Edge(prices, bins, k))
  {
    var bs := Bins(prices, bins);
    if k > 0 {
      TotalOfFirstBins(prices, bins, k - 1);
      assert bs[..k][..k - 1] == bs[..k - 1];
      BinAt(prices, bins, k - 1);
      EdgeMonotone(prices, bins, 0, k - 1);
      EdgeMonotone(prices, bins, k - 1, k);
      CountSplit(prices, Edge(prices, bins, 0), Edge(prices, bins, k - 1), Edge(prices, bins, k));
    } else {
      EmptyInterval(prices, Edge(prices, bins, 0));
    }
  }

  /** The bins never count the highest price: together they hold every price but
      those equal to the maximum, because the last bin is open at the top and its
      upper edge is the maximum itself. With no prices they hold nothing. */
  lemma BinsMissTheMaximum(prices: seq<real>, bins: nat)
    requires bins > 0
    ensures |prices| == 0 ==> Total(Bins(prices, bins)) == 0
    ensures |prices| > 0 ==> Total(Bins(prices, bins)) == |prices| - multiset(prices)[Max(prices)]
    ensures |prices| > 0 ==> Total(Bins(prices, bins)) < |prices|
  {
    var bs := Bins(prices, bins);
    assert bs[..bins] == bs;
    if |prices| == 0 {
      ZeroTotal(bs);
    } else {
      TotalOfFirstBins(prices, bins, bins);
      OuterEdges(prices, bins);
      CountBelowTop(prices, Min(prices), Max(prices));
      assert Max(prices) in multiset(prices);
    }
  }

  lemma {:induction false} ZeroTotal(bs: seq<Bin>)
    requires forall i :: 0 <= i < |bs| ==> bs[i].count == 0
    ensures Total(bs) == 0
  {
    if |bs| > 0 {
      ZeroTotal(bs[..|bs| - 1]);
    }
  }

  /** The bins are disjoint and laid end to end: each bin starts where the one
      before ends, and a price falls in at most one bin. */
  lemma BinsTile(prices: seq<real>, bins: nat, i: nat, j: nat, p: real)
    requires |prices| > 0 && i < j < bins
    ensures Bins(prices, bins)[i + 1].start == Bins(prices, bins)[i].end
    ensures !(Edge(prices, bins, i) <= p < Edge(prices, bins, i + 1) && Edge(prices, bins, j) <= p < Edge(prices, bins, j + 1))
  {
    EdgeMonotone(prices, bins, i + 1, j);
  }

  /** When every price is the same the width is 0 and every bin is empty. */
  lemma ConstantPricesEmptyBins(prices: seq<real>, bins: nat, i: nat)
    requires |prices| > 0 && i < bins
    requires forall k :: 0 <= k < |prices| ==> prices[k] == prices[0]
    ensures Bins(prices, bins)[i].count == 0
  {
    assert Min(prices) == prices[0] == Max(prices);
    BinAt(prices, bins, i);
    assert Edge(prices, bins, i) == Edge(prices, bins, i + 1) == Min(prices);
    EmptyInterval(prices, Min(prices));
  }

  lemma {:induction false} EmptyInterval(prices: seq<real>, x: real)
    ensures CountBetween(prices, x, x) == 0
  {
    if |prices| > 0 {
      EmptyInterval(prices[1..], x);
    }
  }

  /** `hist`: 12 bins. */
  function Histogram(prices: seq<real>): (r: seq<Bin>)
    ensures |r| == 12
  {
    Bins(prices, 12)
  }

  /** One point of the density curve: the rounded centre of its bin (NaN when
      there are no prices) and the bin's count. */
  datatype DensityPoint = DensityPoint(price: JsNumber, count: nat)

  /** `Math.round((start + end) / 2)`: the integer nearest the midpoint of the
      bin, NaN when an edge is not finite. */
  function Centre(b: Bin): (c: JsNumber)
    ensures c.Finite? <==> b.start.Finite? && b.end.Finite?
    ensures c.Finite? ==> c.value.Floor as real == c.value
    ensures c.Finite? ==> (b.start.value + b.end.value) / 2.0 - 0.5 < c.value <= (b.start.value + b.end.value) / 2.0 + 0.5
  {
    if b.start.Finite? && b.end.Finite? then Finite(Round((b.start.value + b.end.value) / 2.0) as real) else NaN
  }

  /** `density`: the 40 finer bins, each drawn at its rounded centre. */
  function Density(prices: seq<real>): (r: seq<DensityPoint>)
    ensures |r| == 40
  {
    var bs := Bins(prices, 40);
    seq(40, i requires 0 <= i < 40 => DensityPoint(Centre(bs[i]), bs[i].count))
  }

  /** Each density point lies within the rounded price range and has the count of
      the matching fine bin. */
  lemma DensityWithinRange(prices: seq<real>, i: nat)
    requires |prices| > 0 && i < 40
    ensures Density(prices)[i].count == Bins(prices, 40)[i].count
    ensures Density(prices)[i].price.Finite?
    ensures Round(Min(prices)) as real <= Density(prices)[i].price.value <= Round(Max(prices)) as real
  {
    var b := Bins(prices, 40)[i];
    assert Density(prices)[i] == DensityPoint(Centre(b), b.count);
    BinCentreWithinRange(prices, 40, i);
  }

  /** The centre of a bin lies within the rounded price range. */
  lemma BinCentreWithinRange(prices: seq<real>, bins: nat, i: nat)
    requires |prices| > 0 && i < bins
    ensures Centre(Bins(prices, bins)[i]).Finite?
    ensures Round(Min(prices)) as real <= Centre(Bins(prices, bins)[i]).value <= Round(Max(prices)) as real
  {
    var lo, hi := Edge(prices, bins, i), Edge(prices, bins, i + 1);
    assert Min(prices) <= lo <= hi <= Max(prices) by {
      EdgeMonotone(prices, bins, 0, i);
      EdgeMonotone(prices, bins, i, i + 1);
      EdgeMonotone(prices, bins, i + 1, bins);
      OuterEdges(prices, bins);
    }
    BinAt(prices, bins, i);
    CentreBetween(Bins(prices, bins)[i], lo, hi, Min(prices), Max(prices));
  }

  lemma CentreBetween(b: Bin, lo: real, hi: real, a: real, c: real)
    requires b.start == Finite(lo) && b.end == Finite(hi) && a <= lo <= hi <= c
    ensures Centre(b).Finite? && Round(a) as real <= Centre(b).value <= Round(c) as real
  {
    RoundMonotone(a, (lo + hi) / 2.0);
    RoundMonotone((lo + hi) / 2.0, c);
  }

  /** One bar of the growth chart: the year, its rounded average and the growth
      in percent over the year before. */
  datatype GrowthRow = GrowthRow(name: Option<int>, value: JsNumber, growth: JsNumber)

  /** The guard `prevAvg !== 0`; NaN passes it. */
  predicate GrowthApplies(prevAvg: JsNumber) {
    !(prevAvg.Finite? && prevAvg.value == 0.0)
  }

  /** `growthPct.toFixed(1)` (a string; its numeric value here), where `growthPct`
      is 0 or, when `prevAvg !== 0`, `((avgPrice - prevAvg) / prevAvg) * 100`. The
      figure is finite exactly when the guard fails or both averages are finite; an
      infinite average over a finite one gives an infinity whose sign flips with a
      negative divisor, and the rest is NaN. */
  function Growth(avg: JsNumber, prevAvg: JsNumber): (g: JsNumber)
    ensures !GrowthApplies(prevAvg) ==> g == Finite(0.0)
    ensures g.Finite? <==> !GrowthApplies(prevAvg) || (avg.Finite? && prevAvg.Finite?)
    ensures GrowthApplies(prevAvg) && avg.Infinite? && prevAvg.Finite? ==>
      g == Infinite(avg.negative != (prevAvg.value < 0.0))
  {
    if !GrowthApplies(prevAvg) then Finite(0.0) else PercentChange(avg, prevAvg)
  }

  /** Against any non-zero previous average the growth is the change in percent
      to within the one-decimal rounding; against 0 it is 0. */
  lemma GrowthMeaning(avg: real, prevAvg: real)
    ensures prevAvg == 0.0 ==> Growth(Finite(avg), Finite(prevAvg)) == Finite(0.0)
    ensures prevAvg != 0.0 ==>
      (Growth(Finite(avg), Finite(prevAvg)).Finite?
       && -0.05 <= Growth(Finite(avg), Finite(prevAvg)).value - (avg - prevAvg) / prevAvg * 100.0 <= 0.05)
  {
  }

  function YearOfRecord(d: ChartRecord): Option<int> {
    d.year
  }

  function PriceOfRecord(d: ChartRecord): real {
    d.price
  }

  /** `clean.map(d => d.year)`. */
  function Years(clean: seq<ChartRecord>): seq<Option<int>> {
    seq(|clean|, i requires 0 <= i < |clean| => clean[i].year)
  }

  /** The bar of `year`, given the average of the bar before: its average is
      finite exactly when the year has prices. */
  function GrowthEntry(clean: seq<ChartRecord>, year: Option<int>, prevAvg: JsNumber): (e: GrowthRow)
    ensures e.name == year
    ensures e.value.Finite? <==> |PricesWith(clean, YearOfRecord, PriceOfRecord, year)| > 0
    ensures e.growth.Finite? <==> !GrowthApplies(prevAvg) || (e.value.Finite? && prevAvg.Finite?)
  {
    var avg := RoundedAverage(PricesWith(clean, YearOfRecord, PriceOfRecord, year));
    GrowthRow(year, avg, Growth(avg, prevAvg))
  }

  /** The average that the loop carries into bar `i`: 0 before the first bar. */
  function PreviousAverage(rows: seq<GrowthRow>, i: nat): JsNumber
    requires i <= |rows|
  {
    if i == 0 then Finite(0.0) else rows[i - 1].value
  }

  /** The first `|rows|` bars of `years.map(...)`, each measured against the
      average of the bar before. */
  ghost predicate RowsUpTo(clean: seq<ChartRecord>, years: seq<Option<int>>, rows: seq<GrowthRow>) {
    && |rows| <= |years|
    && forall i {:trigger PreviousAverage(rows, i)} :: 0 <= i < |rows| ==>
         rows[i] == GrowthEntry(clean, years[i], PreviousAverage(rows, i))
  }

  /** The growth chart over the sorted distinct years of the records. */
  ghost predicate IsYearlyGrowth(clean: seq<ChartRecord>, rows: seq<GrowthRow>) {
    var years := SortedYears(Years(clean));
    RowsUpTo(clean, years, rows) && |rows| == |years|
  }

  lemma RowAt(clean: seq<ChartRecord>, years: seq<Option<int>>, rows: seq<GrowthRow>, i: nat)
    requires RowsUpTo(clean, years, rows) && i < |rows|
    ensures rows[i] == GrowthEntry(clean, years[i], PreviousAverage(rows, i))
  {
  }

  lemma RowsStep(clean: seq<ChartRecord>, years: seq<Option<int>>, rows: seq<GrowthRow>)
    requires RowsUpTo(clean, years, rows) && |rows| < |years|
    ensures RowsUpTo(clean, years, rows + [GrowthEntry(clean, years[|rows|], PreviousAverage(rows, |rows|))])
  {
    var next := rows + [GrowthEntry(clean, years[|rows|], PreviousAverage(rows, |rows|))];
    forall j | 0 <= j < |next|
      ensures next[j] == GrowthEntry(clean, years[j], PreviousAverage(next, j))
    {
      if j < |rows| {
        assert next[j] == rows[j];
        assert PreviousAverage(next, j) == PreviousAverage(rows, j);
        RowAt(clean, years, rows, j);
      }
    }
  }

  /** `growthStats`: one bar per year in ascending order, `prevAvg` carried from
      bar to bar and starting at 0. */
  method YearlyGrowth(clean: seq<ChartRecord>) returns (rows: seq<GrowthRow>)
    ensures IsYearlyGrowth(clean, rows)
  {
    var years := SortedYears(Years(clean));
    var prevAvg := Finite(0.0);
    rows := [];
    while |rows| < |years|
      invariant RowsUpTo(clean, years, rows)
      invariant prevAvg == PreviousAverage(rows, |rows|)
      decreases |years| - |rows|
    {
      var entry := GrowthEntry(clean, years[|rows|], prevAvg);
      RowsStep(clean, years, rows);
      prevAvg := entry.value;
      rows := rows + [entry];
    }
  }

  /** The bars follow the years in ascending order with NaN last; the first bar
      shows no growth, and every bar of a parsed year has a finite average. */
  lemma YearlyGrowthShape(clean: seq<ChartRecord>, rows: seq<GrowthRow>)
    requires IsYearlyGrowth(clean, rows)
    ensures forall i, j :: 0 <= i < j < |rows| ==> YearBefore(rows[i].name, rows[j].name)
    ensures |rows| > 0 ==> rows[0].growth == Finite(0.0)
    ensures forall i :: 0 <= i < |rows| ==> (rows[i].value.Finite? <==> rows[i].name.Some?)
  {
    var years := SortedYears(Years(clean));
    forall i | 0 <= i < |rows|
      ensures rows[i].name == years[i]
      ensures rows[i].value.Finite? <==> rows[i].name.Some?
    {
      RowAt(clean, years, rows, i);
      assert years[i] in Years(clean);
      var k :| 0 <= k < |clean| && Years(clean)[k] == years[i];
      PricesWithEmpty(clean, YearOfRecord, PriceOfRecord, years[i]);
    }
    if |rows| > 0 {
      RowAt(clean, years, rows, 0);
    }
  }

  /** The component state: the four series and the loading flag. */
  datatype View = View(trend: seq<ChartRecord>, hist: seq<Bin>, growth: seq<GrowthRow>,
                       density: seq<DensityPoint>, loading: bool)

  const Initial := View([], [], [], [], true)

  /** `clean.map(d => d.price)`. */
  function Prices(clean: seq<ChartRecord>): seq<real> {
    seq(|clean|, i requires 0 <= i < |clean| => clean[i].price)
  }

  /** The `complete` callback. Unlike the analytics slide it sets the series even
      when no record survives; only a throwing callback leaves the slide loading. */
  method Complete(rows: seq<RawRow>, stamp: string -> real) returns (view: View)
    requires forall i :: 0 <= i < |rows| ==> ReaderRow(rows[i])
    ensures view.loading <==> Clean(rows, stamp).None?
    ensures view.loading ==> view == Initial
    ensures !view.loading ==>
      var clean := Clean(rows, stamp).value;
      && view.trend == Trend(clean)
      && view.hist == Histogram(Prices(clean))
      && IsYearlyGrowth(clean, view.growth)
      && view.density == Density(Prices(clean))
  {
    var cleaned := Clean(rows, stamp);
    if cleaned.None? {
      return Initial;
    }
    var clean := cleaned.value;
    var prices := Prices(clean);
    var growth := YearlyGrowth(clean);
    view := View(Trend(clean), Histogram(prices), growth, Density(prices), false);
  }
}
