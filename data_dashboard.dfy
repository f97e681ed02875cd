/** The statistical summary slide: the `complete` callback keeps the rows whose
    price converts to a finite number and that have a date, computes the summary
    statistics of the prices, and groups the records by year; a year cursor then
    steps through the groups and shows the first and last three records of the
    current year. */
module DataDashboard {
  import opened Options
  import opened JsValues
  import opened Statistics
  import opened PriceRows

  /** A cleaned row: the date text, `Number(Integer_price)` and the year read from
      the date (`None` for NaN). */
  datatype DashRecord = DashRecord(date: string, price: real, year: Option<int>)

  /** The row filter `isValidNumber(Number(row.Integer_price)) && row.Date`. */
  predicate KeepsRow(row: RawRow) {
    IsValidNumber(Num(ToNumber(row.price))) && Truthy(row.date)
  }

  /** The filter keeps exactly the rows with a truthy date whose price converts to
      a finite number; an empty cell (`null`) and `true` convert to 0 and 1. */
  lemma KeepsRowMeaning(row: RawRow)
    ensures KeepsRow(row) <==> Truthy(row.date) && ToNumber(row.price).Finite?
    ensures Truthy(row.date) && row.price == Null ==> KeepsRow(row) && ToNumber(row.price) == Finite(0.0)
    ensures Truthy(row.date) && row.price == Bool(true) ==> KeepsRow(row) && ToNumber(row.price) == Finite(1.0)
  {
  }

  /** The filter and map of the callback. `None` when a kept row's `Date` is truthy
      but not a string: `split` is then missing and the callback throws. */
  function CleanData(rows: seq<RawRow>): (r: Option<seq<DashRecord>>)
    ensures r.Some? <==> DatesAreStrings(Keep(rows, KeepsRow))
    ensures r.Some? ==> |r.value| == |Keep(rows, KeepsRow)|
    ensures r.Some? ==> forall i :: 0 <= i < |r.value| ==>
      var row := Keep(rows, KeepsRow)[i];
      && row.date == Str(r.value[i].date)
      && ToNumber(row.price) == Finite(r.value[i].price)
      && r.value[i].year == YearOf(r.value[i].date)
  {
    var kept := Keep(rows, KeepsRow);
    if DatesAreStrings(kept) then
      Some(seq(|kept|, i requires 0 <= i < |kept| =>
        DashRecord(kept[i].date.s, ToNumber(kept[i].price).value, YearOf(kept[i].date.s))))
    else None
  }

  /** `cleanData.map(d => d.price)`. */
  function Prices(data: seq<DashRecord>): seq<real> {
    seq(|data|, i requires 0 <= i < |data| => data[i].price)
  }

  /** The summary cards as numbers: the record count, and the mean, median, mode
      and variance each rounded with `Math.round`. */
  datatype Stats = Stats(count: nat, mean: int, median: int, mode: int, variance: int)

  /** The cards before the data arrive: all "0". */
  const InitialStats := Stats(0, 0, 0, 0, 0)

  /** `s` holds the statistics of `prices`: the mode is the value whose count first
      reaches the highest count, and the variance is taken about the unrounded
      mean. */
  ghost predicate IsStatsOf(prices: seq<real>, s: Stats) {
    && s.count == |prices|
    && s.mean == Round(Mean(prices))
    && s.median == Round(Median(prices))
    && s.variance == Round(Variance(prices, Mean(prices)))
    && (|prices| == 0 ==> s.mode == 0)
    && (|prices| > 0 ==> exists m :: IsFirstModal(prices, m) && s.mode == Round(m))
  }

  /** The `setStats` call. */
  method ComputeStats(prices: seq<real>) returns (s: Stats)
    ensures IsStatsOf(prices, s)
  {
    var mean := Mean(prices);
    var varianceVal := Variance(prices, mean);
    var mode := CalculateMode(prices);
    s := Stats(|prices|, Round(mean), Round(Median(prices)), Round(mode), Round(varianceVal));
  }

  /** The rounded mean, median and mode lie within the rounded price range, and the
      rounded variance is never negative. */
  lemma StatsWithinRange(prices: seq<real>, s: Stats)
    requires |prices| > 0 && IsStatsOf(prices, s)
    ensures Round(Min(prices)) <= s.mean <= Round(Max(prices))
    ensures Round(Min(prices)) <= s.median <= Round(Max(prices))
    ensures Round(Min(prices)) <= s.mode <= Round(Max(prices))
    ensures s.variance >= 0
  {
    MeanBetweenMinAndMax(prices);
    RoundMonotone(Min(prices), Mean(prices));
    RoundMonotone(Mean(prices), Max(prices));
    MedianBetweenMinAndMax(prices);
    RoundMonotone(Min(prices), Median(prices));
    RoundMonotone(Median(prices), Max(prices));
    var m :| IsFirstModal(prices, m) && s.mode == Round(m);
    FirstModalIsMostFrequent(prices, m);
    RoundMonotone(Min(prices), m);
    RoundMonotone(m, Max(prices));
    RoundMonotone(0.0, Variance(prices, Mean(prices)));
  }

  /** The records of year `y` in their order; the NaN year collects the records
      whose year is NaN, since they all go under the key "NaN". */
  function Group(data: seq<DashRecord>, y: Option<int>): (r: seq<DashRecord>)
    ensures |r| <= |data|
    ensures forall i :: 0 <= i < |r| ==> r[i].year == y && r[i] in data
  {
    if |data| == 0 then []
    else
      var init := data[..|data| - 1];
      var last := data[|data| - 1];
      assert forall d :: d in init ==> d in data;
      Group(init, y) + (if last.year == y then [last] else [])
  }

  /** A year has a group exactly when some record carries it, and every record is
      in the group of its own year. */
  lemma {:induction false} GroupMembers(data: seq<DashRecord>, y: Option<int>)
    ensures |Group(data, y)| > 0 <==> exists k :: 0 <= k < |data| && data[k].year == y
    ensures forall k :: 0 <= k < |data| && data[k].year == y ==> data[k] in Group(data, y)
  {
    if |data| > 0 {
      var init := data[..|data| - 1];
      GroupMembers(init, y);
      assert forall k :: 0 <= k < |init| ==> init[k] == data[k];
      forall k | 0 <= k < |data| && data[k].year == y
        ensures data[k] in Group(data, y)
      {
        if k < |init| {
          assert init[k] in Group(init, y);
        }
      }
      if exists k :: 0 <= k < |data| && data[k].year == y {
        var k :| 0 <= k < |data| && data[k].year == y;
        assert data[k] in Group(data, y);
      }
    }
  }

  /** A group holds every record of its year as often as the data does, and no
      other record. */
  lemma {:induction false} GroupCounts(data: seq<DashRecord>, y: Option<int>, d: DashRecord)
    ensures multiset(Group(data, y))[d] == if d.year == y then multiset(data)[d] else 0
  {
    if |data| > 0 {
      var init := data[..|data| - 1];
      var last := data[|data| - 1];
      GroupCounts(init, y, d);
      GroupOfSnoc(data, y);
      assert multiset(data) == multiset(init) + multiset{last} by {
        assert data == init + [last];
      }
      if last == d {
        assert multiset{last}[d] == 1;
      } else {
        assert multiset{last}[d] == 0;
      }
    }
  }

  /** The group of a non-empty list: the group of all but the last record, and
      the last record when it is of the year. */
  lemma GroupOfSnoc(data: seq<DashRecord>, y: Option<int>)
    requires |data| > 0
    ensures multiset(Group(data, y)) ==
      multiset(Group(data[..|data| - 1], y)) + (if data[|data| - 1].year == y then multiset{data[|data| - 1]} else multiset{})
  {
  }

  /** The sizes of the groups of `years` added up. */
  function GroupSizes(data: seq<DashRecord>, years: seq<Option<int>>): nat {
    if |years| == 0 then 0 else |Group(data, years[0])| + GroupSizes(data, years[1..])
  }

  /** One more record adds one to the total exactly when its year is listed, for
      a list of distinct years. */
  lemma {:induction false} GroupSizesStep(data: seq<DashRecord>, d: DashRecord, years: seq<Option<int>>)
    requires NoDuplicates(years)
    ensures GroupSizes(data + [d], years) == GroupSizes(data, years) + (if d.year in years then 1 else 0)
  {
    if |years| > 0 {
      assert (data + [d])[..|data + [d]| - 1] == data;
      assert NoDuplicates(years[1..]);
      GroupSizesStep(data, d, years[1..]);
      assert years == [years[0]] + years[1..];
    }
  }

  /** Over distinct years that cover every record, the group sizes add up to the
      number of records. */
  lemma {:induction false} GroupSizesCover(data: seq<DashRecord>, years: seq<Option<int>>)
    requires NoDuplicates(years)
    requires forall k :: 0 <= k < |data| ==> data[k].year in years
    ensures GroupSizes(data, years) == |data|
  {
    if |data| == 0 {
      EmptyGroupSizes(years);
    } else {
      var init := data[..|data| - 1];
      GroupSizesCover(init, years);
      GroupSizesStep(init, data[|data| - 1], years);
      assert init + [data[|data| - 1]] == data;
    }
  }

  lemma {:induction false} EmptyGroupSizes(years: seq<Option<int>>)
    ensures GroupSizes([], years) == 0
  {
    if |years| > 0 {
      EmptyGroupSizes(years[1..]);
    }
  }

  /** The groups of the listed years together hold every record once: their
      sizes add up to the number of records. */
  lemma GroupSizesSum(data: seq<DashRecord>)
    ensures GroupSizes(data, SortedYears(Years(data))) == |data|
  {
    var years := SortedYears(Years(data));
    SortedYearsDistinct(Years(data));
    forall k | 0 <= k < |data|
      ensures data[k].year in years
    {
      assert Years(data)[k] == data[k].year;
    }
    GroupSizesCover(data, years);
  }

  /** `grouped` maps exactly the years that occur in `data`, each to its group. */
  ghost predicate GroupedBy(data: seq<DashRecord>, grouped: map<Option<int>, seq<DashRecord>>) {
    && (forall y :: y in grouped <==> |Group(data, y)| > 0)
    && (forall y :: y in grouped ==> grouped[y] == Group(data, y))
  }

  /** The `reduce` over the records: `acc[row.year]` is created on the first record
      of a year and every record is pushed onto the array of its year. */
  method GroupByYear(data: seq<DashRecord>) returns (grouped: map<Option<int>, seq<DashRecord>>)
    ensures GroupedBy(data, grouped)
  {
    grouped := map[];
    var i := 0;
    while i < |data|
      invariant 0 <= i <= |data|
      invariant GroupedBy(data[..i], grouped)
    {
      var row := data[i];
      assert data[..i + 1][..i] == data[..i] && data[..i + 1][i] == row;
      if row.year !in grouped {
        grouped := grouped[row.year := []];
      }
      grouped := grouped[row.year := grouped[row.year] + [row]];
      i := i + 1;
    }
    assert data[..i] == data;
  }

  /** The year of every record, in record order. The key list
      `Object.keys(grouped).map(Number).sort()` is `SortedYears(Years(data))`:
      the keys are the decimal years and "NaN", and read back as numbers and
      sorted they are the distinct years in ascending order with NaN last. */
  function Years(data: seq<DashRecord>): seq<Option<int>> {
    seq(|data|, i requires 0 <= i < |data| => data[i].year)
  }

  lemma GroupKeys(data: seq<DashRecord>, y: Option<int>)
    ensures y in SortedYears(Years(data)) <==> |Group(data, y)| > 0
  {
    GroupMembers(data, y);
    YearOccurs(data, y);
  }

  /** A year is listed exactly when some record carries it. */
  lemma YearOccurs(data: seq<DashRecord>, y: Option<int>)
    ensures y in Years(data) <==> exists k :: 0 <= k < |data| && data[k].year == y
  {
    var years := Years(data);
    if y in years {
      var k :| 0 <= k < |years| && years[k] == y;
      assert data[k].year == y;
    }
    if exists k :: 0 <= k < |data| && data[k].year == y {
      var k :| 0 <= k < |data| && data[k].year == y;
      assert years[k] == y;
    }
  }

  /** The years are the group keys, each once and in ascending order, and no
      group is empty. */
  ghost predicate GroupsAndYears(groups: map<Option<int>, seq<DashRecord>>, years: seq<Option<int>>) {
    && (forall y :: y in years <==> y in groups)
    && (forall i, j :: 0 <= i < j < |years| ==> YearBefore(years[i], years[j]))
    && (forall y :: y in groups ==> |groups[y]| > 0)
  }

  /** The sorted years are the group keys, in ascending order, and no group is
      empty. */
  lemma GroupedYears(data: seq<DashRecord>, grouped: map<Option<int>, seq<DashRecord>>)
    requires GroupedBy(data, grouped)
    ensures GroupsAndYears(grouped, SortedYears(Years(data)))
    ensures |data| > 0 ==> |SortedYears(Years(data))| > 0
  {
    if |data| > 0 {
      assert Years(data)[0] in Years(data);
    }
    forall y
      ensures y in SortedYears(Years(data)) <==> y in grouped
    {
      GroupKeys(data, y);
    }
  }

  /** `slice(0, 3)`. */
  function FirstThreeOf(g: seq<DashRecord>): (r: seq<DashRecord>)
    ensures |r| == if |g| < 3 then |g| else 3
    ensures r == g[..|r|]
  {
    if |g| < 3 then g else g[..3]
  }

  /** `slice(-3)`. */
  function LastThreeOf(g: seq<DashRecord>): (r: seq<DashRecord>)
    ensures |r| == if |g| < 3 then |g| else 3
    ensures r == g[|g| - |r|..]
  {
    if |g| < 3 then g else g[|g| - 3..]
  }

  /** The slide's state: the summary cards, the groups, the sorted years and the
      cursor into them. */
  class Dashboard {
    var stats: Stats
    var yearlyData: map<Option<int>, seq<DashRecord>>
    var years: seq<Option<int>>
    var currentYearIndex: nat

    /** The cursor points at a year whenever there is one; the years are the
        group keys, each once and in ascending order; no group is empty. */
    ghost predicate Valid()
      reads this`years, this`yearlyData, this`currentYearIndex
    {
      && (|years| == 0 ==> currentYearIndex == 0)
      && (|years| > 0 ==> currentYearIndex < |years|)
      && GroupsAndYears(yearlyData, years)
    }

    /** The initial state: "0" on every card, no groups, no years, cursor at 0. */
    constructor ()
      ensures Valid()
      ensures stats == InitialStats && yearlyData == map[] && years == [] && currentYearIndex == 0
    {
      stats := InitialStats;
      yearlyData := map[];
      years := [];
      currentYearIndex := 0;
    }

    /** `years[currentYearIndex]`, `None` for `undefined`. */
    function CurrentYear(): (r: Option<Option<int>>)
      reads this
      ensures r.Some? <==> currentYearIndex < |years|
    {
      if currentYearIndex < |years| then Some(years[currentYearIndex]) else None
    }

    /** `yearlyData[currentYear]?.slice(0, 3) || []`. */
    function FirstThree(): (r: seq<DashRecord>)
      reads this
      ensures |r| <= 3
    {
      var y := CurrentYear();
      if y.Some? && y.value in yearlyData then FirstThreeOf(yearlyData[y.value]) else []
    }

    /** `yearlyData[currentYear]?.slice(-3) || []`. */
    function LastThree(): (r: seq<DashRecord>)
      reads this
      ensures |r| <= 3
    {
      var y := CurrentYear();
      if y.Some? && y.value in yearlyData then LastThreeOf(yearlyData[y.value]) else []
    }

    /** While there is a year the tables show the first and the last records of
        its group, never empty, and the same records when the group has at most
        three; with no year both are empty. */
    lemma TablesOfCurrentYear()
      requires Valid()
      ensures |years| == 0 ==> FirstThree() == [] && LastThree() == []
      ensures |years| > 0 ==>
        var g := yearlyData[years[currentYearIndex]];
        && FirstThree() == g[..|FirstThree()|] && LastThree() == g[|g| - |LastThree()|..]
        && |FirstThree()| > 0 && |LastThree()| > 0
        && (|g| <= 3 ==> FirstThree() == LastThree() == g)
    {
      if |years| > 0 {
        assert years[currentYearIndex] in years;
      }
    }

    /** The `complete` callback, run once when the slide mounts. When the callback
        throws or no record survives nothing changes; otherwise the cards, the
        groups and the years are set and the cursor stays at the first year. */
    method Complete(rows: seq<RawRow>)
      requires Valid() && years == []
      modifies this
      ensures Valid()
      ensures currentYearIndex == old(currentYearIndex)
      ensures CleanData(rows).None? || |CleanData(rows).value| == 0 ==>
        stats == old(stats) && yearlyData == old(yearlyData) && years == old(years)
      ensures CleanData(rows).Some? && |CleanData(rows).value| > 0 ==>
        var data := CleanData(rows).value;
        && IsStatsOf(Prices(data), stats)
        && years == SortedYears(Years(data))
        && GroupedBy(data, yearlyData)
    {
      var cleaned := CleanData(rows);
      if cleaned.Some? && |cleaned.value| > 0 {
        Load(cleaned.value);
      }
    }

    /** The state updates of a callback that has records to show: `setStats`,
        `setYearlyData` and `setYears`. */
    method Load(data: seq<DashRecord>)
      requires Valid() && years == []
      modifies this`stats, this`yearlyData, this`years
      ensures Valid()
      ensures IsStatsOf(Prices(data), stats)
      ensures years == SortedYears(Years(data))
      ensures GroupedBy(data, yearlyData)
    {
      var s := ComputeStats(Prices(data));
      stats := s;
      LoadYears(data);
    }

    /** `setYearlyData(grouped)` and `setYears(...)`: the groups of the records
        and their sorted years; the cards and the cursor are untouched. */
    method LoadYears(data: seq<DashRecord>)
      requires Valid() && years == []
      modifies this`yearlyData, this`years
      ensures Valid()
      ensures years == SortedYears(Years(data))
      ensures GroupedBy(data, yearlyData)
    {
      var grouped := GroupByYear(data);
      var ys := SortedYears(Years(data));
      GroupedYears(data, grouped);
      SetGroups(grouped, ys);
    }

    /** Installs groups and their years; the cursor stays where it is. */
    method SetGroups(grouped: map<Option<int>, seq<DashRecord>>, ys: seq<Option<int>>)
      requires Valid() && years == [] && GroupsAndYears(grouped, ys)
      modifies this`yearlyData, this`years
      ensures Valid()
      ensures yearlyData == grouped && years == ys
    {
      yearlyData, years := grouped, ys;
    }

    /** The left arrow: one year back unless the cursor is at the first year. */
    method Prev()
      requires Valid()
      modifies this
      ensures Valid()
      ensures currentYearIndex == if old(currentYearIndex) > 0 then old(currentYearIndex) - 1 else old(currentYearIndex)
      ensures stats == old(stats) && yearlyData == old(yearlyData) && years == old(years)
    {
      if currentYearIndex > 0 {
        currentYearIndex := currentYearIndex - 1;
      }
    }

    /** The right arrow: one year on unless the cursor is at the last year. */
    method Next()
      requires Valid()
      modifies this
      ensures Valid()
      ensures currentYearIndex == if old(currentYearIndex) < |years| - 1 then old(currentYearIndex) + 1 else old(currentYearIndex)
      ensures stats == old(stats) && yearlyData == old(yearlyData) && years == old(years)
    {
      if currentYearIndex < |years| - 1 {
        currentYearIndex := currentYearIndex + 1;
      }
    }
  }
}
