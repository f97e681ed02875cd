/** What the three price pipelines share: the raw rows the CSV reader hands over,
    the reading of `D/M/YYYY` dates, the order-keeping row filter, the per-year
    price lists with their rounded averages, and the list of distinct years in
    ascending order. */
module PriceRows {
  import opened Options
  import opened JsStrings
  import opened JsValues
  import opened Statistics
  import Sorting

  /** A parsed CSV row: the `Date` and `Integer_price` columns. */
  datatype RawRow = RawRow(date: JsValue, price: JsValue)

  /** What the CSV reader with dynamic typing can produce: it turns a cell into a
      number only when the cell is a decimal literal whose value lies strictly
      within 2^53 in magnitude, so no cell is ever NaN or infinite. */
  predicate ReaderValue(v: JsValue) {
    v.Num? ==> v.n.Finite?
  }

  predicate ReaderRow(row: RawRow) {
    ReaderValue(row.date) && ReaderValue(row.price)
  }

  /** The filter of the analytics and chart pipelines: a truthy `Date` and a
      price whose `typeof` is `'number'` and which is not NaN. */
  predicate HasDateAndNumericPrice(row: RawRow) {
    Truthy(row.date) && TypeOf(row.price) == "number" && !IsNaN(row.price)
  }

  /** The numeric test lets every number through except NaN, infinities included,
      and no string, boolean, null or missing cell. */
  lemma NumericTestKeepsInfinity(row: RawRow)
    ensures HasDateAndNumericPrice(row) <==> Truthy(row.date) && row.price.Num? && !row.price.n.NaN?
    ensures Truthy(row.date) && row.price == Num(Infinite(false)) ==> HasDateAndNumericPrice(row)
  {
  }

  /** The rows that pass `HasDateAndNumericPrice`, in their order. */
  function KeptRows(rows: seq<RawRow>): seq<RawRow> {
    Keep(rows, HasDateAndNumericPrice)
  }

  /** A kept row of the reader has a finite price. */
  lemma KeptRowsFinite(rows: seq<RawRow>)
    requires forall i :: 0 <= i < |rows| ==> ReaderRow(rows[i])
    ensures forall i :: 0 <= i < |KeptRows(rows)| ==> KeptRows(rows)[i].price.Num? && KeptRows(rows)[i].price.n.Finite?
  {
    var kept := KeptRows(rows);
    forall i | 0 <= i < |kept|
      ensures kept[i].price.Num? && kept[i].price.n.Finite?
    {
      assert kept[i] in rows && HasDateAndNumericPrice(kept[i]);
      var j :| 0 <= j < |rows| && rows[j] == kept[i];
      assert ReaderRow(rows[j]);
    }
  }

  /** `s.filter(p)`: the elements that satisfy `p`, in their order. */
  function Keep<T>(s: seq<T>, p: T -> bool): (r: seq<T>)
    ensures |r| <= |s|
    ensures forall i :: 0 <= i < |r| ==> p(r[i]) && r[i] in s
    ensures forall i :: 0 <= i < |s| && p(s[i]) ==> s[i] in r
  {
    if |s| == 0 then [] else (if p(s[0]) then [s[0]] else []) + Keep(s[1..], p)
  }

  /** The elements that `p` rejects, in their order. */
  function Drop<T>(s: seq<T>, p: T -> bool): (r: seq<T>)
    ensures forall i :: 0 <= i < |r| ==> !p(r[i]) && r[i] in s
  {
    if |s| == 0 then [] else (if p(s[0]) then [] else [s[0]]) + Drop(s[1..], p)
  }

  /** Every element is either kept or dropped, and with its multiplicity: the
      kept and the dropped elements together are the input. */
  lemma {:induction false} KeepDropLength<T>(s: seq<T>, p: T -> bool)
    ensures multiset(Keep(s, p)) + multiset(Drop(s, p)) == multiset(s)
    ensures |Keep(s, p)| + |Drop(s, p)| == |s|
  {
    KeepDropParts(s, p);
    assert |multiset(Keep(s, p)) + multiset(Drop(s, p))| == |multiset(s)|;
  }

  lemma {:induction false} KeepDropParts<T>(s: seq<T>, p: T -> bool)
    ensures multiset(Keep(s, p)) + multiset(Drop(s, p)) == multiset(s)
  {
    if |s| > 0 {
      KeepDropParts(s[1..], p);
      var head := multiset{s[0]};
      assert multiset(Keep(s, p)) == (if p(s[0]) then head else multiset{}) + multiset(Keep(s[1..], p));
      assert multiset(Drop(s, p)) == (if p(s[0]) then multiset{} else head) + multiset(Drop(s[1..], p));
      Sorting.MultisetOfCons(s);
    }
  }

  /** An element that passes is kept as often as it occurs, one that fails not
      at all. */
  lemma {:induction false} KeepCounts<T>(s: seq<T>, p: T -> bool, x: T)
    ensures multiset(Keep(s, p))[x] == if p(x) then multiset(s)[x] else 0
  {
    if |s| > 0 {
      KeepCounts(s[1..], p, x);
      assert multiset(Keep(s, p)) == (if p(s[0]) then multiset{s[0]} else multiset{}) + multiset(Keep(s[1..], p));
      Sorting.MultisetOfCons(s);
    }
  }

  /** The filter of a one-element list keeps it exactly when it passes; with
      `KeepAppend` this fixes `Keep` on every list, so the kept elements keep
      their order. */
  lemma KeepSingle<T>(x: T, p: T -> bool)
    ensures Keep([x], p) == if p(x) then [x] else []
  {
    assert [x][1..] == [];
  }

  /** Filtering works piece by piece, so the kept elements keep their order. */
  lemma {:induction false} KeepAppend<T>(a: seq<T>, b: seq<T>, p: T -> bool)
    ensures Keep(a + b, p) == Keep(a, p) + Keep(b, p)
  {
    if |a| == 0 {
      assert a + b == b;
    } else {
      assert (a + b)[1..] == a[1..] + b;
      KeepAppend(a[1..], b, p);
    }
  }

  /** A sequence whose elements all pass is kept whole. */
  lemma {:induction false} KeepEverything<T>(s: seq<T>, p: T -> bool)
    requires forall i :: 0 <= i < |s| ==> p(s[i])
    ensures Keep(s, p) == s
  {
    if |s| > 0 {
      KeepEverything(s[1..], p);
    }
  }

  /** `row.Date.split('/')` only succeeds when `Date` is a string; any other
      truthy value has no `split` method and the callback throws. */
  predicate DatesAreStrings(rows: seq<RawRow>) {
    forall i :: 0 <= i < |rows| ==> rows[i].date.Str?
  }

  /** The `i`-th element of a split, or `undefined` past its end. */
  function Field(parts: seq<string>, i: nat): (f: Option<string>)
    ensures f.Some? <==> i < |parts|
  {
    if i < |parts| then Some(parts[i]) else None
  }

  /** `parseInt(date.split('/')[2])`: the year of a `D/M/YYYY` date; a date with
      fewer than three fields has no third field and a NaN year. */
  function YearOf(date: string): (y: Option<int>)
    ensures |Split(date, '/')| < 3 ==> y.None?
  {
    ParseInt(Field(Split(date, '/'), 2))
  }

  /** `parseInt(date.split('/')[1])`: the month of a `D/M/YYYY` date; a date
      without a slash has a NaN month. */
  function MonthOf(date: string): (m: Option<int>)
    ensures '/' !in date ==> m.None?
  {
    assert '/' !in date ==> Split(date, '/') == [date] by {
      if '/' !in date {
        SplitWithoutSeparator(date, '/');
      }
    }
    ParseInt(Field(Split(date, '/'), 1))
  }

  /** The date written as `D/M/YYYY`. */
  function DateString(day: nat, month: nat, year: nat): string {
    Join([DecimalString(day), DecimalString(month), DecimalString(year)], '/')
  }

  /** A date written as `D/M/YYYY` gives back its year and month. */
  lemma DateFieldsRoundTrip(day: nat, month: nat, year: nat)
    ensures YearOf(DateString(day, month, year)) == Some(year)
    ensures MonthOf(DateString(day, month, year)) == Some(month)
  {
    var parts := [DecimalString(day), DecimalString(month), DecimalString(year)];
    forall i | 0 <= i < |parts|
      ensures '/' !in parts[i]
    {
      NoSlashInDigits(parts[i]);
    }
    SplitJoin(parts, '/');
    ParseIntOfDecimal(year);
    ParseIntOfDecimal(month);
  }

  /** A numeral holds no `/`. */
  lemma NoSlashInDigits(s: string)
    requires forall k :: 0 <= k < |s| ==> IsDigit(s[k], 10)
    ensures '/' !in s
  {
    assert !IsDigit('/', 10);
    forall k | 0 <= k < |s|
      ensures s[k] != '/'
    {
      assert IsDigit(s[k], 10);
    }
  }

  /** `records.filter(d => d.field === value).map(d => d.price)` for a field read
      with `parseInt`: the prices of the records whose field is `value`, in record
      order. NaN (`None`) equals nothing, itself included. */
  function PricesWith<R>(records: seq<R>, fieldOf: R -> Option<int>, priceOf: R -> real, value: Option<int>): (r: seq<real>)
    ensures |r| <= |records|
  {
    if |records| == 0 then []
    else
      var first := if value.Some? && fieldOf(records[0]) == value then [priceOf(records[0])] else [];
      first + PricesWith(records[1..], fieldOf, priceOf, value)
  }

  /** A value has no prices exactly when it is NaN or no record carries it. */
  lemma {:induction false} PricesWithEmpty<R>(records: seq<R>, fieldOf: R -> Option<int>, priceOf: R -> real, value: Option<int>)
    ensures |PricesWith(records, fieldOf, priceOf, value)| == 0
      <==> value == None || forall k :: 0 <= k < |records| ==> fieldOf(records[k]) != value
  {
    if |records| > 0 {
      PricesWithEmpty(records[1..], fieldOf, priceOf, value);
      assert forall k :: 0 < k < |records| ==> records[k] == records[1..][k - 1];
    }
  }

  /** `Math.round(prices.reduce((a, b) => a + b, 0) / prices.length)`: the mean
      rounded half up; an empty list divides 0 by 0 and gives NaN. */
  function RoundedAverage(prices: seq<real>): (r: JsNumber)
    ensures r.NaN? <==> |prices| == 0
    ensures r.Finite? <==> |prices| > 0
  {
    if |prices| == 0 then NaN else Finite(Round(Mean(prices)) as real)
  }

  /** The rounded average of a non-empty list lies between its rounded extremes. */
  lemma RoundedAverageBetween(prices: seq<real>)
    requires |prices| > 0
    ensures Round(Min(prices)) as real <= RoundedAverage(prices).value <= Round(Max(prices)) as real
  {
    MeanBetweenMinAndMax(prices);
    RoundMonotone(Min(prices), Mean(prices));
    RoundMonotone(Mean(prices), Max(prices));
  }

  /** No value occurs twice. */
  ghost predicate NoDuplicates<T>(s: seq<T>) {
    forall i, j :: 0 <= i < j < |s| ==> s[i] != s[j]
  }

  /** The parsed years in record order (the NaN ones left out). */
  function ParsedYears(years: seq<Option<int>>): (r: seq<int>)
    ensures forall y :: y in r <==> Some(y) in years
  {
    if |years| == 0 then []
    else
      var rest := ParsedYears(years[1..]);
      assert years == [years[0]] + years[1..];
      if years[0].Some? then [years[0].value] + rest else rest
  }

  /** `[...new Set(xs)]`: each value once, in the order of its first occurrence. */
  function Distinct(xs: seq<int>): (r: seq<int>)
    ensures NoDuplicates(r)
    ensures forall x :: x in r <==> x in xs
  {
    if |xs| == 0 then []
    else
      var init := Distinct(xs[..|xs| - 1]);
      var last := xs[|xs| - 1];
      assert xs == xs[..|xs| - 1] + [last];
      if last in init then init else init + [last]
  }

  lemma {:induction false} AtMostOnce<T>(s: seq<T>, x: T)
    requires NoDuplicates(s)
    ensures multiset(s)[x] <= 1
  {
    if |s| > 0 {
      assert s == [s[0]] + s[1..];
      AtMostOnce(s[1..], x);
      if s[0] == x {
        assert x !in s[1..];
      }
    }
  }

  lemma TwiceCounted<T>(s: seq<T>, i: nat, j: nat)
    requires i < j < |s|
    ensures s[i] == s[j] ==> multiset(s)[s[i]] >= 2
  {
    assert s == s[..i] + [s[i]] + s[i + 1..j] + [s[j]] + s[j + 1..];
  }

  /** Rearranging a sequence without duplicates leaves none. */
  lemma NoDuplicatesPermutation<T>(a: seq<T>, b: seq<T>)
    requires NoDuplicates(a) && multiset(a) == multiset(b)
    ensures NoDuplicates(b)
  {
    forall i, j | 0 <= i < j < |b|
      ensures b[i] != b[j]
    {
      TwiceCounted(b, i, j);
      AtMostOnce(a, b[i]);
    }
  }

  function IntKey(n: int): real {
    n as real
  }

  /** Year `a` comes before year `b`: parsed years ascend, and NaN comes last. */
  predicate YearBefore(a: Option<int>, b: Option<int>) {
    a.Some? && (b.None? || a.value < b.value)
  }

  /** `ns.map(n => Some(n))`. */
  function AsYears(ns: seq<int>): seq<Option<int>> {
    seq(|ns|, i requires 0 <= i < |ns| => Some(ns[i]))
  }

  lemma AscendingInts(s: seq<int>)
    requires NoDuplicates(s) && Sorting.SortedBy(s, IntKey)
    ensures forall i, j :: 0 <= i < j < |s| ==> s[i] < s[j]
  {
    forall i, j | 0 <= i < j < |s|
      ensures s[i] < s[j]
    {
      assert IntKey(s[i]) <= IntKey(s[j]);
    }
  }

  /** The distinct parsed years in ascending order. */
  function AscendingParsedYears(years: seq<Option<int>>): seq<int> {
    Sorting.SortBy(Distinct(ParsedYears(years)), IntKey)
  }

  lemma AscendingParsedYearsProperties(years: seq<Option<int>>)
    ensures forall y :: y in AscendingParsedYears(years) <==> Some(y) in years
    ensures forall i, j :: 0 <= i < j < |AscendingParsedYears(years)| ==>
      AscendingParsedYears(years)[i] < AscendingParsedYears(years)[j]
  {
    var distinct := Distinct(ParsedYears(years));
    var sorted := AscendingParsedYears(years);
    NoDuplicatesPermutation(distinct, sorted);
    AscendingInts(sorted);
    forall y
      ensures y in sorted <==> y in distinct
    {
      assert y in sorted <==> y in multiset(sorted);
      assert y in distinct <==> y in multiset(distinct);
    }
  }

  lemma AsYearsMembership(ns: seq<int>)
    ensures forall y: Option<int> :: y in AsYears(ns) <==> y.Some? && y.value in ns
  {
    forall y: Option<int> | y.Some? && y.value in ns
      ensures y in AsYears(ns)
    {
      var i :| 0 <= i < |ns| && ns[i] == y.value;
      assert AsYears(ns)[i] == y;
    }
  }

  lemma YearMembership(years: seq<Option<int>>, ns: seq<int>, tail: seq<Option<int>>, y: Option<int>)
    requires forall v: int :: v in ns <==> Some(v) in years
    requires tail == if None in years then [None] else []
    ensures y in AsYears(ns) + tail <==> y in years
  {
    assert y in AsYears(ns) + tail <==> y in AsYears(ns) || y in tail;
    AsYearsMembership(ns);
    if y.Some? {
      ParsedMember(years, ns, y.value);
    }
  }

  lemma ParsedMember(years: seq<Option<int>>, ns: seq<int>, v: int)
    requires forall v: int :: v in ns <==> Some(v) in years
    ensures v in ns <==> Some(v) in years
  {
  }

  lemma YearsAscend(ns: seq<int>, tail: seq<Option<int>>)
    requires forall i, j :: 0 <= i < j < |ns| ==> ns[i] < ns[j]
    requires tail == [] || tail == [None]
    ensures forall i, j :: 0 <= i < j < |AsYears(ns) + tail| ==> YearBefore((AsYears(ns) + tail)[i], (AsYears(ns) + tail)[j])
  {
  }

  /** `[...new Set(years)].sort()` over years read with `parseInt`: every year
      once, parsed years ascending and NaN last. */
  function SortedYears(years: seq<Option<int>>): (r: seq<Option<int>>)
    ensures forall y :: y in r <==> y in years
    ensures forall i, j :: 0 <= i < j < |r| ==> YearBefore(r[i], r[j])
  {
    var sorted := AscendingParsedYears(years);
    var tail := if None in years then [None] else [];
    AscendingParsedYearsProperties(years);
    YearsAscend(sorted, tail);
    forall y ensures y in AsYears(sorted) + tail <==> y in years {
      YearMembership(years, sorted, tail, y);
    }
    AsYears(sorted) + tail
  }

  /** The year list has no duplicates. */
  lemma SortedYearsDistinct(years: seq<Option<int>>)
    ensures NoDuplicates(SortedYears(years))
  {
  }
}
