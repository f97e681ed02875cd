# Gold price statistics: a Dafny model

This project models the numeric core of the gold-price presentation. That core is two things:

- **The statistics kernel** `src/utils/statistics.ts`:
  - the number test;
  - mean, median and mode;
  - variance.
- **Three slides that turn the rows of the price CSV into aggregates.** All three use the same kind of `complete` callback.
  - **The analytics slide** (`AnalyticsInterpretation.tsx`) builds two things:
    - a yearly table with average, highest, lowest, range and growth over the year before;
    - twelve monthly averages.
  - **The chart slide** (`DataVisualization.jsx`) builds four things:
    - a timestamp-sorted trend of every fifth record;
    - a 12-bin histogram;
    - yearly growth bars;
    - a 40-point frequency density.
  - **The summary slide** (`DataDashboard.tsx`) does three things:
    - computes the summary cards;
    - groups the records by year;
    - keeps a year cursor whose arrows step through the years and whose tables show the first and last three records of the current year.

## How the model represents the program

**JavaScript values.**
- A cell of the CSV reader is a `JsValue`: a number, string, boolean, `null` or `undefined`.
- A number is a `JsNumber`: a finite value held as an exact `real`, NaN, or an infinity.
- The conversions the code relies on are written out:
  - `typeof`, truthiness and `Number(...)`;
  - `parseInt` on the third and second `/`-separated fields of a date;
  - `Math.round` (a half rounds up);
  - `toFixed(1)` (a half rounds away from zero).
- A NaN year is `None` and a parsed year is `Some(y)`. The year list is sorted with the parsed years ascending and NaN last. That is where the string comparison of the default `sort` puts `"NaN"` among four-digit years.

**The `complete` callbacks.**
- Each callback is a function or method of the rows that are passed in.
- A kept row whose `Date` is truthy but not a string makes `row.Date.split` throw. In that case nothing is set and the slide keeps its initial state, which the model writes as `None` or as an unchanged state.

**Loops and mutable state.**
- Four loops become `method`s with loop invariants, each proved against a specification function or predicate:
  - the mode loop of `calculateMode`;
  - the two `prevAvg` loops (yearly statistics and yearly growth);
  - the grouping `reduce` of the summary slide.
- The summary slide's state (`stats`, `yearlyData`, `years`, `currentYearIndex`) is the class `DataDashboard.Dashboard`. Its methods are `Complete`, `Load` (with its steps `LoadYears` and `SetGroups`), `Prev` and `Next`. `Valid` reads only the year fields and the cursor, so setting the cards leaves it alone.

**Modules.**

| module | covers |
|---|---|
| `Options` | the `Option` type |
| `JsStrings` | white space, `split`/`join`, `parseInt` |
| `JsValues` | values, `Number()`, `Math.round`, `toFixed(1)` |
| `Sorting` | a stable sort by a numeric key |
| `Statistics` | the kernel |
| `PriceRows` | what the three slides share |
| `AnalyticsInterpretation` | the analytics slide |
| `DataVisualization` | the chart slide |
| `DataDashboard` | the summary slide |
| `CrossCopies` | how the three copies differ |

**The histogram maximum.** A reader may expect a price equal to the maximum to land in the last histogram bin. The code tests `p >= start && p < end`, so such a price is never counted. The model follows the code: `DataVisualization.BinsMissTheMaximum` proves that the bins count exactly the prices below the maximum. The same holds for the 40 density bins.

## Model

| member | source | states |
|---|---|---|
| Statistics.IsValidNumber | src/utils/statistics.ts:1-3 | a value is valid exactly when it is a finite number (not NaN, not an infinity, not a non-number) |
| Statistics.Min | src/components/DataVisualization.jsx:51 | `Math.min` of a non-empty list is one of its elements and no element is below it |
| Statistics.Max | src/components/DataVisualization.jsx:52 | `Math.max` of a non-empty list is one of its elements and no element is above it |
| Statistics.Mean | src/utils/statistics.ts:5-9 | the mean of an empty list is 0 |
| Statistics.SumAppend | src/utils/statistics.ts:7 | the `reduce` sum splits over a concatenation, so it does not depend on how the additions are grouped |
| Statistics.SumLowerBound | src/utils/statistics.ts:7 | a sum of n values each at least b is at least n·b |
| Statistics.SumUpperBound | src/utils/statistics.ts:7 | a sum of n values each at most b is at most n·b |
| Statistics.MeanAtLeast | src/utils/statistics.ts:5-9 | a lower bound of every value bounds the mean |
| Statistics.MeanAtMost | src/utils/statistics.ts:5-9 | an upper bound of every value bounds the mean |
| Statistics.MeanBetweenMinAndMax | src/utils/statistics.ts:5-9 | the mean of a non-empty list lies between its minimum and maximum |
| Statistics.MeanExamples | src/utils/statistics.ts:5-9 | mean of [] is 0, of [5] is 5, of [2,4,6] is 4 |
| Statistics.Median | src/utils/statistics.ts:11-18 | the median of an empty list is 0 |
| Statistics.MedianBetweenMinAndMax | src/utils/statistics.ts:11-18 | the median of a non-empty list lies between its minimum and maximum |
| Statistics.SortedElementBetween | src/utils/statistics.ts:13 | every element of the ascending copy lies between minimum and maximum |
| Statistics.WithNumericKey | src/utils/statistics.ts:13 | the elements equal to k are exactly as many copies of k as the list holds |
| Statistics.SortAscendingByMultiset | src/utils/statistics.ts:13 | two lists with the same elements sort to the same ascending list |
| Statistics.SortAscendingIsSortedPermutation | src/utils/statistics.ts:13 | the ascending copy `SortAscending` is the unique sorted permutation of its input |
| Statistics.MedianIgnoresOrder | src/utils/statistics.ts:11-18 | the median depends only on the multiset of values, since a copy is sorted |
| Statistics.MiddleBetween | src/utils/statistics.ts:14-17 | the middle of a list whose values lie in [lo, hi] lies in [lo, hi] |
| Statistics.Middle | src/utils/statistics.ts:14-17 | the odd and the even branch are one rule: the average of the elements at the two mirrored middle positions |
| Statistics.MedianOfSorted | src/utils/statistics.ts:11-18 | the median of an ascending list is its middle, since sorting it changes nothing |
| Statistics.MedianEvenExample | src/utils/statistics.ts:15-16 | an ascending list of four values has median the average of the second and third |
| Statistics.MedianOddExample | src/utils/statistics.ts:17 | an ascending list of three values has median the second |
| Statistics.MaxCountIsHighest | src/utils/statistics.ts:22-31 | no value occurs more often than the highest count, and some element reaches it |
| Statistics.PrefixCount | src/utils/statistics.ts:25-26 | the frequency of a value only grows as the loop advances |
| Statistics.CountStep | src/utils/statistics.ts:26-30 | one step of the loop adds one to the frequency of the current value and updates the highest count |
| Statistics.MaxCountMonotone | src/utils/statistics.ts:27-28 | the highest count seen never decreases along the list |
| Statistics.FirstModalUnique | src/utils/statistics.ts:20-33 | at most one value is the first to reach the final highest count |
| Statistics.FirstModalIsMostFrequent | src/utils/statistics.ts:20-33 | the mode occurs in the list, as often as any value does |
| Statistics.CalculateMode | src/utils/statistics.ts:20-33 | the loop returns 0 for an empty list and otherwise the value whose count first reaches the highest count, which occurs most often |
| Statistics.ModeStep | src/utils/statistics.ts:25-31 | one iteration keeps the frequencies equal to the counts of the prefix, the highest count equal to the prefix's highest, and the mode at the first position reaching it |
| Statistics.ModeTieFirstExample | src/utils/statistics.ts:27 | on a tie the value reaching the count first wins: [1,1,2,2,3] gives 1 |
| Statistics.ModeTieLaterExample | src/utils/statistics.ts:27 | a later tie does not displace it: [1,2,2,1] gives 2 |
| Statistics.SquareSign | src/utils/statistics.ts:37 | `Math.pow(d, 2)` is never negative and is positive for d ≠ 0 |
| Statistics.SquaredDeviations | src/utils/statistics.ts:37-38 | the sum of squared deviations is never negative |
| Statistics.Variance | src/utils/statistics.ts:35-39 | the variance is never negative and is 0 for an empty list |
| Statistics.SquaredDeviationsZero | src/utils/statistics.ts:37-38 | the squared deviations sum to 0 exactly when every value equals the mean |
| Statistics.VarianceZeroIffConstant | src/utils/statistics.ts:35-39 | the variance of a non-empty list is 0 exactly when every value equals the given mean |
| Statistics.VarianceExample | src/utils/statistics.ts:35-39 | the variance of [2,4,6] about 4 is 8/3 |
| JsStrings.TrimStart | src/components/DataDashboard.tsx:47 | leading white space is removed: what remains is a suffix that does not start with white space |
| JsStrings.TrimEnd | src/components/DataDashboard.tsx:47 | trailing white space is removed: what remains is a prefix that does not end with white space |
| JsStrings.LeadingDigits | src/components/DataDashboard.tsx:51 | `parseInt` reads the longest run of digits of the radix |
| JsStrings.ParseInt | src/components/AnalyticsInterpretation.tsx:74 | an absent field (`undefined`) gives NaN, and a number is read only from a field with something left after the leading white space |
| JsStrings.DecimalString | src/components/AnalyticsInterpretation.tsx:74 | a year written in decimal is a non-empty run of digits without a leading zero |
| JsStrings.DigitsValueOfDecimal | src/components/AnalyticsInterpretation.tsx:74 | the digits of a decimal numeral read back as its value |
| JsStrings.ParseIntOfDecimal | src/components/AnalyticsInterpretation.tsx:74 | `parseInt` of a decimal numeral gives its value back |
| JsStrings.ParseIntStopsAtNonDigit | src/components/AnalyticsInterpretation.tsx:74 | `parseInt` stops at the first non-digit: a decimal numeral followed by anything not a digit (nor an `x` making a hex prefix) reads as its value |
| JsStrings.Split | src/components/AnalyticsInterpretation.tsx:70 | `split('/')` gives at least one piece and no piece holds the separator |
| JsStrings.JoinSplit | src/components/AnalyticsInterpretation.tsx:70 | joining the pieces of a split gives the string back |
| JsStrings.SplitWithoutSeparator | src/components/AnalyticsInterpretation.tsx:70 | a string without the separator splits into itself alone |
| JsStrings.SplitAfterFirstPiece | src/components/AnalyticsInterpretation.tsx:70 | a split takes off the first piece and continues on the rest |
| JsStrings.SplitJoin | src/components/AnalyticsInterpretation.tsx:70 | splitting a join of separator-free pieces gives the pieces back |
| JsValues.TrimDecimal | src/components/DataDashboard.tsx:47 | a decimal numeral has no white space to trim |
| JsValues.TypeOf | src/components/AnalyticsInterpretation.tsx:68 | `typeof` is "number" exactly for numbers, NaN and the infinities included, and "string" exactly for strings |
| JsValues.FalsyValues | src/components/AnalyticsInterpretation.tsx:68 | `Truthy` is false exactly for 0, NaN, "", false, null and undefined |
| JsValues.ToNumber | src/components/DataDashboard.tsx:47 | `Number` leaves a number as it is, maps `null` and the booleans to 0 or 1 and `undefined` to NaN |
| JsValues.StringToNumber | src/components/DataDashboard.tsx:47 | `Number` of a blank string is 0 |
| JsValues.UnsignedDecimalOfDecimal | src/components/DataDashboard.tsx:47 | a decimal numeral is read as its value |
| JsValues.NumberOfDecimal | src/components/DataDashboard.tsx:47 | `Number` of a decimal numeral string is that number |
| JsValues.Round | src/components/AnalyticsInterpretation.tsx:85 | `Math.round(x)` is the integer in (x − ½, x + ½] |
| JsValues.RoundMonotone | src/components/AnalyticsInterpretation.tsx:85 | `Math.round` preserves order |
| JsValues.ToFixed1 | src/components/AnalyticsInterpretation.tsx:98 | `toFixed(1)` gives a multiple of 0.1 within 0.05 of its argument |
| JsValues.ToFixed1Sign | src/components/AnalyticsInterpretation.tsx:98 | `toFixed(1)` keeps the sign of its argument and maps 0 to 0 |
| JsValues.PercentChange | src/components/AnalyticsInterpretation.tsx:89 | `((avg - prevAvg) / prevAvg) * 100` to one decimal is the rounded percentage for finite averages and a non-zero divisor, an infinity (its sign flipped by a negative divisor) for an infinite average, and NaN once NaN or an infinite divisor is involved |
| Sorting.WithKey | src/components/DataVisualization.jsx:44 | the records with a given key are records of the list carrying that key |
| Sorting.Insert | src/components/DataVisualization.jsx:44 | inserting adds exactly the one record |
| Sorting.InsertLowerBound | src/components/DataVisualization.jsx:44 | inserting keeps a lower bound of all keys |
| Sorting.InsertSorted | src/components/DataVisualization.jsx:44 | inserting into a sorted list keeps it sorted |
| Sorting.SortBy | src/components/DataVisualization.jsx:44 | the sort is a permutation of its input, sorted by key |
| Sorting.InsertWithKey | src/components/DataVisualization.jsx:44 | inserting adds the inserted record in front of the others with its key, and leaves the records of every other key as they were |
| Sorting.SortByStable | src/components/DataVisualization.jsx:44 | the sort is stable: records with equal keys keep their relative order |
| Sorting.WithKeyOfHead | src/components/DataVisualization.jsx:44 | the first record is the first of those with its key |
| Sorting.WithKeyOfTail | src/components/DataVisualization.jsx:44 | dropping the first record drops it from its key class only |
| Sorting.FirstKeyBound | src/components/DataVisualization.jsx:44 | a sorted list with the same key classes as another starts with a key no greater than the other's first |
| Sorting.StableSortUnique | src/components/DataVisualization.jsx:44 | two key-sorted lists with the same key classes are equal, so the stable sort is unique |
| Sorting.SortedIsFixed | src/components/DataVisualization.jsx:44 | sorting a sorted list changes nothing |
| PriceRows.NumericTestKeepsInfinity | src/components/AnalyticsInterpretation.tsx:68 | the filter `HasDateAndNumericPrice` keeps exactly the rows with a truthy date and a non-NaN number price, and it lets an infinity through |
| PriceRows.KeptRowsFinite | src/components/AnalyticsInterpretation.tsx:68 | every kept price from the CSV reader is a finite number |
| PriceRows.Keep | src/components/AnalyticsInterpretation.tsx:68 | `filter` keeps exactly the elements that pass: every kept element passes and comes from the list, every element that passes is kept, and there are never more than it was given |
| PriceRows.Drop | src/components/AnalyticsInterpretation.tsx:68 | the rejected elements all fail the test |
| PriceRows.KeepDropLength | src/components/AnalyticsInterpretation.tsx:68 | the kept and the rejected elements together are the input with every multiplicity, so their lengths add up to its length |
| PriceRows.KeepCounts | src/components/AnalyticsInterpretation.tsx:68 | an element that passes is kept as often as it occurs, one that fails not at all |
| PriceRows.KeepSingle | src/components/AnalyticsInterpretation.tsx:68 | a one-element list is kept exactly when its element passes; with `KeepAppend` this fixes the order of the kept elements |
| PriceRows.KeepAppend | src/components/AnalyticsInterpretation.tsx:68 | filtering distributes over concatenation |
| PriceRows.KeepEverything | src/components/AnalyticsInterpretation.tsx:68 | a filter every element passes returns the list unchanged |
| PriceRows.Field | src/components/AnalyticsInterpretation.tsx:74-75 | `parts[i]` is defined exactly when the split has more than i pieces |
| PriceRows.YearOf | src/components/AnalyticsInterpretation.tsx:74 | a date with fewer than three `/`-fields has a NaN year |
| PriceRows.MonthOf | src/components/AnalyticsInterpretation.tsx:75 | a date without a `/` has a NaN month |
| PriceRows.DateFieldsRoundTrip | src/components/AnalyticsInterpretation.tsx:70-75 | a `D/M/YYYY` date gives back its year and month |
| PriceRows.NoSlashInDigits | src/components/AnalyticsInterpretation.tsx:70 | a decimal numeral holds no `/`, so it stays one field of the split |
| PriceRows.PricesWith | src/components/AnalyticsInterpretation.tsx:84 | the prices of the records with a given year are no more than the records |
| PriceRows.PricesWithEmpty | src/components/AnalyticsInterpretation.tsx:84 | a year has no prices exactly when it is NaN (`NaN === NaN` is false) or no record carries it |
| PriceRows.RoundedAverage | src/components/AnalyticsInterpretation.tsx:85 | the rounded average is NaN exactly for no prices and finite otherwise |
| PriceRows.RoundedAverageBetween | src/components/AnalyticsInterpretation.tsx:85 | the rounded average lies between the rounded lowest and highest price |
| PriceRows.ParsedYears | src/components/AnalyticsInterpretation.tsx:81 | the parsed years are exactly the non-NaN years of the records |
| PriceRows.Distinct | src/components/AnalyticsInterpretation.tsx:81 | `new Set` keeps each value once and loses none |
| PriceRows.NoDuplicatesPermutation | src/components/AnalyticsInterpretation.tsx:81 | sorting a list without duplicates leaves it without duplicates |
| PriceRows.AscendingInts | src/components/AnalyticsInterpretation.tsx:81 | a sorted list without duplicates is strictly ascending |
| PriceRows.AscendingParsedYearsProperties | src/components/AnalyticsInterpretation.tsx:81 | the distinct parsed years, sorted, are exactly the parsed years and strictly ascend |
| PriceRows.AsYearsMembership | src/components/AnalyticsInterpretation.tsx:81 | a year value is among the read-back years exactly when it is parsed and among the integers |
| PriceRows.YearMembership | src/components/AnalyticsInterpretation.tsx:81 | the parsed years followed by NaN (if present) are exactly the years of the records |
| PriceRows.YearsAscend | src/components/AnalyticsInterpretation.tsx:81 | strictly ascending parsed years followed by NaN are in year order |
| PriceRows.SortedYears | src/components/AnalyticsInterpretation.tsx:81 | the sorted distinct years are exactly the years of the records, ascending, with NaN last |
| PriceRows.SortedYearsDistinct | src/components/AnalyticsInterpretation.tsx:81 | no year is listed twice |
| AnalyticsInterpretation.ToRecord | src/components/AnalyticsInterpretation.tsx:69-77 | a record carries the row's price and the year and month parsed from its date |
| AnalyticsInterpretation.Records | src/components/AnalyticsInterpretation.tsx:67-77 | the records exist exactly when every kept date is a string (otherwise `split` throws), and they match the kept rows one for one |
| AnalyticsInterpretation.RecordOfDatedRow | src/components/AnalyticsInterpretation.tsx:69-77 | a `D/M/YYYY` row becomes a record with that year and month |
| AnalyticsInterpretation.Highest | src/components/AnalyticsInterpretation.tsx:86 | `Math.max(...)` is finite exactly for a non-empty list (-Infinity otherwise) |
| AnalyticsInterpretation.Lowest | src/components/AnalyticsInterpretation.tsx:87 | `Math.min(...)` is finite exactly for a non-empty list (+Infinity otherwise) |
| AnalyticsInterpretation.Range | src/components/AnalyticsInterpretation.tsx:97 | the range is finite exactly for a non-empty list |
| AnalyticsInterpretation.Growth | src/components/AnalyticsInterpretation.tsx:88-90 | growth is 0 unless `prevAvg > 0`; it is finite exactly when the guard fails or both averages are finite, and an infinite average gives that same infinity |
| AnalyticsInterpretation.GrowthMeaning | src/components/AnalyticsInterpretation.tsx:88-90 | growth is 0 against a non-positive previous average; otherwise it is the percentage change to within 0.05, with the sign of the change |
| AnalyticsInterpretation.YearEntryShape | src/components/AnalyticsInterpretation.tsx:84-98 | a row (`YearEntry`) has its year; its average, highest and lowest are finite together, exactly when the year has prices, and then lowest ≤ highest and range = highest − lowest; its growth is finite exactly when the guard fails or both averages are finite |
| AnalyticsInterpretation.RowAt | src/components/AnalyticsInterpretation.tsx:83-100 | each row is built from its year and the average of the row before |
| AnalyticsInterpretation.SameRow | src/components/AnalyticsInterpretation.tsx:82-100 | two tables built over the same years agree row by row |
| AnalyticsInterpretation.YearlyStatsUnique | src/components/AnalyticsInterpretation.tsx:81-100 | the yearly table is determined by the records |
| AnalyticsInterpretation.RowsStep | src/components/AnalyticsInterpretation.tsx:83-100 | one iteration extends the table by the next year's row against the carried average |
| AnalyticsInterpretation.YearRows | src/components/AnalyticsInterpretation.tsx:82-100 | the loop with `prevAvg` builds one row per year, each against the previous row's average (0 before the first) |
| AnalyticsInterpretation.YearlyStats | src/components/AnalyticsInterpretation.tsx:81-101 | the yearly table is built over the sorted distinct years of the records |
| AnalyticsInterpretation.YearlyStatsOrder | src/components/AnalyticsInterpretation.tsx:81-100 | rows are in year order with NaN last, every record's year has a row, and the first growth is 0 |
| AnalyticsInterpretation.RowYears | src/components/AnalyticsInterpretation.tsx:83-100 | there is one row per year, and row i belongs to year i |
| AnalyticsInterpretation.YearListed | src/components/AnalyticsInterpretation.tsx:81 | every record's year is among the sorted distinct years |
| AnalyticsInterpretation.ParsedYearEntry | src/components/AnalyticsInterpretation.tsx:84-97 | a year that occurs has finite figures, its average lies between its rounded lowest and highest, and range = highest − lowest |
| AnalyticsInterpretation.NaNYearEntry | src/components/AnalyticsInterpretation.tsx:84-98 | the NaN year's row has a NaN average, highest -Infinity, lowest +Infinity, range -Infinity, and a NaN growth unless the guard fails |
| AnalyticsInterpretation.MonthlyAverages | src/components/AnalyticsInterpretation.tsx:104-109 | twelve bars named Jan to Dec in order |
| AnalyticsInterpretation.MonthlyAverageBounds | src/components/AnalyticsInterpretation.tsx:106-107 | a month without records gives 0; otherwise its bar lies between its rounded lowest and highest price |
| AnalyticsInterpretation.MonthEntry | src/components/AnalyticsInterpretation.tsx:105-108 | month i is named `monthNames[i]` and shows 0 without prices, otherwise a value between its rounded lowest and highest price |
| AnalyticsInterpretation.Complete | src/components/AnalyticsInterpretation.tsx:66-112 | the slide stays loading (initial state) when the callback throws or no record is kept; otherwise it shows the yearly table and the monthly bars of the records |
| DataVisualization.ToRecord | src/components/DataVisualization.jsx:33-43 | a chart record carries the row's price and the year parsed from its date |
| DataVisualization.Mapped | src/components/DataVisualization.jsx:33-43 | the mapped records match the kept rows one for one, with their timestamps |
| DataVisualization.Clean | src/components/DataVisualization.jsx:31-44 | the records exist exactly when every kept date is a string; they are as many as the kept rows and sorted by timestamp |
| DataVisualization.CleanIsStableSort | src/components/DataVisualization.jsx:44 | the sort is a permutation of the mapped records that keeps records with equal timestamps in their order |
| DataVisualization.SkipToNextFifth | src/components/DataVisualization.jsx:47 | indices that are not multiples of 5 are skipped |
| DataVisualization.SampleFromFifth | src/components/DataVisualization.jsx:47 | sampling from index 5m keeps indices 5m, 5m+5, … |
| DataVisualization.Trend | src/components/DataVisualization.jsx:47 | the trend has ⌈n/5⌉ points and its j-th point is record 5j |
| DataVisualization.CountBetween | src/components/DataVisualization.jsx:60 | a bin count is at most the number of prices |
| DataVisualization.CountSplit | src/components/DataVisualization.jsx:60 | counts of adjacent half-open intervals add up |
| DataVisualization.CountBelowTop | src/components/DataVisualization.jsx:60 | over [min, max) the count is all prices except those equal to max |
| DataVisualization.EdgeMonotone | src/components/DataVisualization.jsx:54-57 | the bin edges of a price list ascend |
| DataVisualization.OuterEdges | src/components/DataVisualization.jsx:51-57 | the bins span exactly from the lowest to the highest price |
| DataVisualization.Bins | src/components/DataVisualization.jsx:55-63 | there are as many bins as asked for |
| DataVisualization.BinAt | src/components/DataVisualization.jsx:56-60 | bin i runs from edge i to edge i+1 and counts the prices in [start, end) |
| DataVisualization.TotalOfFirstBins | src/components/DataVisualization.jsx:55-63 | the first k bins together count the prices in [min, edge k) |
| DataVisualization.BinsMissTheMaximum | src/components/DataVisualization.jsx:60 | no prices give 0; otherwise the bins count every price except those equal to the maximum, so fewer than all |
| DataVisualization.BinsTile | src/components/DataVisualization.jsx:56-60 | each bin starts where the one before ends, and no price falls in two bins |
| DataVisualization.ConstantPricesEmptyBins | src/components/DataVisualization.jsx:54-60 | when all prices are equal every bin is empty |
| DataVisualization.Histogram | src/components/DataVisualization.jsx:53-63 | the histogram has 12 bins |
| DataVisualization.Density | src/components/DataVisualization.jsx:84-95 | the density has 40 points |
| DataVisualization.DensityWithinRange | src/components/DataVisualization.jsx:86-94 | each density point counts its fine bin, and its price (the rounded bin centre) lies between the rounded lowest and highest price |
| DataVisualization.BinCentreWithinRange | src/components/DataVisualization.jsx:91 | a rounded bin centre lies between the rounded lowest and highest price |
| DataVisualization.Centre | src/components/DataVisualization.jsx:91 | the density price is finite exactly when both edges are, and then it is the integer in (mid − ½, mid + ½] of the bin's midpoint |
| DataVisualization.GrowthMeaning | src/components/DataVisualization.jsx:72-73 | growth is 0 against a previous average of 0; otherwise it is the percentage change to within 0.05 |
| DataVisualization.Growth | src/components/DataVisualization.jsx:72-74 | growth is 0 unless `prevAvg !== 0`; it is finite exactly when the guard fails or both averages are finite, and an infinite average gives an infinity whose sign a negative divisor flips |
| DataVisualization.GrowthEntry | src/components/DataVisualization.jsx:70-79 | a bar has its year, an average that is finite exactly when the year has prices, and a growth finite exactly when the guard fails or both averages are finite |
| DataVisualization.RowAt | src/components/DataVisualization.jsx:69-80 | each bar is built from its year and the average of the bar before |
| DataVisualization.RowsStep | src/components/DataVisualization.jsx:69-80 | one iteration extends the bars by the next year's bar against the carried average |
| DataVisualization.YearlyGrowth | src/components/DataVisualization.jsx:67-80 | the loop with `prevAvg` builds one bar per sorted distinct year, each against the previous bar's average (0 before the first) |
| DataVisualization.YearlyGrowthShape | src/components/DataVisualization.jsx:67-80 | bars are in year order with NaN last, the first growth is 0, and a bar's average is finite exactly when its year parsed |
| DataVisualization.Complete | src/components/DataVisualization.jsx:30-99 | the chart stays loading (initial state) exactly when the callback throws; otherwise it shows the trend, 12-bin histogram, yearly growth and 40-point density of the sorted records |
| DataDashboard.KeepsRowMeaning | src/components/DataDashboard.tsx:47 | under the filter `KeepsRow` a row is kept exactly when its date is truthy and its price converts to a finite number; an empty cell counts as 0 and `true` as 1 |
| DataDashboard.CleanData | src/components/DataDashboard.tsx:46-54 | the records exist exactly when every kept date is a string, and they match the kept rows one for one with `Number(price)` and the parsed year |
| DataDashboard.ComputeStats | src/components/DataDashboard.tsx:58-67 | the cards hold the count, and the rounded mean, median, first-modal value and variance about the unrounded mean |
| DataDashboard.StatsWithinRange | src/components/DataDashboard.tsx:58-67 | mean, median and mode cards lie between the rounded lowest and highest price, and the variance card is never negative |
| DataDashboard.Group | src/components/DataDashboard.tsx:68-70 | a group holds records of the data of its year only, and no more than there are records |
| DataDashboard.GroupMembers | src/components/DataDashboard.tsx:68-70 | a year has a non-empty group exactly when some record carries it, and every record is in its year's group |
| DataDashboard.GroupCounts | src/components/DataDashboard.tsx:68-70 | a group holds every record of its year as often as the data does, and no other record |
| DataDashboard.GroupSizesCover | src/components/DataDashboard.tsx:68-70 | over distinct years covering every record, the group sizes add up to the number of records |
| DataDashboard.GroupSizesSum | src/components/DataDashboard.tsx:68-71 | the groups of the sorted years together hold every record exactly once: their sizes add up to the number of records |
| DataDashboard.GroupByYear | src/components/DataDashboard.tsx:68-70 | the `reduce` creates a key exactly for each year that occurs and pushes each record, in order, onto its year's group |
| DataDashboard.GroupKeys | src/components/DataDashboard.tsx:71 | the sorted years are exactly the group keys |
| DataDashboard.GroupedYears | src/components/DataDashboard.tsx:68-71 | the sorted years are the group keys, ascending with NaN last, no group is empty, and there is a year when there is a record |
| DataDashboard.FirstThreeOf | src/components/DataDashboard.tsx:78 | `slice(0, 3)` is the first min(3, n) records |
| DataDashboard.LastThreeOf | src/components/DataDashboard.tsx:79 | `slice(-3)` is the last min(3, n) records |
| DataDashboard.Dashboard.constructor | src/components/DataDashboard.tsx:37-40 | the slide starts with "0" cards, no groups, no years and the cursor at 0 |
| DataDashboard.Dashboard.CurrentYear | src/components/DataDashboard.tsx:77 | `years[currentYearIndex]` is defined exactly when the cursor is inside the year list |
| DataDashboard.Dashboard.FirstThree | src/components/DataDashboard.tsx:78 | the first table shows at most three records |
| DataDashboard.Dashboard.LastThree | src/components/DataDashboard.tsx:79 | the last table shows at most three records |
| DataDashboard.Dashboard.TablesOfCurrentYear | src/components/DataDashboard.tsx:77-79 | with no year both tables are empty; otherwise they are the non-empty head and tail of the current year's group, the same when it has at most three records |
| DataDashboard.Dashboard.Complete | src/components/DataDashboard.tsx:45-73 | the state is unchanged when the callback throws or no record is kept; otherwise the cards, the groups and the sorted years are set, and the cursor invariant holds |
| DataDashboard.Dashboard.Load | src/components/DataDashboard.tsx:57-72 | the state updates of a callback with records: cards of the prices, groups of the records and their sorted years, with the cursor invariant kept |
| DataDashboard.Dashboard.LoadYears | src/components/DataDashboard.tsx:68-71 | `setYearlyData` and `setYears`: the groups and the sorted years are set and the cursor invariant is kept |
| DataDashboard.Dashboard.Prev | src/components/DataDashboard.tsx:126 | the left arrow moves the cursor back one year unless it is at the first, and keeps it inside the year list |
| DataDashboard.Dashboard.Next | src/components/DataDashboard.tsx:128 | the right arrow moves the cursor on one year unless it is at the last, and keeps it inside the year list |
| CrossCopies.NumericRowsKeptEverywhere | src/components/DataDashboard.tsx:47 | a row that the analytics and chart filters keep is also kept by the summary filter, with the same price |
| CrossCopies.EmptyPriceKeptOnlyBySummary | src/components/DataDashboard.tsx:47 | an empty price cell is kept by the summary slide as 0 but dropped by the other two |
| CrossCopies.SameRowsWhenPricesAreNumbers | src/components/DataDashboard.tsx:47 | when every price cell is a number, all three slides keep the same rows |
| CrossCopies.GrowthAgreesOnNonNegative | src/components/DataVisualization.jsx:73 | against a previous average ≥ 0 or +Infinity, the `> 0` and `!== 0` guards give the same growth |
| CrossCopies.GrowthDiffersOnNegative | src/components/DataVisualization.jsx:73 | against a negative previous average they differ: 0 on the analytics slide, the percentage change on the chart |

Proof helpers without a row of their own: `Statistics.Copies`, `Statistics.TimesPositive`, `Statistics.AdjacentChain`, `Statistics.AdjacentSorted`, `Statistics.StepBound`, `Statistics.QuotientBounds`, `Statistics.LaterExamplePrefixes`, `JsStrings.DecimalDigit`, `JsStrings.LeadingDigitsOfRun`, `JsStrings.ParseSigned` and `JsStrings.ParseUnsigned` (the steps of `ParseInt`), `JsValues.SignedToNumber` (a step of `StringToNumber`), `JsValues.StringToNumberOfSigned`, `JsValues.SignedOfUnsigned`, `Sorting.MultisetOfCons`, `Sorting.WithKeyCons`, `Statistics.MaxCountOfOne`, `Statistics.ModeFinal`, `PriceRows.AtMostOnce`, `PriceRows.ParsedMember`, `PriceRows.TwiceCounted`, `PriceRows.KeepDropParts`, `DataVisualization.ZeroTotal`, `DataVisualization.EmptyInterval`, `DataVisualization.CentreBetween`, `DataVisualization.EdgeOfEnds`, `DataVisualization.EdgeOfMonotone`, `DataDashboard.GroupOfSnoc`, `DataDashboard.YearOccurs`, `DataDashboard.GroupSizesStep`, `DataDashboard.EmptyGroupSizes`, `DataDashboard.Dashboard.SetGroups`. The projections `Years`, `Prices` and `AsYears` are `map` calls with no contract of their own.

## Left out

- **Floating point.** Prices, sums and quotients are exact reals, so IEEE rounding in the sum, division and `Math.pow` is not modelled. The same goes for the 2^53 limit of integers and infinite intermediate results.
- **Reader numbers are finite.** The analytics and chart slides are modelled for the values the CSV reader produces: a number cell is finite, because dynamic typing turns only numerals into numbers. Infinity prices, which the `typeof … && !isNaN` filter would let through, are therefore not followed into the aggregates.
- **I/O.** Fetching and parsing the CSV file (`Papa.parse` with `download`) is not modelled. The rows are given as a sequence of `RawRow` with only the `Date` and `Integer_price` columns. The other columns the summary slide copies with `...row` are not kept.
- **Timestamps.** `new Date(y, m - 1, d).getTime()` is the parameter `stamp` of the chart model: dates and the clock are outside the model. A NaN timestamp, which would make the comparator of the sort inconsistent, is not modelled.
- **Rendering and text.** React rendering, animation and `useState` scheduling are not modelled. Neither is text formatting: `formatCurrency`, `toLocaleString`, the `k` range labels, `monthYear`, `year.toString()`.
- **DataDashboard.ComputeStats:** does not model the standard-deviation card (`Math.sqrt` of the variance), because square roots are not exact reals. The cards are numbers, not formatted strings.
- **Signed zero.** `-0` is not told apart from `0`; `Div` takes a zero divisor as `+0`. Neither growth formula divides by zero, because both guards exclude a zero `prevAvg`.
- JsValues.StringToNumber: its contract states only the blank-string case. Decimal numerals are covered by `JsValues.NumberOfDecimal`; the `Infinity`, `0x`, `0o` and `0b` forms are defined but have no lemma of their own.
- **DataVisualization.Growth:** the chart's `toFixed(1)` result is a string, and the model gives its numeric value.
- **Year sort.** The default `sort()` compares years as strings. The model sorts parsed years numerically with NaN last, which agrees for four-digit non-negative years.
- **Object keys.** The summary slide's grouping keys (`String(year)`, and `"NaN"` for the NaN year) are modelled as the year values themselves. `Object.keys(...).map(Number)` then gives those years back.
- **Once per mount.** `DataDashboard.Dashboard.Complete` requires an empty year list: the effect runs once, on mount, before any data is set.
- **Other components.** The slides outside the statistics and the three data slides (hero, SWOT, recommendations, thank-you, stat cards, app shell) are not part of this model.
