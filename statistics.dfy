/** The descriptive-statistics kernel: the finite-number test, and the mean,
    median, mode and population variance of a list of prices, each of which is 0
    for an empty list. */
module Statistics {
  import opened JsValues
  import Sorting

  /** `isValidNumber(value)`: `typeof value === 'number' && !isNaN(value) && isFinite(value)`. */
  function IsValidNumber(value: JsValue): (r: bool)
    ensures r <==> value.Num? && value.n.Finite?
  {
    TypeOf(value) == "number" && !IsNaN(value) && IsFinite(value)
  }

  /** `numbers.reduce((acc, val) => acc + val, 0)`. */
  function Sum(numbers: seq<real>): real {
    if |numbers| == 0 then 0.0 else Sum(numbers[..|numbers| - 1]) + numbers[|numbers| - 1]
  }

  /** The sum splits over a concatenation; with the sum of one value being that
      value, this fixes the sum whatever order the additions are done in. */
  lemma {:induction false} SumAppend(a: seq<real>, b: seq<real>)
    ensures Sum(a + b) == Sum(a) + Sum(b)
  {
    if |b| > 0 {
      assert (a + b)[..|a + b| - 1] == a + b[..|b| - 1];
      SumAppend(a, b[..|b| - 1]);
    } else {
      assert a + b == a;
    }
  }

  /** `Math.min(...numbers)` of a non-empty list. */
  function Min(numbers: seq<real>): (m: real)
    requires |numbers| > 0
    ensures m in numbers
    ensures forall i :: 0 <= i < |numbers| ==> m <= numbers[i]
  {
    if |numbers| == 1 then numbers[0]
    else
      var p := Min(numbers[..|numbers| - 1]);
      var x := numbers[|numbers| - 1];
      assert numbers == numbers[..|numbers| - 1] + [x];
      if x < p then x else p
  }

  /** `Math.max(...numbers)` of a non-empty list. */
  function Max(numbers: seq<real>): (m: real)
    requires |numbers| > 0
    ensures m in numbers
    ensures forall i :: 0 <= i < |numbers| ==> numbers[i] <= m
  {
    if |numbers| == 1 then numbers[0]
    else
      var p := Max(numbers[..|numbers| - 1]);
      var x := numbers[|numbers| - 1];
      assert numbers == numbers[..|numbers| - 1] + [x];
      if x > p then x else p
  }

  /** `calculateMean`: the sum divided by the length, 0 for an empty list. */
  function Mean(numbers: seq<real>): (r: real)
    ensures |numbers| == 0 ==> r == 0.0
  {
    if |numbers| == 0 then 0.0 else Sum(numbers) / |numbers| as real
  }

  lemma {:induction false} SumLowerBound(numbers: seq<real>, b: real)
    requires forall i :: 0 <= i < |numbers| ==> b <= numbers[i]
    ensures |numbers| as real * b <= Sum(numbers)
  {
    if |numbers| > 0 {
      SumLowerBound(numbers[..|numbers| - 1], b);
      StepBound(Sum(numbers[..|numbers| - 1]), numbers[|numbers| - 1], |numbers| as real, b);
    }
  }

  lemma {:induction false} SumUpperBound(numbers: seq<real>, b: real)
    requires forall i :: 0 <= i < |numbers| ==> numbers[i] <= b
    ensures Sum(numbers) <= |numbers| as real * b
  {
    if |numbers| > 0 {
      SumUpperBound(numbers[..|numbers| - 1], b);
      StepBound(Sum(numbers[..|numbers| - 1]), numbers[|numbers| - 1], |numbers| as real, b);
    }
  }

  /** Adding one more value to a total of `n - 1` values keeps a bound per value
      as a bound on the total of `n`. */
  lemma StepBound(total: real, x: real, n: real, b: real)
    ensures total >= (n - 1.0) * b && x >= b ==> total + x >= n * b
    ensures total <= (n - 1.0) * b && x <= b ==> total + x <= n * b
  {
  }

  lemma MeanAtLeast(numbers: seq<real>, b: real)
    requires |numbers| > 0
    requires forall i :: 0 <= i < |numbers| ==> b <= numbers[i]
    ensures b <= Mean(numbers)
  {
    SumLowerBound(numbers, b);
    QuotientBounds(Sum(numbers), |numbers| as real, b);
  }

  lemma MeanAtMost(numbers: seq<real>, b: real)
    requires |numbers| > 0
    requires forall i :: 0 <= i < |numbers| ==> numbers[i] <= b
    ensures Mean(numbers) <= b
  {
    SumUpperBound(numbers, b);
    QuotientBounds(Sum(numbers), |numbers| as real, b);
  }

  /** Dividing by a positive count keeps a bound on the total as a bound per item. */
  lemma QuotientBounds(total: real, n: real, b: real)
    requires n > 0.0
    ensures total <= n * b ==> total / n <= b
    ensures n * b <= total ==> b <= total / n
  {
  }

  /** The mean of a non-empty list lies between its smallest and largest element. */
  lemma MeanBetweenMinAndMax(numbers: seq<real>)
    requires |numbers| > 0
    ensures Min(numbers) <= Mean(numbers) <= Max(numbers)
  {
    MeanAtLeast(numbers, Min(numbers));
    MeanAtMost(numbers, Max(numbers));
  }

  lemma MeanExamples()
    ensures Mean([]) == 0.0
    ensures Mean([5.0]) == 5.0
    ensures Mean([2.0, 4.0, 6.0]) == 4.0
  {
    assert [2.0, 4.0, 6.0][..2] == [2.0, 4.0];
    assert [2.0, 4.0][..1] == [2.0];
    assert [5.0][..0] == [];
  }

  /** The sort key of `[...numbers].sort((a, b) => a - b)`: the number itself. */
  function NumericKey(x: real): real {
    x
  }

  /** `[...numbers].sort((a, b) => a - b)`: an ascending copy. */
  function SortAscending(numbers: seq<real>): seq<real> {
    Sorting.SortBy(numbers, NumericKey)
  }

  /** `calculateMedian`: the middle element of the ascending copy for an odd
      length, the average of the two middle elements for an even length, 0 for an
      empty list. The list itself is a value, so sorting the copy leaves it as it was. */
  function Median(numbers: seq<real>): (r: real)
    ensures |numbers| == 0 ==> r == 0.0
  {
    if |numbers| == 0 then 0.0 else Middle(SortAscending(numbers))
  }

  /** The middle element of a list of odd length, the average of the two middle
      elements of one of even length: in both cases the average of the elements
      at the two mirrored middle positions, which coincide for an odd length. */
  function Middle(sorted: seq<real>): (r: real)
    requires |sorted| > 0
    ensures r == (sorted[(|sorted| - 1) / 2] + sorted[|sorted| / 2]) / 2.0
  {
    var mid := |sorted| / 2;
    if |sorted| % 2 == 0 then (sorted[mid - 1] + sorted[mid]) / 2.0 else sorted[mid]
  }

  lemma MiddleBetween(s: seq<real>, lo: real, hi: real)
    requires |s| > 0
    requires forall i :: 0 <= i < |s| ==> lo <= s[i] <= hi
    ensures lo <= Middle(s) <= hi
  {
  }

  /** The median lies between the smallest and largest element. */
  lemma MedianBetweenMinAndMax(numbers: seq<real>)
    requires |numbers| > 0
    ensures Min(numbers) <= Median(numbers) <= Max(numbers)
  {
    var sorted := SortAscending(numbers);
    forall i | 0 <= i < |sorted|
      ensures Min(numbers) <= sorted[i] <= Max(numbers)
    {
      SortedElementBetween(numbers, i);
    }
    MiddleBetween(sorted, Min(numbers), Max(numbers));
  }

  /** A list whose neighbours ascend is ascending. */
  lemma AdjacentSorted(s: seq<real>)
    requires forall i :: 0 <= i < |s| - 1 ==> s[i] <= s[i + 1]
    ensures Sorting.SortedBy(s, NumericKey)
  {
    forall i, j | 0 <= i < j < |s|
      ensures NumericKey(s[i]) <= NumericKey(s[j])
    {
      AdjacentChain(s, i, j);
    }
  }

  lemma AdjacentChain(s: seq<real>, i: nat, j: nat)
    requires forall k :: 0 <= k < |s| - 1 ==> s[k] <= s[k + 1]
    requires i <= j < |s|
    ensures s[i] <= s[j]
    decreases j - i
  {
    if i < j {
      AdjacentChain(s, i + 1, j);
    }
  }

  /** The median of an ascending list is its middle. */
  lemma MedianOfSorted(numbers: seq<real>)
    requires |numbers| > 0 && Sorting.SortedBy(numbers, NumericKey)
    ensures Median(numbers) == Middle(numbers)
  {
    Sorting.SortedIsFixed(numbers, NumericKey);
  }

  lemma SortedElementBetween(numbers: seq<real>, i: nat)
    requires i < |numbers|
    ensures Min(numbers) <= SortAscending(numbers)[i] <= Max(numbers)
  {
    var sorted := SortAscending(numbers);
    assert sorted[i] in multiset(sorted);
    assert sorted[i] in multiset(numbers);
    var j :| 0 <= j < |numbers| && numbers[j] == sorted[i];
  }

  /** `k` repeated `n` times. */
  function Copies(k: real, n: nat): (r: seq<real>)
    ensures |r| == n
  {
    if n == 0 then [] else [k] + Copies(k, n - 1)
  }

  lemma {:induction false} WithNumericKey(numbers: seq<real>, k: real)
    ensures Sorting.WithKey(numbers, NumericKey, k) == Copies(k, multiset(numbers)[k])
  {
    if |numbers| > 0 {
      var rest := numbers[1..];
      WithNumericKey(rest, k);
      assert numbers == [numbers[0]] + rest;
      assert multiset(numbers)[k] == multiset(rest)[k] + (if numbers[0] == k then 1 else 0);
      if numbers[0] == k {
        assert Copies(k, multiset(numbers)[k]) == [k] + Copies(k, multiset(rest)[k]);
      }
    }
  }

  /** The ascending copy depends only on which numbers occur and how often. */
  lemma SortAscendingByMultiset(xs: seq<real>, ys: seq<real>)
    requires multiset(xs) == multiset(ys)
    ensures SortAscending(xs) == SortAscending(ys)
  {
    forall k ensures Sorting.WithKey(SortAscending(xs), NumericKey, k) == Sorting.WithKey(SortAscending(ys), NumericKey, k) {
      Sorting.SortByStable(xs, NumericKey, k);
      Sorting.SortByStable(ys, NumericKey, k);
      WithNumericKey(xs, k);
      WithNumericKey(ys, k);
    }
    Sorting.StableSortUnique(SortAscending(xs), SortAscending(ys), NumericKey);
  }

  /** The ascending copy is the one sorted rearrangement of the input. */
  lemma SortAscendingIsSortedPermutation(numbers: seq<real>, sorted: seq<real>)
    requires multiset(numbers) == multiset(sorted)
    requires Sorting.SortedBy(sorted, NumericKey)
    ensures SortAscending(numbers) == sorted
  {
    Sorting.SortedIsFixed(sorted, NumericKey);
    SortAscendingByMultiset(numbers, sorted);
  }

  /** The median does not depend on the order of the input. */
  lemma MedianIgnoresOrder(xs: seq<real>, ys: seq<real>)
    requires multiset(xs) == multiset(ys)
    ensures Median(xs) == Median(ys)
  {
    assert |xs| == |multiset(xs)| == |multiset(ys)| == |ys|;
    SortAscendingByMultiset(xs, ys);
  }

  /** An even length averages the two middle elements of the ascending order. */
  lemma MedianEvenExample(numbers: seq<real>)
    requires |numbers| == 4 && numbers[0] <= numbers[1] <= numbers[2] <= numbers[3]
    ensures Median(numbers) == (numbers[1] + numbers[2]) / 2.0
  {
    AdjacentSorted(numbers);
    MedianOfSorted(numbers);
  }

  /** An odd length takes the middle element of the ascending order. */
  lemma MedianOddExample(numbers: seq<real>)
    requires |numbers| == 3 && numbers[0] <= numbers[1] <= numbers[2]
    ensures Median(numbers) == numbers[1]
  {
    AdjacentSorted(numbers);
    MedianOfSorted(numbers);
  }

  /** How often `v` occurs in `numbers` (the `frequency` entry of `calculateMode`). */
  function Count(numbers: seq<real>, v: real): nat {
    multiset(numbers)[v]
  }

  /** The highest number of occurrences of any value of `numbers`, 0 for none. */
  function MaxCount(numbers: seq<real>): nat {
    if |numbers| == 0 then 0
    else
      var c := Count(numbers, numbers[|numbers| - 1]);
      var m := MaxCount(numbers[..|numbers| - 1]);
      if m < c then c else m
  }

  /** `MaxCount` is the highest count: no element occurs more often, and some
      element of a non-empty list occurs exactly that often. */
  lemma {:induction false} MaxCountIsHighest(numbers: seq<real>)
    ensures forall i :: 0 <= i < |numbers| ==> Count(numbers, numbers[i]) <= MaxCount(numbers)
    ensures |numbers| > 0 ==> exists i :: 0 <= i < |numbers| && Count(numbers, numbers[i]) == MaxCount(numbers)
  {
    if |numbers| > 0 {
      var p := numbers[..|numbers| - 1];
      var x := numbers[|numbers| - 1];
      assert numbers == p + [x];
      MaxCountIsHighest(p);
      forall i | 0 <= i < |numbers|
        ensures Count(numbers, numbers[i]) <= MaxCount(numbers)
      {
        if i < |p| {
          assert numbers[i] == p[i];
        }
      }
      if MaxCount(p) >= Count(numbers, x) && |p| > 0 {
        var i :| 0 <= i < |p| && Count(p, p[i]) == MaxCount(p);
        assert numbers[i] == p[i];
      }
    }
  }

  lemma PrefixCount(numbers: seq<real>, a: nat, b: nat, v: real)
    requires a <= b <= |numbers|
    ensures Count(numbers[..a], v) <= Count(numbers[..b], v) <= Count(numbers, v)
  {
    assert numbers[..b] == numbers[..a] + numbers[a..b];
    assert numbers == numbers[..b] + numbers[b..];
  }

  /** One more element raises its own count by one and no other, and the highest
      count becomes the larger of the old highest count and its new count. */
  lemma CountStep(numbers: seq<real>, i: nat)
    requires i < |numbers|
    ensures forall v :: Count(numbers[..i + 1], v) == Count(numbers[..i], v) + (if v == numbers[i] then 1 else 0)
    ensures MaxCount(numbers[..i + 1]) == if MaxCount(numbers[..i]) < Count(numbers[..i + 1], numbers[i])
      then Count(numbers[..i + 1], numbers[i]) else MaxCount(numbers[..i])
  {
    assert numbers[..i + 1] == numbers[..i] + [numbers[i]];
    assert numbers[..i + 1][..i] == numbers[..i];
  }

  /** The highest count of a prefix never exceeds that of a longer prefix. */
  lemma {:induction false} MaxCountMonotone(numbers: seq<real>, a: nat, b: nat)
    requires a <= b <= |numbers|
    ensures MaxCount(numbers[..a]) <= MaxCount(numbers[..b])
  {
    if a < b {
      MaxCountMonotone(numbers, a, b - 1);
      CountStep(numbers, b - 1);
    }
  }

  /** The tie rule of `calculateMode`: `mode` is the element at the first index
      `k` at which the highest count of the prefix `numbers[..k + 1]` reaches the
      highest count of the whole list. */
  ghost predicate IsFirstModal(numbers: seq<real>, mode: real) {
    exists k ::
      && 0 <= k < |numbers|
      && numbers[k] == mode
      && MaxCount(numbers[..k]) < MaxCount(numbers[..k + 1]) == MaxCount(numbers)
  }

  /** The first-to-reach rule picks one value. */
  lemma FirstModalUnique(numbers: seq<real>, a: real, b: real)
    requires IsFirstModal(numbers, a) && IsFirstModal(numbers, b)
    ensures a == b
  {
    var ka :| 0 <= ka < |numbers| && numbers[ka] == a
      && MaxCount(numbers[..ka]) < MaxCount(numbers[..ka + 1]) == MaxCount(numbers);
    var kb :| 0 <= kb < |numbers| && numbers[kb] == b
      && MaxCount(numbers[..kb]) < MaxCount(numbers[..kb + 1]) == MaxCount(numbers);
    if ka < kb {
      MaxCountMonotone(numbers, ka + 1, kb);
    }
    if kb < ka {
      MaxCountMonotone(numbers, kb + 1, ka);
    }
    assert ka == kb;
  }

  /** The element where the highest prefix count rises carries that count, so the
      first modal value occurs as often as any value of the list. */
  lemma FirstModalIsMostFrequent(numbers: seq<real>, mode: real)
    requires IsFirstModal(numbers, mode)
    ensures mode in numbers && Count(numbers, mode) == MaxCount(numbers)
  {
    var k :| 0 <= k < |numbers| && numbers[k] == mode
      && MaxCount(numbers[..k]) < MaxCount(numbers[..k + 1]) == MaxCount(numbers);
    CountStep(numbers, k);
    PrefixCount(numbers, k + 1, |numbers|, mode);
    MaxCountIsHighest(numbers);
  }

  /** The `frequency` map holds the count of every value of `prefix`. */
  ghost predicate CountsOf(frequency: map<real, nat>, prefix: seq<real>) {
    forall v :: (v in frequency ==> frequency[v] == Count(prefix, v)) && (v !in frequency ==> Count(prefix, v) == 0)
  }

  /** The state of the counting loop after `i` elements: `frequency` counts the
      prefix, `maxFreq` is its highest count, and `mode` is the element at index
      `k`, where the highest prefix count first reached `maxFreq`. */
  ghost predicate ModeState(numbers: seq<real>, i: nat, frequency: map<real, nat>, maxFreq: nat, mode: real, k: nat) {
    && i <= |numbers|
    && CountsOf(frequency, numbers[..i])
    && maxFreq == MaxCount(numbers[..i])
    && (i > 0 ==> k < i && mode == numbers[k] && MaxCount(numbers[..k]) < MaxCount(numbers[..k + 1]) == maxFreq)
  }

  /** One iteration of the counting loop keeps its state: the current value's
      count goes up by one, and when it climbs above `maxFreq` the value becomes
      the mode. */
  lemma ModeStep(numbers: seq<real>, i: nat, frequency: map<real, nat>, maxFreq: nat, mode: real, k: nat)
    requires i < |numbers| && ModeState(numbers, i, frequency, maxFreq, mode, k)
    ensures var num := numbers[i];
      var f := (if num in frequency then frequency[num] else 0) + 1;
      ModeState(numbers, i + 1, frequency[num := f], if f > maxFreq then f else maxFreq,
                if f > maxFreq then num else mode, if f > maxFreq then i else k)
  {
    CountStep(numbers, i);
    var num := numbers[i];
    var f := (if num in frequency then frequency[num] else 0) + 1;
    assert f == Count(numbers[..i + 1], num);
    if f <= maxFreq && i > 0 {
      assert numbers[..i + 1][..k + 1] == numbers[..k + 1];
    }
  }

  /** `calculateMode`: 0 for an empty list; otherwise one pass that counts each
      value in `frequency` and moves `mode` to the current value whenever its count
      climbs strictly above `maxFreq`. */
  method CalculateMode(numbers: seq<real>) returns (mode: real)
    ensures |numbers| == 0 ==> mode == 0.0
    ensures |numbers| > 0 ==> IsFirstModal(numbers, mode)
    ensures |numbers| > 0 ==> mode in numbers && Count(numbers, mode) == MaxCount(numbers)
  {
    if |numbers| == 0 {
      return 0.0;
    }
    var frequency: map<real, nat> := map[];
    var maxFreq: nat := 0;
    mode := numbers[0];
    ghost var k := 0;
    for i := 0 to |numbers|
      invariant ModeState(numbers, i, frequency, maxFreq, mode, k)
    {
      var num := numbers[i];
      var f := (if num in frequency then frequency[num] else 0) + 1;
      ModeStep(numbers, i, frequency, maxFreq, mode, k);
      frequency := frequency[num := f];
      if f > maxFreq {
        maxFreq, mode, k := f, num, i;
      }
    }
    ModeFinal(numbers, frequency, maxFreq, mode, k);
  }

  /** The loop's state at the end gives the first modal value, which occurs most
      often. */
  lemma ModeFinal(numbers: seq<real>, frequency: map<real, nat>, maxFreq: nat, mode: real, k: nat)
    requires |numbers| > 0 && ModeState(numbers, |numbers|, frequency, maxFreq, mode, k)
    ensures IsFirstModal(numbers, mode)
    ensures mode in numbers && Count(numbers, mode) == MaxCount(numbers)
  {
    assert numbers[..|numbers|] == numbers;
    assert MaxCount(numbers[..k]) < MaxCount(numbers[..k + 1]) == MaxCount(numbers);
    FirstModalIsMostFrequent(numbers, mode);
  }

  /** On a tie the value that reaches the highest count first wins: 1 in [1, 1, 2, 2, 3]. */
  lemma ModeTieFirstExample(numbers: seq<real>, mode: real)
    requires numbers == [1.0, 1.0, 2.0, 2.0, 3.0]
    requires IsFirstModal(numbers, mode)
    ensures mode == 1.0
  {
    assert MaxCount(numbers[..1]) == 1 by {
      assert numbers[..1] == [1.0];
      MaxCountOfOne(1.0);
    }
    assert MaxCount(numbers[..2]) == 2 by {
      assert numbers[..2] == [1.0, 1.0] && numbers[..2][..1] == [1.0];
      MaxCountOfOne(1.0);
      assert Count([1.0, 1.0], 1.0) == 2;
    }
    assert MaxCount(numbers) == 2 by {
      MaxCountIsHighest(numbers);
      assert Count(numbers, numbers[0]) == 2;
      assert Count(numbers, 2.0) == 2 && Count(numbers, 3.0) == 1;
    }
    assert IsFirstModal(numbers, 1.0) by {
      assert numbers[1] == 1.0;
    }
    FirstModalUnique(numbers, mode, 1.0);
  }

  /** The highest count of a one-element list is 1. */
  lemma MaxCountOfOne(x: real)
    ensures MaxCount([x]) == 1
  {
    assert [x][..0] == [];
    assert Count([x], x) == 1;
  }

  /** The count that first reaches the highest count decides, not the first
      occurrence: 2 in [1, 2, 2, 1]. */
  lemma ModeTieLaterExample(numbers: seq<real>, mode: real)
    requires numbers == [1.0, 2.0, 2.0, 1.0]
    requires IsFirstModal(numbers, mode)
    ensures mode == 2.0
  {
    assert IsFirstModal(numbers, 2.0) by {
      LaterExamplePrefixes(numbers);
      assert numbers[2] == 2.0;
    }
    FirstModalUnique(numbers, mode, 2.0);
  }

  lemma LaterExamplePrefixes(numbers: seq<real>)
    requires numbers == [1.0, 2.0, 2.0, 1.0]
    ensures MaxCount(numbers[..2]) == 1 && MaxCount(numbers[..3]) == 2 == MaxCount(numbers)
  {
    assert MaxCount(numbers[..2]) == 1 by {
      assert numbers[..2] == [1.0, 2.0] && numbers[..2][..1] == [1.0];
      MaxCountOfOne(1.0);
      assert Count([1.0, 2.0], 2.0) == 1;
    }
    assert MaxCount(numbers[..3]) == 2 by {
      assert numbers[..3] == [1.0, 2.0, 2.0] && numbers[..3][..2] == numbers[..2];
      assert Count([1.0, 2.0, 2.0], 2.0) == 2;
    }
    assert MaxCount(numbers) == 2 by {
      assert numbers[..3] == numbers[..|numbers| - 1];
      assert Count(numbers, 1.0) == 2;
    }
  }

  /** `a * b`, kept behind a function so that the solver treats a square as a
      product it can reason about with `SquareSign`. */
  function Times(a: real, b: real): real {
    a * b
  }

  lemma TimesPositive(a: real, b: real)
    requires (a > 0.0 && b > 0.0) || (a < 0.0 && b < 0.0)
    ensures Times(a, b) > 0.0
  {
  }

  /** A square is never negative, and positive unless its root is 0. */
  lemma SquareSign(d: real)
    ensures Times(d, d) >= 0.0
    ensures d != 0.0 ==> Times(d, d) > 0.0
  {
    if d != 0.0 {
      TimesPositive(d, d);
    }
  }

  /** The sum of the squared deviations `(x - mean)^2`. */
  function SquaredDeviations(numbers: seq<real>, mean: real): (r: real)
    ensures r >= 0.0
  {
    if |numbers| == 0 then 0.0
    else
      var d := numbers[|numbers| - 1] - mean;
      SquareSign(d);
      SquaredDeviations(numbers[..|numbers| - 1], mean) + Times(d, d)
  }

  /** `calculateVariance(numbers, mean)`: the population variance about the given
      mean (divisor N), 0 for an empty list. */
  function Variance(numbers: seq<real>, mean: real): (r: real)
    ensures r >= 0.0
    ensures |numbers| == 0 ==> r == 0.0
  {
    if |numbers| == 0 then 0.0 else SquaredDeviations(numbers, mean) / |numbers| as real
  }

  lemma {:induction false} SquaredDeviationsZero(numbers: seq<real>, mean: real)
    ensures SquaredDeviations(numbers, mean) == 0.0 <==> forall i :: 0 <= i < |numbers| ==> numbers[i] == mean
  {
    if |numbers| > 0 {
      var p := numbers[..|numbers| - 1];
      var d := numbers[|numbers| - 1] - mean;
      SquaredDeviationsZero(p, mean);
      SquareSign(d);
      assert (forall i :: 0 <= i < |numbers| ==> numbers[i] == mean)
        <==> (forall i :: 0 <= i < |p| ==> p[i] == mean) && d == 0.0;
    }
  }

  /** The variance of a non-empty list about `mean` is 0 exactly when every element equals `mean`. */
  lemma VarianceZeroIffConstant(numbers: seq<real>, mean: real)
    requires |numbers| > 0
    ensures Variance(numbers, mean) == 0.0 <==> forall i :: 0 <= i < |numbers| ==> numbers[i] == mean
  {
    SquaredDeviationsZero(numbers, mean);
  }

  /** The divisor is N, not N - 1: for [2, 4, 6] about 4 the variance is 8/3, not 4. */
  lemma VarianceExample()
    ensures Variance([2.0, 4.0, 6.0], 4.0) == 8.0 / 3.0
  {
    var s := [2.0, 4.0, 6.0];
    assert s[..1] == [2.0] && s[..2] == [2.0, 4.0];
    assert SquaredDeviations(s[..1], 4.0) == 4.0;
    assert SquaredDeviations(s[..2], 4.0) == 4.0;
    assert SquaredDeviations(s, 4.0) == 8.0;
  }
}
