/**
 * A model of the statistical utility class StatisticalLibrary: the mean of a
 * list (optionally restricted to the values at or above a threshold), its
 * median, its minimum and its maximum.
 *
 * The list is an `array<real>`, since the original works on one mutable list
 * object that the median computation sorts in place. Values are exact reals:
 * the sums and divisions below are the mathematical ones.
 *
 * The specification functions are defined by recursion on the LAST element of
 * a sequence, so that they follow the order in which the methods scan the
 * list: after `i` steps a loop has seen exactly `a[..i]`.
 */
module StatisticalLibrary {

  // ---------------------------------------------------------------------------
  // Specification of the mean
  // ---------------------------------------------------------------------------

  /** Whether `value` takes part in the mean: always when no threshold is
    * applied, otherwise only when it is at least `min`. */
  predicate Qualifies(value: real, min: real, threshold: bool) {
    !threshold || value >= min
  }

  /** The values that the mean adds up, in list order. */
  function Included(s: seq<real>, min: real, threshold: bool): (r: seq<real>)
    ensures |r| <= |s|
    ensures forall x :: x in r ==> Qualifies(x, min, threshold)
  {
    if s == [] then []
    else
      var last := s[|s| - 1];
      Included(s[..|s| - 1], min, threshold) + if Qualifies(last, min, threshold) then [last] else []
  }

  /** The exact sum of a sequence. */
  function Sum(s: seq<real>): real {
    if s == [] then 0.0 else Sum(s[..|s| - 1]) + s[|s| - 1]
  }

  /** Unfolding `Sum` at a new last element. */
  lemma SumAppend(s: seq<real>, x: real)
    ensures Sum(s + [x]) == Sum(s) + x
  {
    assert (s + [x])[..|s|] == s;
  }

  /** Unfolding `Included` at a new last element. */
  lemma IncludedAppend(s: seq<real>, x: real, min: real, threshold: bool)
    ensures Included(s + [x], min, threshold) ==
            Included(s, min, threshold) + if Qualifies(x, min, threshold) then [x] else []
  {
    assert (s + [x])[..|s|] == s;
  }

  /** The arithmetic mean, with 0 standing in for the mean of nothing. */
  function Mean(s: seq<real>): real {
    if s == [] then 0.0 else Sum(s) / (|s| as real)
  }

  /** The included values are exactly the qualifying ones, each with its
    * multiplicity in the list: so the count of included values is the number
    * of qualifying elements, and their sum is the sum of exactly those. */
  lemma {:induction false} IncludedIsQualifyingPart(s: seq<real>, min: real, threshold: bool)
    ensures forall x :: multiset(Included(s, min, threshold))[x] ==
                        if Qualifies(x, min, threshold) then multiset(s)[x] else 0
  {
    if s != [] {
      var init, last := s[..|s| - 1], s[|s| - 1];
      IncludedIsQualifyingPart(init, min, threshold);
      assert s == init + [last];
    }
  }

  /** Nothing is included exactly when no element qualifies. */
  lemma {:induction false} IncludedEmptyIff(s: seq<real>, min: real, threshold: bool)
    ensures Included(s, min, threshold) == [] <==>
            forall i :: 0 <= i < |s| ==> !Qualifies(s[i], min, threshold)
  {
    if s != [] {
      var init := s[..|s| - 1];
      IncludedEmptyIff(init, min, threshold);
      assert forall i :: 0 <= i < |init| ==> init[i] == s[i];
    }
  }

  /** Without a threshold, or with a threshold no element falls below, every
    * element is included, in order. */
  lemma {:induction false} IncludedIsWholeList(s: seq<real>, min: real, threshold: bool)
    requires !threshold || forall i :: 0 <= i < |s| ==> min <= s[i]
    ensures Included(s, min, threshold) == s
  {
    if s != [] {
      var init := s[..|s| - 1];
      IncludedIsWholeList(init, min, threshold);
      assert s == init + [s[|s| - 1]];
    }
  }

  /** A threshold that every element meets (a stand-in for minus infinity)
    * gives the same mean as no threshold at all, whatever bound is passed then. */
  lemma TrivialThresholdIsUnthresholded(s: seq<real>, low: real, other: real)
    requires forall i :: 0 <= i < |s| ==> low <= s[i]
    ensures Mean(Included(s, low, true)) == Mean(Included(s, other, false))
  {
    IncludedIsWholeList(s, low, true);
    IncludedIsWholeList(s, other, false);
  }

  /** If every element lies in `[low, high]`, the sum of `n` elements lies in
    * `[n * low, n * high]`. */
  lemma {:induction false} SumBetween(s: seq<real>, low: real, high: real)
    requires forall i :: 0 <= i < |s| ==> low <= s[i] <= high
    ensures (|s| as real) * low <= Sum(s) <= (|s| as real) * high
  {
    if s != [] {
      var init := s[..|s| - 1];
      assert forall i :: 0 <= i < |init| ==> init[i] == s[i];
      SumBetween(init, low, high);
      var n := |init| as real;
      assert (|s| as real) * low == n * low + low;
      assert (|s| as real) * high == n * high + high;
    }
  }

  /** The mean of a non-empty list lies between its minimum and its maximum. */
  lemma MeanWithinRange(s: seq<real>)
    requires s != []
    ensures Minimum(s) <= Mean(s) <= Maximum(s)
  {
    SumBetween(s, Minimum(s), Maximum(s));
    QuotientBetween(Sum(s), |s| as real, Minimum(s), Maximum(s));
  }

  /** Dividing `[n * low, n * high]` by a positive `n`. */
  lemma QuotientBetween(x: real, n: real, low: real, high: real)
    requires n > 0.0 && n * low <= x <= n * high
    ensures low <= x / n <= high
  {
    var q := x / n;
    assert q * n == x;
    assert (q - low) * n == x - n * low;
    assert (high - q) * n == n * high - x;
  }

  // ---------------------------------------------------------------------------
  // Specification of the minimum and the maximum
  // ---------------------------------------------------------------------------

  /** The running minimum of a scan that starts from the first element and
    * replaces the best so far only by a strictly smaller value. */
  function Minimum(s: seq<real>): (m: real)
    requires s != []
    ensures m in s
    ensures forall i :: 0 <= i < |s| ==> m <= s[i]
  {
    if |s| == 1 then s[0]
    else
      var best := Minimum(s[..|s| - 1]);
      if s[|s| - 1] < best then s[|s| - 1] else best
  }

  /** The running maximum, the mirror image of `Minimum`. */
  function Maximum(s: seq<real>): (m: real)
    requires s != []
    ensures m in s
    ensures forall i :: 0 <= i < |s| ==> s[i] <= m
  {
    if |s| == 1 then s[0]
    else
      var best := Maximum(s[..|s| - 1]);
      if s[|s| - 1] > best then s[|s| - 1] else best
  }

  /** An element that is at most every element is the minimum, and one that is
    * at least every element is the maximum. */
  lemma ExtremesAreUnique(s: seq<real>, lo: real, hi: real)
    requires lo in s && forall i :: 0 <= i < |s| ==> lo <= s[i]
    requires hi in s && forall i :: 0 <= i < |s| ==> s[i] <= hi
    ensures Minimum(s) == lo && Maximum(s) == hi
  {
  }

  /** The minimum never exceeds the maximum. */
  lemma MinimumAtMostMaximum(s: seq<real>)
    requires s != []
    ensures Minimum(s) <= Maximum(s)
  {
  }

  // ---------------------------------------------------------------------------
  // Specification of the median
  // ---------------------------------------------------------------------------

  /** Ascending order. */
  predicate Sorted(s: seq<real>) {
    forall i, j :: 0 <= i < j < |s| ==> s[i] <= s[j]
  }

  /** The middle of a sequence: the middle element for an odd length, the
    * average of the two middle elements for an even one. On a sorted
    * sequence the lower half (the first ceil(n/2) elements) lies at or below
    * the result and the upper half (the last ceil(n/2) elements) at or above. */
  function MiddleOf(s: seq<real>): (r: real)
    requires s != []
    ensures Sorted(s) ==> forall i :: 0 <= i <= (|s| - 1) / 2 ==> s[i] <= r
    ensures Sorted(s) ==> forall i :: |s| / 2 <= i < |s| ==> r <= s[i]
    ensures s[(|s| - 1) / 2] <= s[|s| / 2] ==> s[(|s| - 1) / 2] <= r <= s[|s| / 2]
  {
    var n := |s|;
    if n % 2 == 1 then s[n / 2] else (s[n / 2 - 1] + s[n / 2]) / 2.0
  }

  /** Two sorted sequences holding the same multiset of values are equal: the
    * sorted order of a list is determined by its values alone. */
  lemma {:induction false} SortedPermutationsAreEqual(s: seq<real>, t: seq<real>)
    requires Sorted(s) && Sorted(t)
    requires multiset(s) == multiset(t)
    ensures s == t
  {
    assert |s| == |multiset(s)| == |multiset(t)| == |t|;
    if s != [] {
      assert t[0] in multiset(s) && s[0] in multiset(t);
      SortedHeadIsLeast(s, t[0]);
      SortedHeadIsLeast(t, s[0]);
      var x, restS, restT := s[0], s[1..], t[1..];
      assert t[0] == x;
      assert s == [x] + restS;
      assert t == [x] + restT;
      calc {
        multiset(restS);
        multiset(s) - multiset{x};
        multiset(t) - multiset{x};
        multiset(restT);
      }
      SortedPermutationsAreEqual(restS, restT);
    }
  }

  /** The first element of a sorted sequence is at most any of its values. */
  lemma SortedHeadIsLeast(s: seq<real>, x: real)
    requires Sorted(s) && x in s
    ensures s[0] <= x
  {
    var j :| 0 <= j < |s| && s[j] == x;
    assert s[0] <= s[j];
  }

  /** The median depends only on the multiset of the input: two lists that
    * are permutations of each other, each sorted into any ascending
    * permutation, have the same middle. */
  lemma MedianIgnoresOrder(u: seq<real>, v: seq<real>, sortedU: seq<real>, sortedV: seq<real>)
    requires u != [] && multiset(u) == multiset(v)
    requires Sorted(sortedU) && multiset(sortedU) == multiset(u)
    requires Sorted(sortedV) && multiset(sortedV) == multiset(v)
    ensures sortedU != [] && sortedV != []
    ensures MiddleOf(sortedU) == MiddleOf(sortedV)
  {
    assert |sortedU| == |multiset(u)| == |u|;
    SortedPermutationsAreEqual(sortedU, sortedV);
  }

  // ---------------------------------------------------------------------------
  // The operations
  // ---------------------------------------------------------------------------

  /** computeMean: one pass that adds up and counts the qualifying values,
    * then `sum / count`, or 0 when nothing qualified (an empty list included).
    * The list is only read. */
  method ComputeMean(values: array<real>, min: real, threshold: bool) returns (mean: real)
    ensures mean == Mean(Included(values[..], min, threshold))
    ensures (forall i :: 0 <= i < values.Length ==> !Qualifies(values[i], min, threshold)) ==> mean == 0.0
  {
    var sum := 0.0;
    var count := 0;
    for i := 0 to values.Length
      invariant sum == Sum(Included(values[..i], min, threshold))
      invariant count == |Included(values[..i], min, threshold)|
    {
      var value := values[i];
      assert values[..i + 1] == values[..i] + [value];
      IncludedAppend(values[..i], value, min, threshold);
      ghost var seen := Included(values[..i], min, threshold);
      SumAppend(seen, value);
      assert Included(values[..i + 1], min, threshold) ==
             if Qualifies(value, min, threshold) then seen + [value] else seen;
      if threshold {
        if value >= min {
          sum := sum + value;
          count := count + 1;
        }
      } else {
        sum := sum + value;
        count := count + 1;
      }
    }
    assert values[..values.Length] == values[..];
    mean := if count > 0 then sum / (count as real) else 0.0;
    IncludedEmptyIff(values[..], min, threshold);
  }

  /** Collections.sort on the caller's list: afterwards the array is in
    * ascending order and holds the same values as before. */
  method SortInPlace(a: array<real>)
    modifies a
    ensures Sorted(a[..])
    ensures multiset(a[..]) == multiset(old(a[..]))
  {
    for i := 0 to a.Length
      invariant forall p, q :: 0 <= p < q < i ==> a[p] <= a[q]
      invariant multiset(a[..]) == multiset(old(a[..]))
    {
      InsertIntoSortedPrefix(a, i);
    }
  }

  /** One step of insertion sort: moves `a[i]` down into the ascending prefix
    * `a[..i]`, so that `a[..i + 1]` is ascending; the elements after index `i`
    * stay where they were. */
  method InsertIntoSortedPrefix(a: array<real>, i: nat)
    requires i < a.Length
    requires forall p, q :: 0 <= p < q < i ==> a[p] <= a[q]
    modifies a
    ensures forall p, q :: 0 <= p < q <= i ==> a[p] <= a[q]
    ensures multiset(a[..]) == multiset(old(a[..]))
    ensures a[i + 1..] == old(a[i + 1..])
  {
    var j := i;
    while 0 < j && a[j] < a[j - 1]
      invariant 0 <= j <= i
      invariant forall p, q :: 0 <= p < q <= i && q != j ==> a[p] <= a[q]
      invariant multiset(a[..]) == multiset(old(a[..]))
      invariant a[i + 1..] == old(a[i + 1..])
    {
      Swap(a, j - 1, j);
      j := j - 1;
    }
  }

  /** Exchanges two elements of an array. */
  method Swap(a: array<real>, i: nat, j: nat)
    requires i < j < a.Length
    modifies a
    ensures a[i] == old(a[j]) && a[j] == old(a[i])
    ensures forall k :: 0 <= k < a.Length && k != i && k != j ==> a[k] == old(a[k])
    ensures multiset(a[..]) == multiset(old(a[..]))
  {
    a[i], a[j] := a[j], a[i];
  }

  /** computeMedian: sorts the caller's list in place, then picks the middle
    * element (odd length) or averages the two middle elements (even length).
    * An empty list has no element to pick. */
  method ComputeMedian(values: array<real>) returns (median: real)
    requires values.Length > 0
    modifies values
    ensures Sorted(values[..])
    ensures multiset(values[..]) == multiset(old(values[..]))
    ensures median == MiddleOf(values[..])
  {
    SortInPlace(values);
    var size := values.Length;
    if size % 2 == 1 {
      median := values[size / 2];
    } else {
      median := (values[size / 2 - 1] + values[size / 2]) / 2.0;
    }
  }

  /** findMin: a scan seeded with the first element that keeps the smallest
    * value seen. The list is only read. */
  method FindMin(values: array<real>) returns (min: real)
    requires values.Length > 0
    ensures min in values[..]
    ensures forall i :: 0 <= i < values.Length ==> min <= values[i]
    ensures min == Minimum(values[..])
  {
    min := values[0];
    for i := 0 to values.Length
      invariant min == Minimum(values[..if i == 0 then 1 else i])
    {
      var value := values[i];
      assert values[..i + 1][..i] == values[..i];
      if value < min {
        min := value;
      }
    }
    assert values[..values.Length] == values[..];
  }

  /** findMax: a scan seeded with the first element that keeps the largest
    * value seen. The list is only read. */
  method FindMax(values: array<real>) returns (max: real)
    requires values.Length > 0
    ensures max in values[..]
    ensures forall i :: 0 <= i < values.Length ==> values[i] <= max
    ensures max == Maximum(values[..])
  {
    max := values[0];
    for i := 0 to values.Length
      invariant max == Maximum(values[..if i == 0 then 1 else i])
    {
      var value := values[i];
      assert values[..i + 1][..i] == values[..i];
      if value > max {
        max := value;
      }
    }
    assert values[..values.Length] == values[..];
  }

  // ---------------------------------------------------------------------------
  // The demonstration list of the original's entry point
  // ---------------------------------------------------------------------------

  /** The fixed list that the original's demonstration prints statistics of. */
  function DemoData(): seq<real> {
    [25.5, 29.4, 36.7, 43.1, 57.9, 88.3, 99.9, 100.0]
  }

  /** The sum of the demonstration list. */
  lemma DemoSum()
    ensures Sum(DemoData()) == 480.8
  {
    var p1 := [25.5, 29.4];
    var p2 := p1 + [36.7, 43.1];
    var p3 := p2 + [57.9, 88.3];
    SumAppend([25.5], 29.4);
    SumAppend(p1, 36.7);
    SumAppend(p1 + [36.7], 43.1);
    SumAppend(p2, 57.9);
    SumAppend(p2 + [57.9], 88.3);
    SumAppend(p3, 99.9);
    SumAppend(p3 + [99.9], 100.0);
    assert p1 + [36.7] + [43.1] == p2;
    assert p2 + [57.9] + [88.3] == p3;
    assert p3 + [99.9] + [100.0] == DemoData();
  }

  /** The demonstration's mean, thresholded at 0 (which every value meets). */
  lemma DemoMean()
    ensures Mean(Included(DemoData(), 0.0, true)) == 60.1
  {
    IncludedIsWholeList(DemoData(), 0.0, true);
    DemoSum();
  }

  /** The demonstration's values at or above 50. */
  lemma DemoAboveFifty()
    ensures Included(DemoData(), 50.0, true) == [57.9, 88.3, 99.9, 100.0]
  {
    var low := [25.5, 29.4, 36.7, 43.1];
    IncludedEmptyIff(low, 50.0, true);
    IncludedAppend(low, 57.9, 50.0, true);
    IncludedAppend(low + [57.9], 88.3, 50.0, true);
    IncludedAppend(low + [57.9, 88.3], 99.9, 50.0, true);
    IncludedAppend(low + [57.9, 88.3, 99.9], 100.0, 50.0, true);
    assert low + [57.9] + [88.3] == low + [57.9, 88.3];
    assert low + [57.9, 88.3] + [99.9] == low + [57.9, 88.3, 99.9];
    assert low + [57.9, 88.3, 99.9] + [100.0] == DemoData();
  }

  /** The mean of the demonstration's values at or above 50. */
  lemma DemoThresholdedMean()
    ensures Mean(Included(DemoData(), 50.0, true)) == 86.525
  {
    DemoAboveFifty();
    SumAppend([], 57.9);
    assert [] + [57.9] == [57.9];
    SumAppend([57.9], 88.3);
    SumAppend([57.9, 88.3], 99.9);
    SumAppend([57.9, 88.3, 99.9], 100.0);
    assert [57.9] + [88.3] == [57.9, 88.3];
    assert [57.9, 88.3] + [99.9] == [57.9, 88.3, 99.9];
    assert [57.9, 88.3, 99.9] + [100.0] == [57.9, 88.3, 99.9, 100.0];
  }

  /** The demonstration's median, the same for whatever ascending
    * permutation the sort produces. */
  lemma DemoMedian(sorted: seq<real>)
    requires Sorted(sorted) && multiset(sorted) == multiset(DemoData())
    ensures sorted != [] && MiddleOf(sorted) == 50.5
  {
    var d := DemoData();
    DemoSorted();
    SortedPermutationsAreEqual(sorted, d);
    assert sorted[3] == 43.1 && sorted[4] == 57.9;
  }

  /** The demonstration list is already in ascending order. */
  lemma DemoSorted()
    ensures Sorted(DemoData())
  {
  }

  /** The demonstration's minimum and maximum. */
  lemma DemoExtremes()
    ensures Minimum(DemoData()) == 25.5 && Maximum(DemoData()) == 100.0
  {
    ExtremesAreUnique(DemoData(), 25.5, 100.0);
  }
}
