# StatisticalLibrary in Dafny

A verified model of `StatisticalLibrary`, a stateless Java utility class. It
computes four descriptive statistics over a list of numbers:

- the mean, optionally restricted to the values at or above a threshold `min`;
- the median, after sorting the caller's list in place;
- the minimum;
- the maximum.

Everything lives in one module, `StatisticalLibrary` (`StatisticalLibrary.dfy`).

- **The list.** The caller's list is an `array<real>`. It is one mutable object
  in the original: `computeMedian` sorts it in place, and later calls see the
  sorted order. `ComputeMean`, `FindMin` and `FindMax` declare no `modifies`
  clause, so Dafny's frame rules guarantee that they leave the list unchanged.
  `ComputeMedian` declares `modifies values` and states the new contents.
- **Numbers.** Values are exact `real`s, so the sums and the divisions are the
  mathematical ones.
- **Empty lists.** `findMin`, `findMax` and `computeMedian` read element 0, or
  for an even size element `size/2 - 1`, so they fail on an empty list. Their
  models therefore require `values.Length > 0`. `computeMean` is total and
  returns 0 when nothing qualifies.
- **Specification functions.** The methods are proved against specification
  functions: `Included` (the values the mean adds up), `Sum`, `Mean`,
  `Minimum`, `Maximum`, `Sorted` and `MiddleOf`. Lemmas state what those
  functions promise. All recursive definitions peel off the *last* element,
  the same order in which the methods scan the list.
- **Demonstration scenario.** The demonstration list of the entry point is
  `[25.5, 29.4, 36.7, 43.1, 57.9, 88.3, 99.9, 100.0]`. The model proves its
  mean is 60.1, its mean over the values at or above 50 is 86.525, its median
  is 50.5, its minimum is 25.5 and its maximum is 100.0. These are exact-arithmetic
  values: the eight values sum to 480.8, so the mean is 60.1. Java's `double`
  rounding, which is left out, can differ in the last digits.

## Model

| member | source | states |
|---|---|---|
| `StatisticalLibrary.Included` | src/StatisticalLibrary.java:37-47 | every value the mean adds up passes the threshold test, and there are never more of them than list elements |
| `StatisticalLibrary.IncludedIsQualifyingPart` | src/StatisticalLibrary.java:37-47 | the summed and counted values are exactly the qualifying elements, each with its multiplicity in the list; so `count` is the number of elements `>= min` (all elements without a threshold), and `sum` is the sum of exactly those |
| `StatisticalLibrary.IncludedEmptyIff` | src/StatisticalLibrary.java:37-50 | nothing is counted if and only if no element qualifies (both directions); an empty list included |
| `StatisticalLibrary.IncludedIsWholeList` | src/StatisticalLibrary.java:38-46 | without a threshold, or with a bound every element meets, every element is summed and counted, in list order |
| `StatisticalLibrary.TrivialThresholdIsUnthresholded` | src/StatisticalLibrary.java:32-51 | a threshold no element falls below (a stand-in for minus infinity) gives the same mean as no threshold, whatever `min` is passed then |
| `StatisticalLibrary.MeanWithinRange` | src/StatisticalLibrary.java:49-50 | `sum / count` of a non-empty set of values lies between their minimum and their maximum |
| `StatisticalLibrary.ComputeMean` | src/StatisticalLibrary.java:32-51 | the result is the mean of exactly the qualifying elements; it is 0 when no element qualifies, which covers the empty list; the list is only read |
| `StatisticalLibrary.Minimum` | src/StatisticalLibrary.java:81-91 | the running minimum of a non-empty list is one of its elements and is `<=` every element |
| `StatisticalLibrary.Maximum` | src/StatisticalLibrary.java:100-111 | the running maximum of a non-empty list is one of its elements and is `>=` every element |
| `StatisticalLibrary.ExtremesAreUnique` | src/StatisticalLibrary.java:81-111 | any element that bounds all elements from below is the minimum, and any that bounds them from above is the maximum; so "is an element" and "bounds every element" determine the result |
| `StatisticalLibrary.MinimumAtMostMaximum` | src/StatisticalLibrary.java:81-111 | on a non-empty list the minimum never exceeds the maximum |
| `StatisticalLibrary.FindMin` | src/StatisticalLibrary.java:81-92 | on a non-empty list, the scan seeded with element 0 returns an element of the list that is `<=` every element; the list is only read |
| `StatisticalLibrary.FindMax` | src/StatisticalLibrary.java:100-111 | on a non-empty list, the scan seeded with element 0 returns an element of the list that is `>=` every element; the list is only read |
| `StatisticalLibrary.MiddleOf` | src/StatisticalLibrary.java:62-70 | on a sorted list the selected value is `>=` every element of the lower half (indices up to `(size-1)/2`) and `<=` every element of the upper half (indices from `size/2`); it lies between the two middle elements |
| `StatisticalLibrary.SortedPermutationsAreEqual` | src/StatisticalLibrary.java:61 | two ascending lists with the same multiset of values are equal, so the sorted order is determined by the values alone |
| `StatisticalLibrary.MedianIgnoresOrder` | src/StatisticalLibrary.java:60-72 | lists that are permutations of each other have the same median, whatever ascending permutation the sort produces |
| `StatisticalLibrary.SortInPlace` | src/StatisticalLibrary.java:61 | after the sort the list is in ascending order and holds the same multiset of values as before |
| `StatisticalLibrary.InsertIntoSortedPrefix` | src/StatisticalLibrary.java:61 | one insertion step of the sort: an ascending prefix grows by one element, the multiset of values is kept, and the elements after the inserted one are unchanged |
| `StatisticalLibrary.ComputeMedian` | src/StatisticalLibrary.java:60-73 | on a non-empty list: the list is left sorted and a permutation of its old contents, and the result is the middle element for an odd size, or the average of the two middle elements for an even size |
| `StatisticalLibrary.DemoMean` | src/StatisticalLibrary.java:122-125 | the demonstration list's mean with threshold 0 is 60.1 |
| `StatisticalLibrary.DemoThresholdedMean` | src/StatisticalLibrary.java:37-50 | the values of the demonstration list at or above 50 are 57.9, 88.3, 99.9 and 100.0, and their mean is 86.525 |
| `StatisticalLibrary.DemoMedian` | src/StatisticalLibrary.java:122-126 | the demonstration list's median is 50.5 |
| `StatisticalLibrary.DemoExtremes` | src/StatisticalLibrary.java:122-128 | the demonstration list's minimum is 25.5 and its maximum is 100.0 |

## Left out

- `main` (console printing of the demonstration list) is I/O glue. Only its statistics are stated, as the `Demo…` lemmas.
- IEEE-754 `double` arithmetic is not modelled: the rounding of the running sum and of the divisions, infinities, signed zero and NaN. Values are exact reals. For NaN, `<`, `>` and `>=` are all false. So with a threshold a NaN is never counted in the mean, and without one it makes the mean NaN. A NaN after element 0 never replaces the running minimum or maximum, but a NaN at element 0 seeds the scan and is what `findMin` and `findMax` return. `Collections.sort` uses the natural order of `Double`, which places NaN after every other value and -0.0 before 0.0.
- ComputeMean: does not model the 32-bit `int` counter. It would wrap after 2^31 - 1 qualifying elements; here the count is unbounded.
- Boxing in `ArrayList<Double>` is not modelled, nor the `NullPointerException` a `null` element would raise on unboxing.
- SortInPlace: `Collections.sort` is a library TimSort. The model is an insertion sort with the same promise: ascending order and a permutation of the old contents. Stability is not stated, because equal reals cannot be told apart.
- FindMin, FindMax, ComputeMedian: the exception an empty list raises is not modelled. Each of these requires a non-empty list instead.
