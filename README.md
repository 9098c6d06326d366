# nodejs-sort-speed-test: the two sorting routines written in the script

The benchmark script `test-speed.js` times four ways of sorting 2,000 random
integers in 0..99: an external compiled sorter (line 51), `customSort`
(line 63), and two calls of the built-in `Array.prototype.sort` (lines 67
and 71). One of them, `customSort`, is written out in the script. The script
also defines an in-place bubble sort, `sort`, that it never calls; only the
comment at line 11 compares its speed. These two routines are modelled here:

- `customSort(arr)` (lines 28-46), a recursive partition sort. It takes the
  middle element `arr[floor(length / 2)]` as the pivot. One loop pushes every
  element strictly below the pivot onto a fresh `left` array and every element
  strictly above it onto a fresh `right` array. The result is
  `customSort(left)`, then the pivot, then `customSort(right)`. Elements equal to
  the pivot go into neither array, and only the one pivot is put back. So the
  function does not return a sorted permutation. It returns the input's
  *distinct* values in strictly increasing order.
- `sort(numbers)` (lines 12-26), an in-place bubble sort of the caller's
  array, which returns that same array. Nothing in the script calls it.

The project has three modules:

- `Sequences` (`sequences.dfy`) holds the orderings (`Sorted`,
  `StrictlyIncreasing`), `Distinct` and `Values` (the set of values in a
  sequence). It also proves that a sorted permutation is unique.
- `CustomSort` (`custom_sort.dfy`) models `customSort` as a recursive function
  over `seq<int>`. Three functions model the loop's two pushes and the case
  that falls through: `Below`, `Above` and `EqualTo`. They are defined one
  element at a time from the back, as the pushes are. The loop itself is the
  method `Partition`, which is proved to build exactly `Below` and `Above`.
  Both recursive inputs miss the pivot, so each is strictly shorter. The
  termination proof uses this fact, which the contracts of `Below` and
  `Above` state.
- `BubbleSort` (`bubble_sort.dfy`) models `sort` as a method on
  `array<int>`. The inner loop is the method `BubblePass`. One step of that
  loop, a swap of two out-of-order neighbours, is the method
  `SwapIfOutOfOrder`.

Values are modelled as `int`. The script only ever sorts integers in 0..99,
so JavaScript's floating-point numbers are not needed. Those integers never
exceed 2^53, so `<` and `>` on them behave like integer comparison.

`customSort` only reads `arr` and returns new arrays, except that an input of
length 0 or 1 is returned as is. Modelling it on immutable sequences captures
this: "the input is not changed" holds by construction.

## Model

| member | source | states |
|---|---|---|
| `CustomSort.Below` | test-speed.js:37-39 | `left` holds every element of the input that is below the pivot, with its multiplicity, and nothing else. It is no longer than the input, and strictly shorter when the pivot occurs in the input. |
| `CustomSort.Above` | test-speed.js:40-42 | `right` holds every element of the input that is above the pivot, with its multiplicity, and nothing else. It is no longer than the input, and strictly shorter when the pivot occurs in the input. |
| `CustomSort.Partition` | test-speed.js:34-43 | After the single pass over `arr`, `left` and `right` are exactly the elements below and above the pivot, in input order. |
| `CustomSort.JoinAroundPivot` | test-speed.js:45 | Sorted parts below and above the pivot, joined around the one pivot, give a strictly increasing sequence with exactly the values of `arr`. |
| `CustomSort.CustomSort` | test-speed.js:28-46 | An input of length 0 or 1 comes back unchanged. Every result is strictly increasing and has the same set of values as the input. Recursion terminates because both parts are shorter than `arr`. |
| `CustomSort.CustomSortLength` | test-speed.js:37-45 | The result is never longer than the input. It is exactly as long if and only if no input value repeats. |
| `CustomSort.CustomSortPermutesIffDistinct` | test-speed.js:37-45 | The result is a permutation of the input if and only if the input has no repeated value. |
| `CustomSort.CustomSortDependsOnlyOnValues` | test-speed.js:28-46 | Two inputs with the same set of values give the same result, whatever their order or multiplicities. |
| `CustomSort.CustomSortIdempotent` | test-speed.js:28-46 | Sorting a result again returns it unchanged. |
| `CustomSort.CustomSortSortsDistinct` | test-speed.js:28-46 | On an input without repeats, the result is the sorted permutation of the input. |
| `CustomSort.CustomSortIsSortedValues` | test-speed.js:28-46 | The result is the one strictly increasing sequence whose values are the input's values. |
| `CustomSort.CustomSortExampleDistinct` | test-speed.js:28-46 | `[5, 3, 8, 1]` sorts to `[1, 3, 5, 8]`. |
| `CustomSort.CustomSortExampleRepeat` | test-speed.js:37-45 | `[3, 1, 3, 2]` sorts to `[1, 2, 3]`, so one 3 is lost. |
| `CustomSort.CustomSortExampleAllEqual` | test-speed.js:37-45 | `[2, 2, 2]` sorts to `[2]`. |
| `CustomSort.EqualTo` | test-speed.js:38-42 | Holds exactly the elements equal to the pivot, with their multiplicity. These are the copies the loop pushes nowhere. |
| `CustomSort.PartitionMultiset` | test-speed.js:37-43 | Every element of the input lands in exactly one of the three parts: below, equal, above. |
| `CustomSort.CustomSortKeepingDuplicates` | test-speed.js:28-46 | Corrected `customSort` that puts every copy of the pivot between the parts. Its result is sorted and a permutation of the input. |
| `CustomSort.KeepingDuplicatesAgreesOnDistinct` | test-speed.js:28-46 | On inputs without repeats, the corrected and the original `customSort` give the same result. |
| `CustomSort.KeepingDuplicatesIsTheSortedPermutation` | test-speed.js:28-46 | The corrected sort equals every sorted permutation of its input, including the one `sort` produces. |
| `BubbleSort.SwapIfOutOfOrder` | test-speed.js:15-22 | After the step, the two neighbours are in order and the larger one is at `j+1`. No other position changes, and the multiset is kept. |
| `BubbleSort.BubblePass` | test-speed.js:14-23 | One inner loop moves the largest value of the prefix to its last position. It leaves later positions untouched, keeps prefix values below later values, and keeps the multiset. |
| `BubbleSort.Sort` | test-speed.js:12-26 | Invariant: after outer pass `i`, the last `i+1` positions hold the largest values in final order. On return the array is sorted, it is a permutation of its initial contents, and the returned reference is the array passed in. |
| `Sequences.SortedPermutationUnique` | test-speed.js:12-26 | Two sorted permutations of each other are equal, so the contract of `sort` fixes its result. |
| `Sequences.StrictlyIncreasingUnique` | test-speed.js:28-46 | Two strictly increasing sequences with the same set of values are equal, so the contract of `customSort` fixes its result. |
| `Sequences.ValuesCount` | test-speed.js:37-45 | A sequence has at most as many distinct values as elements. It has exactly as many if and only if no value repeats. |

## Findings

| source | as written | input that shows it | evidently intended | confidence | as-written member | corrected member |
|---|---|---|---|---|---|---|
| test-speed.js:37-45 | Elements equal to the pivot are pushed onto neither `left` nor `right`, and only one pivot is put back. | `[3, 1, 3, 2]` gives `[1, 2, 3]`. `[2, 2, 2]` gives `[2]`. | A sort that keeps every element, like the two built-in `Array.prototype.sort` calls it is timed against (lines 67 and 71), which reorder a copy of the array and drop nothing: a sorted permutation of the input. | medium, not executed | `CustomSort.CustomSortPermutesIffDistinct` | `CustomSort.CustomSortKeepingDuplicates` |

With 2,000 values drawn from 0..99, the as-written `customSort` returns at
most 100 values. `CustomSort.CustomSort` stays the model of the code as
written. The corrected `CustomSort.CustomSortKeepingDuplicates` sits beside
it, and it agrees with the original on inputs without repeats
(`KeepingDuplicatesAgreesOnDistinct`).

## Left out

- `generateRandomArray` (test-speed.js:3-9) is left out. Its output comes from `Math.random`, so nothing can be stated beyond "`length` values in 0..99".
- Spawning the compiled sorter and relaying its output (test-speed.js:51-60) is left out. This is process I/O and event callbacks.
- The `console.time`/`console.timeEnd`/`console.log` timing and printing (test-speed.js:50-72) is left out. It is wall-clock measurement and output.
- The built-in `Array.prototype.sort` calls (test-speed.js:67, 71) are left out. They are library routines whose code is not shown. Line 71 compares elements as strings.
- main.c is left out. It parses arguments with `atoi`, allocates memory and prints results. The `quickSort` it calls lives in code that is not part of this model.
- JavaScript numbers are floating point. Fractions, NaN and values beyond 2^53 are not modelled, and the script never produces them.
- CustomSort.CustomSort: the model works on values, so it does not capture that an input of length 0 or 1 is returned as the same array object (aliasing). Longer inputs get a freshly built array.
- CustomSort.CustomSort: the recursion depth is unbounded in the model. The source can run out of stack on large inputs.
