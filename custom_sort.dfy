/** `customSort` of test-speed.js: a recursive middle-pivot partition sort.
    Each call splits its input into the values strictly below and strictly
    above the pivot, sorts both parts, and puts the single pivot between
    them; every other copy of the pivot's value is dropped. */
module CustomSort {
  import opened Sequences

  /** The elements of `s` strictly below `pivot`, in their original order:
      what the loop pushes onto `left`. Defined from the back, one push at a time. */
  function Below(s: seq<int>, pivot: int): (left: seq<int>)
    ensures forall x :: multiset(left)[x] == if x < pivot then multiset(s)[x] else 0
    ensures forall x :: x in left <==> x in s && x < pivot
    ensures |left| <= |s|
    ensures pivot in s ==> |left| < |s|
  {
    if s == [] then []
    else
      var init, last := s[..|s| - 1], s[|s| - 1];
      assert s == init + [last];
      Below(init, pivot) + (if last < pivot then [last] else [])
  }

  /** The elements of `s` strictly above `pivot`, in their original order:
      what the loop pushes onto `right`. */
  function Above(s: seq<int>, pivot: int): (right: seq<int>)
    ensures forall x :: multiset(right)[x] == if x > pivot then multiset(s)[x] else 0
    ensures forall x :: x in right <==> x in s && x > pivot
    ensures |right| <= |s|
    ensures pivot in s ==> |right| < |s|
  {
    if s == [] then []
    else
      var init, last := s[..|s| - 1], s[|s| - 1];
      assert s == init + [last];
      Above(init, pivot) + (if last > pivot then [last] else [])
  }

  /** The partition loop: one pass over `arr`, pushing each element below
      the pivot onto `left` and each element above it onto `right`; elements
      equal to the pivot are pushed nowhere. */
  method Partition(arr: seq<int>, pivot: int) returns (left: seq<int>, right: seq<int>)
    ensures left == Below(arr, pivot) && right == Above(arr, pivot)
  {
    left, right := [], [];
    for i := 0 to |arr|
      invariant left == Below(arr[..i], pivot)
      invariant right == Above(arr[..i], pivot)
    {
      assert arr[..i + 1][..i] == arr[..i];
      if arr[i] < pivot {
        left := left + [arr[i]];
      } else if arr[i] > pivot {
        right := right + [arr[i]];
      }
    }
    assert arr[..|arr|] == arr;
  }

  /** Gluing a strictly increasing run of values below `p`, then `p`, then a
      strictly increasing run of values above `p` gives a strictly increasing sequence. */
  lemma ConcatAroundPivot(l: seq<int>, p: int, r: seq<int>)
    requires StrictlyIncreasing(l) && StrictlyIncreasing(r)
    requires forall x :: x in l ==> x < p
    requires forall x :: x in r ==> p < x
    ensures StrictlyIncreasing(l + [p] + r)
  {
    var s := l + [p] + r;
    forall i, j | 0 <= i < j < |s| ensures s[i] < s[j] {
      if j < |l| {
        assert s[i] == l[i] && s[j] == l[j];
      } else if i > |l| {
        assert s[i] == r[i - |l| - 1] && s[j] == r[j - |l| - 1];
      } else if i == |l| {
        assert s[j] in r;
      } else if j == |l| {
        assert s[i] in l;
      } else {
        assert s[i] in l && s[j] in r;
      }
    }
  }

  /** Sorted parts below and above a pivot taken from `arr`, glued around
      it, form a strictly increasing sequence holding exactly the values of `arr`. */
  lemma JoinAroundPivot(arr: seq<int>, pivot: int, l: seq<int>, r: seq<int>)
    requires pivot in arr
    requires StrictlyIncreasing(l) && Values(l) == Values(Below(arr, pivot))
    requires StrictlyIncreasing(r) && Values(r) == Values(Above(arr, pivot))
    ensures StrictlyIncreasing(l + [pivot] + r)
    ensures Values(l + [pivot] + r) == Values(arr)
  {
    assert forall x :: x in l <==> x in Below(arr, pivot) by {
      forall x ensures x in l <==> x in Below(arr, pivot) {
        assert x in l <==> x in Values(l);
        assert x in Below(arr, pivot) <==> x in Values(Below(arr, pivot));
      }
    }
    assert forall x :: x in r <==> x in Above(arr, pivot) by {
      forall x ensures x in r <==> x in Above(arr, pivot) {
        assert x in r <==> x in Values(r);
        assert x in Above(arr, pivot) <==> x in Values(Above(arr, pivot));
      }
    }
    ConcatAroundPivot(l, pivot, r);
    var s := l + [pivot] + r;
    forall x ensures x in Values(s) <==> x in Values(arr) {
      assert x in s <==> x in l || x == pivot || x in r;
    }
  }

  /** customSort: inputs of length 0 or 1 come back unchanged; otherwise the
      pivot is the element at index floor(length / 2), and the result is the
      sorted part below it, the pivot once, and the sorted part above it.
      Both recursive inputs miss the pivot, so they are strictly shorter.
      The result is strictly increasing and holds exactly the input's values. */
  function CustomSort(arr: seq<int>): (r: seq<int>)
    ensures |arr| <= 1 ==> r == arr
    ensures StrictlyIncreasing(r)
    ensures Values(r) == Values(arr)
    decreases |arr|
  {
    if |arr| <= 1 then arr
    else
      var pivot := arr[|arr| / 2];
      var left := CustomSort(Below(arr, pivot));
      var right := CustomSort(Above(arr, pivot));
      JoinAroundPivot(arr, pivot, left, right);
      left + [pivot] + right
  }

  /** The result never has more elements than the input, and has exactly as
      many precisely when the input holds no repeated value. */
  lemma CustomSortLength(arr: seq<int>)
    ensures |CustomSort(arr)| <= |arr|
    ensures |CustomSort(arr)| == |arr| <==> Distinct(arr)
  {
    var r := CustomSort(arr);
    ValuesCount(r);
    ValuesCount(arr);
  }

  /** customSort returns a permutation of its input exactly when the input
      holds no repeated value; any repeat is lost. */
  lemma CustomSortPermutesIffDistinct(arr: seq<int>)
    ensures multiset(CustomSort(arr)) == multiset(arr) <==> Distinct(arr)
  {
    var r := CustomSort(arr);
    CustomSortLength(arr);
    if Distinct(arr) {
      DistinctSameValuesPermutation(r, arr);
    }
    if multiset(r) == multiset(arr) {
      assert |r| == |multiset(r)| && |arr| == |multiset(arr)|;
    }
  }

  /** The result depends only on the set of input values: neither their
      order nor how often each occurs matters. */
  lemma CustomSortDependsOnlyOnValues(a: seq<int>, b: seq<int>)
    requires Values(a) == Values(b)
    ensures CustomSort(a) == CustomSort(b)
  {
    StrictlyIncreasingUnique(CustomSort(a), CustomSort(b));
  }

  /** Sorting a result of customSort again changes nothing. */
  lemma CustomSortIdempotent(arr: seq<int>)
    ensures CustomSort(CustomSort(arr)) == CustomSort(arr)
  {
    CustomSortDependsOnlyOnValues(CustomSort(arr), arr);
  }

  /** On inputs without repeats, customSort is the sorted permutation. */
  lemma CustomSortSortsDistinct(arr: seq<int>, sorted: seq<int>)
    requires Distinct(arr)
    requires Sorted(sorted) && multiset(sorted) == multiset(arr)
    ensures CustomSort(arr) == sorted
  {
    CustomSortPermutesIffDistinct(arr);
    SortedPermutationUnique(CustomSort(arr), sorted);
  }

  /** customSort's result is the strictly increasing list of the input's values. */
  lemma CustomSortIsSortedValues(arr: seq<int>, sorted: seq<int>)
    requires StrictlyIncreasing(sorted)
    requires forall x :: x in arr <==> x in sorted
    ensures CustomSort(arr) == sorted
  {
    assert Values(arr) == Values(sorted) by {
      forall x ensures x in Values(arr) <==> x in Values(sorted) {
        assert x in arr <==> x in sorted;
      }
    }
    StrictlyIncreasingUnique(CustomSort(arr), sorted);
  }

  /** On an input with distinct values: the usual sorted order. */
  lemma CustomSortExampleDistinct()
    ensures CustomSort([5, 3, 8, 1]) == [1, 3, 5, 8]
  {
    CustomSortIsSortedValues([5, 3, 8, 1], [1, 3, 5, 8]);
  }

  /** On an input with a repeated value: one of the two 3s is lost. */
  lemma CustomSortExampleRepeat()
    ensures CustomSort([3, 1, 3, 2]) == [1, 2, 3]
  {
    CustomSortIsSortedValues([3, 1, 3, 2], [1, 2, 3]);
  }

  /** On an input of one repeated value: a single copy remains. */
  lemma CustomSortExampleAllEqual()
    ensures CustomSort([2, 2, 2]) == [2]
  {
    CustomSortIsSortedValues([2, 2, 2], [2]);
  }

  /** The elements of `s` equal to `pivot`: the copies customSort discards,
      kept by the corrected sort below. */
  function EqualTo(s: seq<int>, pivot: int): (same: seq<int>)
    ensures forall x :: multiset(same)[x] == if x == pivot then multiset(s)[x] else 0
    ensures forall i :: 0 <= i < |same| ==> same[i] == pivot
  {
    if s == [] then []
    else
      var init, last := s[..|s| - 1], s[|s| - 1];
      assert s == init + [last];
      EqualTo(init, pivot) + (if last == pivot then [last] else [])
  }

  /** customSort with its duplicate loss corrected: every element equal to the
      pivot is placed between the two sorted parts, not only the pivot itself.
      The result is a sorted permutation of the input. */
  function CustomSortKeepingDuplicates(arr: seq<int>): (r: seq<int>)
    ensures |arr| <= 1 ==> r == arr
    ensures Sorted(r)
    ensures multiset(r) == multiset(arr)
    decreases |arr|
  {
    if |arr| <= 1 then arr
    else
      var pivot := arr[|arr| / 2];
      var left := CustomSortKeepingDuplicates(Below(arr, pivot));
      var right := CustomSortKeepingDuplicates(Above(arr, pivot));
      JoinThreeWay(arr, pivot, left, right);
      left + EqualTo(arr, pivot) + right
  }

  /** A sorted run of values below `p`, then copies of `p`, then a sorted run
      of values above `p`, is sorted. */
  lemma ConcatSortedAroundPivot(l: seq<int>, e: seq<int>, p: int, r: seq<int>)
    requires Sorted(l) && Sorted(r)
    requires forall x :: x in l ==> x < p
    requires forall i :: 0 <= i < |e| ==> e[i] == p
    requires forall x :: x in r ==> p < x
    ensures Sorted(l + e + r)
  {
    var s := l + e + r;
    forall i, j | 0 <= i < j < |s| ensures s[i] <= s[j] {
      if j < |l| {
        assert s[i] == l[i] && s[j] == l[j];
      } else if i >= |l| + |e| {
        assert s[i] == r[i - |l| - |e|] && s[j] == r[j - |l| - |e|];
      } else if i < |l| {
        assert s[i] in l;
        if j < |l| + |e| { assert s[j] == e[j - |l|]; } else { assert s[j] in r; }
      } else {
        assert s[i] == e[i - |l|];
        if j < |l| + |e| { assert s[j] == e[j - |l|]; } else { assert s[j] in r; }
      }
    }
  }

  /** Sorted permutations of the parts below and above `pivot`, with every
      copy of `pivot` between them, form a sorted permutation of `arr`. */
  lemma JoinThreeWay(arr: seq<int>, pivot: int, l: seq<int>, r: seq<int>)
    requires Sorted(l) && multiset(l) == multiset(Below(arr, pivot))
    requires Sorted(r) && multiset(r) == multiset(Above(arr, pivot))
    ensures Sorted(l + EqualTo(arr, pivot) + r)
    ensures multiset(l + EqualTo(arr, pivot) + r) == multiset(arr)
  {
    var e := EqualTo(arr, pivot);
    forall x | x in l ensures x < pivot {
      assert x in multiset(l);
      assert x in Below(arr, pivot);
    }
    forall x | x in r ensures pivot < x {
      assert x in multiset(r);
      assert x in Above(arr, pivot);
    }
    ConcatSortedAroundPivot(l, e, pivot, r);
    PartitionMultiset(arr, pivot);
    assert multiset(l + e + r) == multiset(l) + multiset(e) + multiset(r);
  }

  /** Every element lands in exactly one of the three parts. */
  lemma PartitionMultiset(arr: seq<int>, pivot: int)
    ensures multiset(Below(arr, pivot)) + multiset(EqualTo(arr, pivot)) + multiset(Above(arr, pivot))
            == multiset(arr)
  {
  }

  /** On inputs without repeats the corrected sort and customSort agree. */
  lemma KeepingDuplicatesAgreesOnDistinct(arr: seq<int>)
    requires Distinct(arr)
    ensures CustomSortKeepingDuplicates(arr) == CustomSort(arr)
  {
    CustomSortSortsDistinct(arr, CustomSortKeepingDuplicates(arr));
  }

  /** The corrected sort returns the one sorted permutation of its input, so it
      agrees with any other sorting procedure, the bubble sort included. */
  lemma KeepingDuplicatesIsTheSortedPermutation(arr: seq<int>, sorted: seq<int>)
    requires Sorted(sorted) && multiset(sorted) == multiset(arr)
    ensures CustomSortKeepingDuplicates(arr) == sorted
  {
    SortedPermutationUnique(CustomSortKeepingDuplicates(arr), sorted);
  }
}
