/** `sort` of test-speed.js: an in-place bubble sort of the caller's array. */
module BubbleSort {
  import opened Sequences

  /** Every value in numbers[..bound] is at most every value in numbers[bound..]. */
  ghost predicate Split(numbers: array<int>, bound: int)
    reads numbers
  {
    forall k, m :: 0 <= k < bound <= m < numbers.Length ==> numbers[k] <= numbers[m]
  }

  /** One step of the inner loop: neighbours j and j+1 are swapped when out of order. */
  method SwapIfOutOfOrder(numbers: array<int>, j: int)
    requires 0 <= j < numbers.Length - 1
    modifies numbers
    ensures numbers[j] <= numbers[j + 1]
    ensures numbers[j + 1] == if old(numbers[j]) > old(numbers[j + 1]) then old(numbers[j]) else old(numbers[j + 1])
    ensures numbers[j] == old(numbers[j]) || numbers[j] == old(numbers[j + 1])
    ensures forall k :: 0 <= k < numbers.Length && k != j && k != j + 1 ==> numbers[k] == old(numbers[k])
    ensures multiset(numbers[..]) == old(multiset(numbers[..]))
  {
    var left := numbers[j];
    var right := numbers[j + 1];
    if left > right {
      numbers[j], numbers[j + 1] := right, left;
    }
  }

  /** The inner loop for a prefix ending at `last`: carries the largest value
      of numbers[..last+1] to position `last`, touches nothing after it, and
      keeps every prefix value below every value after it. */
  method BubblePass(numbers: array<int>, last: int)
    requires 0 <= last < numbers.Length
    requires Split(numbers, last + 1)
    modifies numbers
    ensures forall k :: 0 <= k <= last ==> numbers[k] <= numbers[last]
    ensures forall k :: last < k < numbers.Length ==> numbers[k] == old(numbers[k])
    ensures Split(numbers, last + 1)
    ensures multiset(numbers[..]) == old(multiset(numbers[..]))
  {
    for j := 0 to last
      invariant forall k :: 0 <= k <= j ==> numbers[k] <= numbers[j]
      invariant forall k :: last < k < numbers.Length ==> numbers[k] == old(numbers[k])
      invariant Split(numbers, last + 1)
      invariant multiset(numbers[..]) == old(multiset(numbers[..]))
    {
      SwapIfOutOfOrder(numbers, j);
    }
  }

  /** Pass i runs j over 0 .. n-(i+2), swapping neighbours that are out of
      order, which carries the largest value of numbers[..n-i] to position
      n-i-1. After pass i the last i+1 positions hold the largest values, in
      their final order; after all passes the array is sorted. Only the order
      of elements changes, and the array returned is the one passed in. */
  method Sort(numbers: array<int>) returns (result: array<int>)
    modifies numbers
    ensures result == numbers
    ensures Sorted(numbers[..])
    ensures multiset(numbers[..]) == old(multiset(numbers[..]))
  {
    var n := numbers.Length;
    for i := 0 to n
      invariant multiset(numbers[..]) == old(multiset(numbers[..]))
      invariant forall k, m :: n - i <= k < m < n ==> numbers[k] <= numbers[m]
      invariant Split(numbers, n - i)
    {
      BubblePass(numbers, n - (i + 1));
    }
    result := numbers;
  }
}
