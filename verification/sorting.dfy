/**
 * The six sorts of sorting.go.  Selection, bubble, insertion and quick sort
 * rearrange an array in place; merge sort and counting sort build a new
 * sequence and leave their input alone.
 */
module Sorting {
  import opened Seqs
  import opened SortSpec

  /**
   * selectionSort: for each position in turn, find the smallest remaining
   * element and swap it into place.
   */
  method SelectionSort(a: array<int>)
    modifies a
    ensures Sorted(a[..])
    ensures multiset(a[..]) == old(multiset(a[..]))
  {
    var n := a.Length;
    var i := 0;
    while i < n - 1
      invariant 0 <= i <= n && Selected(a[..], old(a[..]), i)
    {
      var minIndex := MinIndex(a, i);
      ghost var before := a[..];
      Swap(a, i, minIndex);
      SelectStep(before, a[..], old(a[..]), i, minIndex);
      i := i + 1;
    }
    SplitSorted(a[..], i);
  }

  /** The inner loop of selectionSort: the index of a smallest element of a[i..]. */
  method MinIndex(a: array<int>, i: int) returns (minIndex: int)
    requires 0 <= i < a.Length
    ensures i <= minIndex < a.Length
    ensures forall k | i <= k < a.Length :: a[minIndex] <= a[k]
  {
    minIndex := i;
    var j := i + 1;
    while j < a.Length
      invariant i + 1 <= j <= a.Length
      invariant i <= minIndex < j
      invariant forall k | i <= k < j :: a[minIndex] <= a[k]
    {
      if a[j] < a[minIndex] {
        minIndex := j;
      }
      j := j + 1;
    }
  }

  /**
   * bubbleSort: each pass swaps adjacent elements that are out of order, which
   * carries the largest remaining element to the end; a pass without swaps
   * stops the sort early.  The ghost result `passes` counts the passes run.
   */
  method BubbleSort(a: array<int>) returns (ghost passes: nat)
    modifies a
    ensures Sorted(a[..])
    ensures multiset(a[..]) == old(multiset(a[..]))
    ensures passes <= if a.Length == 0 then 0 else a.Length - 1
    ensures Sorted(old(a[..])) ==> a[..] == old(a[..]) && passes == if a.Length <= 1 then 0 else 1
  {
    var n := a.Length;
    var i := 0;
    passes := 0;
    while i < n - 1
      invariant 0 <= i <= n
      invariant passes == i && (n == 0 || i <= n - 1)
      invariant multiset(a[..]) == old(multiset(a[..]))
      invariant SortedRange(a[..], n - i, n) && Split(a[..], n - i)
      invariant Sorted(old(a[..])) ==> i == 0 && a[..] == old(a[..])
    {
      var swapped := BubblePass(a, n - i);
      passes := passes + 1;
      if !swapped {
        SortedJoin(a[..], n - i);
        break;
      }
      i := i + 1;
    }
    if n > 0 && i >= n - 1 {
      SortedJoin(a[..], n - i);
    }
  }

  /**
   * One pass of bubbleSort over a[..bound]: compare neighbours left to right and
   * swap those out of order.  The largest element of a[..bound] ends at bound - 1;
   * when nothing was swapped, a[..bound] was already in order.
   */
  method BubblePass(a: array<int>, bound: int) returns (swapped: bool)
    requires 1 <= bound <= a.Length
    requires SortedRange(a[..], bound, a.Length) && Split(a[..], bound)
    modifies a
    ensures multiset(a[..]) == old(multiset(a[..]))
    ensures SortedRange(a[..], bound - 1, a.Length) && Split(a[..], bound - 1)
    ensures !swapped ==> SortedRange(a[..], 0, bound)
    ensures SortedRange(old(a[..]), 0, bound) ==> !swapped && a[..] == old(a[..])
  {
    swapped := false;
    var j := 0;
    while j < bound - 1
      invariant j < bound && Bubbling(a[..], old(a[..]), j, bound, swapped)
    {
      swapped := BubbleStep(a, j, bound, old(a[..]), swapped);
      j := j + 1;
    }
    BubblePassEnd(a[..], old(a[..]), bound, swapped);
  }

  /** The body of a bubble pass: swap a[j] and a[j + 1] when they are out of order. */
  method BubbleStep(a: array<int>, j: int, bound: int, ghost orig: seq<int>, swapped: bool)
    returns (swappedNow: bool)
    requires j + 1 < bound && Bubbling(a[..], orig, j, bound, swapped)
    modifies a
    ensures a[..] == if old(a[j]) > old(a[j + 1])
                     then old(a[..])[j := old(a[j + 1])][j + 1 := old(a[j])]
                     else old(a[..])
    ensures swappedNow == (swapped || old(a[j]) > old(a[j + 1]))
    ensures Bubbling(a[..], orig, j + 1, bound, swappedNow)
  {
    ghost var before := a[..];
    if a[j] > a[j + 1] {
      Swap(a, j, j + 1);
      BubbleSwap(before, a[..], orig, j, bound, swapped);
      swappedNow := true;
    } else {
      BubbleKeep(a[..], orig, j, bound, swapped);
      swappedNow := swapped;
    }
  }

  /**
   * insertionSort: take the next element as the key, shift the greater
   * elements of the sorted prefix one place right, and drop the key into the gap.
   */
  method InsertionSort(a: array<int>)
    modifies a
    ensures Sorted(a[..])
    ensures multiset(a[..]) == old(multiset(a[..]))
  {
    var n := a.Length;
    var i := 1;
    while i < n
      invariant 1 <= i && (i <= n || n == 0)
      invariant multiset(a[..]) == old(multiset(a[..]))
      invariant n > 0 ==> SortedRange(a[..], 0, i)
    {
      InsertKey(a, i);
      i := i + 1;
    }
  }

  /**
   * One round of insertionSort: the key a[i] moves left past the greater
   * elements of the sorted prefix a[..i], which shift one place right.
   */
  method InsertKey(a: array<int>, i: int)
    requires 0 < i < a.Length && SortedRange(a[..], 0, i)
    modifies a
    ensures SortedRange(a[..], 0, i + 1)
    ensures multiset(a[..]) == old(multiset(a[..]))
    ensures a[i + 1..] == old(a[i + 1..])
  {
    var key := a[i];
    var j := i - 1;
    ShiftStart(a[..], i);
    while j >= 0 && a[j] > key
      invariant Shifting(a[..], old(a[..]), i, j, key)
      invariant a[i + 1..] == old(a[i + 1..])
    {
      ghost var before := a[..];
      a[j + 1] := a[j];
      InsertShift(before, a[..], old(a[..]), j, i, key);
      j := j - 1;
    }
    ghost var before := a[..];
    a[j + 1] := key;
    InsertDrop(before, a[..], old(a[..]), j, i, key);
  }

  /**
   * partition (Lomuto): move the pivot at `pivotRandomIndex` to the end, sweep
   * the elements not greater than it to the front, and put the pivot right
   * after them.  The random index is a parameter, so what is proved holds for
   * every index in [low, high] the random generator can pick.
   */
  method Partition(a: array<int>, low: int, high: int, pivotRandomIndex: int) returns (p: int)
    requires 0 <= low <= pivotRandomIndex <= high < a.Length
    modifies a
    ensures low <= p <= high
    ensures forall k | low <= k < p :: a[k] <= a[p]
    ensures forall k | p < k <= high :: a[p] < a[k]
    ensures a[p] == old(a[pivotRandomIndex])
    ensures PermutedWithin(old(a[..]), a[..], low, high + 1)
  {
    ghost var start := a[..];
    Swap(a, pivotRandomIndex, high);
    ghost var swapped := a[..];
    var i := Sweep(a, low, high);
    ghost var before := a[..];
    Swap(a, i + 1, high);
    p := i + 1;
    PivotPlaced(before, a[..], low, i, high, swapped[high]);
    PartitionPermutes(start, swapped, before, a[..], low, pivotRandomIndex, i, high);
  }

  /** `arr[i], arr[j] = arr[j], arr[i]`. */
  method Swap(a: array<int>, i: int, j: int)
    requires 0 <= i < a.Length && 0 <= j < a.Length
    modifies a
    ensures a[..] == old(a[..])[i := old(a[j])][j := old(a[i])]
  {
    a[i], a[j] := a[j], a[i];
  }

  /**
   * The loop of partition: j walks [low, high) and every element not above
   * the pivot at a[high] is swapped to the end of the low part a[low..i].
   */
  method Sweep(a: array<int>, low: int, high: int) returns (i: int)
    requires 0 <= low <= high < a.Length
    modifies a
    ensures low - 1 <= i < high
    ensures Lomuto(a[..], low, i, high, high, old(a[high]))
    ensures multiset(a[..]) == old(multiset(a[..]))
    ensures SameOutside(a[..], old(a[..]), low, high + 1)
  {
    var pivot := a[high];
    i := low - 1;
    var j := low;
    while j < high
      invariant low - 1 <= i < j <= high
      invariant Lomuto(a[..], low, i, j, high, pivot)
      invariant multiset(a[..]) == old(multiset(a[..]))
      invariant SameOutside(a[..], old(a[..]), low, high + 1)
    {
      ghost var before := a[..];
      if a[j] <= pivot {
        i := i + 1;
        Swap(a, i, j);
        PartitionSwap(before, a[..], old(a[..]), low, i - 1, j, high, pivot);
      } else {
        PartitionSkip(a[..], low, i, j, high, pivot);
      }
      j := j + 1;
    }
  }

  /**
   * quickSortRecursive: partition [low, high], then sort the parts on either
   * side of the pivot.  Each part leaves the pivot out, so the ranges shrink.
   */
  method QuickSortRecursive(a: array<int>, low: int, high: int)
    requires 0 <= low <= high + 1 <= a.Length
    modifies a
    ensures Sorted(a[low..high + 1])
    ensures PermutedWithin(old(a[..]), a[..], low, high + 1)
    decreases high - low
  {
    if low < high {
      var pivotRandomIndex :| low <= pivotRandomIndex <= high;
      var pivotIndex := Partition(a, low, high, pivotRandomIndex);
      ghost var parted := a[..];
      QuickSortRecursive(a, low, pivotIndex - 1);
      ghost var leftDone := a[..];
      QuickSortRecursive(a, pivotIndex + 1, high);
      QuickSortJoin(old(a[..]), parted, leftDone, a[..], low, pivotIndex, high);
    } else {
      assert a[low..high + 1] == [] || a[low..high + 1] == [a[low]];
    }
  }

  /** quickSort: sort the whole array. */
  method QuickSort(a: array<int>)
    modifies a
    ensures Sorted(a[..])
    ensures multiset(a[..]) == old(multiset(a[..]))
  {
    QuickSortRecursive(a, 0, a.Length - 1);
    assert a[..] == a[0..a.Length] == a[..][0..a.Length];
    assert old(a[..]) == old(a[..])[0..a.Length];
  }

  /**
   * merge: repeatedly append the smaller head, the right one on a tie, then
   * append whatever remains of either input.
   */
  method Merge(left: seq<int>, right: seq<int>) returns (r: seq<int>)
    ensures r == Merged(left, right)
  {
    r := [];
    var i, j := 0, 0;
    while i < |left| && j < |right|
      invariant 0 <= i <= |left| && 0 <= j <= |right|
      invariant r + Merged(left[i..], right[j..]) == Merged(left, right)
    {
      if left[i] < right[j] {
        TakeLeft(left, right, i, j, r);
        r := r + [left[i]];
        i := i + 1;
      } else {
        TakeRight(left, right, i, j, r);
        r := r + [right[j]];
        j := j + 1;
      }
    }
    TakeRest(left, right, i, j, r);
    r := r + left[i..];
    r := r + right[j..];
  }

  /**
   * mergeSort: sequences of length at most one are already sorted; longer ones
   * are split in the middle, each half sorted, and the halves merged.
   */
  method MergeSort(s: seq<int>) returns (r: seq<int>)
    ensures Sorted(r)
    ensures multiset(r) == multiset(s)
    ensures |s| <= 1 ==> r == s
    decreases |s|
  {
    if |s| <= 1 {
      return s;
    }
    var mid := |s| / 2;
    var left := MergeSort(s[..mid]);
    var right := MergeSort(s[mid..]);
    r := Merge(left, right);
    MergedSorted(left, right);
    MergedPermutation(left, right);
    assert s == s[..mid] + s[mid..];
  }

  /**
   * countingSort: count every value, turn the counts into running totals, and
   * walk the input from the back, putting each element just below its value's
   * running total and lowering that total.  Negative values would index the
   * count array out of range, so the input must be non-negative once it has
   * two or more elements.  Element j of the input lands at `Rank(s, j)`, which
   * `RankStable` shows keeps equal elements in their input order.
   */
  method CountingSort(s: seq<int>) returns (r: seq<int>)
    requires |s| <= 1 || forall k | 0 <= k < |s| :: 0 <= s[k]
    ensures |r| == |s|
    ensures Sorted(r)
    ensures multiset(r) == multiset(s)
    ensures forall j | 0 <= j < |s| :: Rank(s, j) < |r| && r[Rank(s, j)] == s[j]
    ensures |s| <= 1 ==> r == s
  {
    var n := |s|;
    if n <= 1 {
      if n == 1 {
        assert s[..0] == [];
        RankInBlock(s, 0);
      }
      return s;
    }
    var max := MaxOf(s);
    var count := Tally(s, max);
    RunningTotals(s, max, count);
    var output := PlaceBackward(s, max, count);
    r := output[..];
    OutputSorted(s, max);
  }

  /** The first loop of countingSort: the largest element, which bounds the count array. */
  method MaxOf(s: seq<int>) returns (max: int)
    requires |s| > 0 && forall k | 0 <= k < |s| :: 0 <= s[k]
    ensures max in s && InRange(s, max)
  {
    max := s[0];
    var i := 1;
    while i < |s|
      invariant 1 <= i <= |s|
      invariant InRange(s[..i], max)
      invariant max in s
    {
      if s[i] > max {
        max := s[i];
      }
      i := i + 1;
    }
    assert s[..i] == s;
  }

  /** The counting loop: count[v] becomes the number of occurrences of v. */
  method Tally(s: seq<int>, max: int) returns (count: array<int>)
    requires 0 <= max && InRange(s, max)
    ensures count.Length == max + 1 && fresh(count)
    ensures forall v | 0 <= v <= max :: count[v] == CountEq(s, v)
  {
    count := new int[max + 1](_ => 0);
    var k := 0;
    while k < |s|
      invariant 0 <= k <= |s|
      invariant forall v | 0 <= v <= max :: count[v] == CountEq(s[..k], v)
    {
      var value := s[k];
      CountEqSteps(s, k);
      count[value] := count[value] + 1;
      k := k + 1;
    }
    assert s[..k] == s;
  }

  /** The cumulative loop: count[v] becomes the number of elements at most v. */
  method RunningTotals(s: seq<int>, max: int, count: array<int>)
    requires 0 <= max && InRange(s, max) && count.Length == max + 1
    requires forall v | 0 <= v <= max :: count[v] == CountEq(s, v)
    modifies count
    ensures forall v | 0 <= v <= max :: count[v] == CountLess(s, v + 1)
  {
    CountLessNone(s, max);
    CountLessSucc(s, 0);
    var i := 1;
    while i <= max
      invariant 1 <= i <= max + 1
      invariant forall v | 0 <= v < i :: count[v] == CountLess(s, v + 1)
      invariant forall v | i <= v <= max :: count[v] == CountEq(s, v)
    {
      CountLessSucc(s, i);
      count[i] := count[i] + count[i - 1];
      i := i + 1;
    }
  }

  /**
   * The output loop: walking the input from the back, each element goes just
   * below its value's running total, which then drops by one.  Afterwards
   * every value's block [CountLess(s, v), CountLess(s, v + 1)) holds that
   * value and element j sits at its stable rank.
   */
  method PlaceBackward(s: seq<int>, max: int, count: array<int>) returns (output: array<int>)
    requires 0 <= max && InRange(s, max) && count.Length == max + 1
    requires forall v | 0 <= v <= max :: count[v] == CountLess(s, v + 1)
    modifies count
    ensures fresh(output) && output[..] == OutputAfter(s, max, -1)
    ensures forall v | 0 <= v <= max :: count[v] == CountLess(s, v)
  {
    var n := |s|;
    output := new int[n](_ => 0);
    assert count[..] == TotalsAfter(s, max, n - 1);
    assert output[..] == OutputAfter(s, max, n - 1);
    var i := n - 1;
    while i >= 0
      invariant -1 <= i < n
      invariant count[..] == TotalsAfter(s, max, i)
      invariant output[..] == OutputAfter(s, max, i)
    {
      var value := s[i];
      SlotIsRank(s, max, i);
      var position := count[value] - 1;
      output[position] := value;
      count[value] := count[value] - 1;
      i := i - 1;
    }
    CountsAfter(s, max, -1);
    assert s[..0] == [];
  }

  /** The running totals once elements i + 1 .. |s| - 1 have been placed. */
  ghost function TotalsAfter(s: seq<int>, max: int, i: int): (c: seq<int>)
    requires 0 <= max && InRange(s, max) && -1 <= i < |s|
    ensures |c| == max + 1
    decreases |s| - i
  {
    if i == |s| - 1 then seq(max + 1, v => CountLess(s, v + 1))
    else
      var c := TotalsAfter(s, max, i + 1);
      c[s[i + 1] := c[s[i + 1]] - 1]
  }

  /** The output array once elements i + 1 .. |s| - 1 have been placed. */
  ghost function OutputAfter(s: seq<int>, max: int, i: int): (o: seq<int>)
    requires 0 <= max && InRange(s, max) && -1 <= i < |s|
    ensures |o| == |s|
    decreases |s| - i
  {
    if i == |s| - 1 then seq(|s|, _ => 0)
    else
      Put(OutputAfter(s, max, i + 1), TotalsAfter(s, max, i + 1)[s[i + 1]] - 1, s[i + 1])
  }

  /** `o` with `x` written at `position`, when that is a cell of `o`. */
  function Put(o: seq<int>, position: int, x: int): (r: seq<int>)
    ensures |r| == |o|
  {
    if 0 <= position < |o| then o[position := x] else o
  }

  // ---------------------------------------------------------------------------
  // Proof steps

  /** Nothing before position i exceeds anything from position i on. */
  predicate Split(s: seq<int>, i: int)
  {
    forall p, q | 0 <= p < i <= q < |s| :: s[p] <= s[q]
  }

  /** The elements of s[lo..hi) are in order. */
  predicate SortedRange(s: seq<int>, lo: int, hi: int)
    requires 0 <= lo <= hi <= |s|
  {
    forall p, q | lo <= p < q < hi :: s[p] <= s[q]
  }

  /** s[j] is the largest of s[..j + 1]. */
  predicate MaxAt(s: seq<int>, j: int)
    requires 0 <= j < |s|
  {
    forall k | 0 <= k <= j :: s[k] <= s[j]
  }

  /**
   * The state of a bubble pass at j: a permutation of `orig` whose suffix from
   * `bound` is sorted and split from the rest, whose s[j] is the largest of
   * s[..j + 1], and whose prefix s[..j + 1] is sorted while nothing was swapped;
   * a pass over an already sorted s[..bound] has swapped nothing.
   */
  predicate Bubbling(s: seq<int>, orig: seq<int>, j: int, bound: int, swapped: bool)
  {
    0 <= j < bound <= |s| == |orig| && multiset(s) == multiset(orig) &&
    SortedRange(s, bound, |s|) && Split(s, bound) && MaxAt(s, j) &&
    (!swapped ==> SortedRange(s, 0, j + 1)) &&
    (SortedRange(orig, 0, bound) ==> !swapped && s == orig)
  }

  /** A bubble step that swaps s[j] and s[j + 1] carries the running maximum to j + 1. */
  lemma {:induction false} BubbleSwap(s: seq<int>, t: seq<int>, orig: seq<int>, j: int, bound: int, swapped: bool)
    requires Bubbling(s, orig, j, bound, swapped) && j + 1 < bound
    requires s[j] > s[j + 1] && t == s[j := s[j + 1]][j + 1 := s[j]]
    ensures Bubbling(t, orig, j + 1, bound, true)
  {
    SwapPermutation(s, j, j + 1);
    assert orig[j] > orig[j + 1] ==> !SortedRange(orig, 0, bound);
  }

  /** A bubble step that leaves s[j] <= s[j + 1] alone. */
  lemma {:induction false} BubbleKeep(s: seq<int>, orig: seq<int>, j: int, bound: int, swapped: bool)
    requires Bubbling(s, orig, j, bound, swapped) && j + 1 < bound
    requires s[j] <= s[j + 1]
    ensures Bubbling(s, orig, j + 1, bound, swapped)
  {
  }

  /** After a pass, the maximum of s[..bound] sits at bound - 1, joining the sorted suffix. */
  lemma {:induction false} BubblePassEnd(s: seq<int>, orig: seq<int>, bound: int, swapped: bool)
    requires Bubbling(s, orig, bound - 1, bound, swapped)
    ensures multiset(s) == multiset(orig)
    ensures SortedRange(s, bound - 1, |s|) && Split(s, bound - 1)
    ensures !swapped ==> SortedRange(s, 0, bound)
    ensures SortedRange(orig, 0, bound) ==> !swapped && s == orig
  {
  }

  /** A sorted prefix split from a sorted suffix makes a sorted whole. */
  lemma {:induction false} SortedJoin(s: seq<int>, bound: int)
    requires 0 <= bound <= |s|
    requires SortedRange(s, 0, bound) && SortedRange(s, bound, |s|) && Split(s, bound)
    ensures Sorted(s)
  {
  }

  /** s[..i + 1] is in order once the hole at h is ignored. */
  predicate SortedExcept(s: seq<int>, i: int, h: int)
    requires i < |s|
  {
    forall p, q | 0 <= p < q <= i && p != h && q != h :: s[p] <= s[q]
  }

  /** Every element of s(h..i] is greater than key. */
  predicate AllAbove(s: seq<int>, h: int, i: int, key: int)
    requires i < |s|
  {
    forall k | h < k <= i && 0 <= k :: key < s[k]
  }

  /**
   * The inner loop of insertionSort so far: the hole is at j + 1, s[..i] with
   * the hole left out is sorted, everything right of the hole up to i is
   * greater than the key, and putting the key into the hole gives back a
   * permutation of the array the round started from.
   */
  predicate Shifting(s: seq<int>, orig: seq<int>, i: int, j: int, key: int)
  {
    -1 <= j < i < |s| && |orig| == |s| &&
    multiset(s[j + 1 := key]) == multiset(orig) &&
    SortedExcept(s, i, j + 1) && AllAbove(s, j + 1, i, key)
  }

  lemma {:induction false} ShiftStart(s: seq<int>, i: int)
    requires 0 < i < |s| && SortedRange(s, 0, i)
    ensures Shifting(s, s, i, i - 1, s[i])
  {
    assert s[i := s[i]] == s;
  }

  /** Shifting s[j] into the hole at j + 1 moves the hole to j. */
  lemma {:induction false} InsertShift(s: seq<int>, t: seq<int>, orig: seq<int>, j: int, i: int, key: int)
    requires Shifting(s, orig, i, j, key) && 0 <= j && key < s[j]
    requires t == s[j + 1 := s[j]]
    ensures Shifting(t, orig, i, j - 1, key)
  {
    var u := s[j + 1 := key];
    assert t[j := key] == u[j := u[j + 1]][j + 1 := u[j]];
    SwapPermutation(u, j, j + 1);
  }

  /** Dropping the key into the hole, after everything not greater than it, sorts s[..i + 1]. */
  lemma {:induction false} InsertDrop(s: seq<int>, t: seq<int>, orig: seq<int>, j: int, i: int, key: int)
    requires Shifting(s, orig, i, j, key) && (j < 0 || s[j] <= key)
    requires t == s[j + 1 := key]
    ensures SortedRange(t, 0, i + 1) && multiset(t) == multiset(orig)
  {
    forall p, q | 0 <= p < q < i + 1 ensures t[p] <= t[q] {
      if q == j + 1 {
        assert t[p] == s[p] && (p == j || s[p] <= s[j]);
      }
    }
  }

  /** The Lomuto sweep so far: s[low..i] at most the pivot, s(i..j) above it, the pivot parked at high. */
  predicate Lomuto(s: seq<int>, low: int, i: int, j: int, high: int, pivot: int)
    requires 0 <= low && low - 1 <= i < j <= high < |s|
  {
    s[high] == pivot &&
    (forall k | low <= k <= i :: s[k] <= pivot) &&
    (forall k | i < k < j :: pivot < s[k])
  }

  /** s agrees with `orig` outside [lo, hi). */
  predicate SameOutside(s: seq<int>, orig: seq<int>, lo: int, hi: int)
  {
    |s| == |orig| && forall k | 0 <= k < |s| && !(lo <= k < hi) :: s[k] == orig[k]
  }

  /** An element not above the pivot is swapped to the end of the low part. */
  lemma {:induction false} PartitionSwap(s: seq<int>, t: seq<int>, orig: seq<int>,
                      low: int, i: int, j: int, high: int, pivot: int)
    requires 0 <= low && low - 1 <= i < j < high < |s| && |orig| == |s|
    requires Lomuto(s, low, i, j, high, pivot) && s[j] <= pivot
    requires SameOutside(s, orig, low, high + 1)
    requires t == s[i + 1 := s[j]][j := s[i + 1]]
    ensures Lomuto(t, low, i + 1, j + 1, high, pivot)
    ensures multiset(t) == multiset(s)
    ensures SameOutside(t, orig, low, high + 1)
  {
    SwapPermutation(s, i + 1, j);
  }

  /** An element above the pivot stays where it is, in the high part. */
  lemma {:induction false} PartitionSkip(s: seq<int>, low: int, i: int, j: int, high: int, pivot: int)
    requires 0 <= low && low - 1 <= i < j < high < |s|
    requires Lomuto(s, low, i, j, high, pivot) && pivot < s[j]
    ensures Lomuto(s, low, i, j + 1, high, pivot)
  {
  }

  /** The pivot swapped in after the low part sits between the two parts. */
  lemma {:induction false} PivotPlaced(s: seq<int>, t: seq<int>, low: int, i: int, high: int, pivot: int)
    requires 0 <= low && low - 1 <= i < high < |s|
    requires Lomuto(s, low, i, high, high, pivot)
    requires t == s[i + 1 := s[high]][high := s[i + 1]]
    ensures t[i + 1] == pivot
    ensures forall k | low <= k < i + 1 :: t[k] <= t[i + 1]
    ensures forall k | i + 1 < k <= high :: t[i + 1] < t[k]
  {
  }

  /** Parking the pivot, sweeping and swapping it back rearrange [low, high] only. */
  lemma {:induction false} PartitionPermutes(orig: seq<int>, swapped: seq<int>, s: seq<int>, t: seq<int>,
                          low: int, m: int, i: int, high: int)
    requires 0 <= low <= m <= high < |orig|
    requires swapped == orig[m := orig[high]][high := orig[m]]
    requires low - 1 <= i < high
    requires multiset(s) == multiset(swapped) && SameOutside(s, swapped, low, high + 1)
    requires t == s[i + 1 := s[high]][high := s[i + 1]]
    ensures PermutedWithin(orig, t, low, high + 1)
  {
    PartitionKeepsOutside(orig, swapped, s, t, low, m, i, high);
    SlicePermutation(orig, t, low, high + 1);
  }

  lemma {:induction false} PartitionKeepsOutside(orig: seq<int>, swapped: seq<int>, s: seq<int>, t: seq<int>,
                              low: int, m: int, i: int, high: int)
    requires 0 <= low <= m <= high < |orig|
    requires swapped == orig[m := orig[high]][high := orig[m]]
    requires low - 1 <= i < high
    requires multiset(s) == multiset(swapped) && SameOutside(s, swapped, low, high + 1)
    requires t == s[i + 1 := s[high]][high := s[i + 1]]
    ensures multiset(t) == multiset(orig)
    ensures SameOutside(t, orig, low, high + 1)
  {
    SwapPermutation(orig, m, high);
    SwapPermutation(s, i + 1, high);
  }

  /** After i rounds of selectionSort: a permutation of `orig` whose first i cells are sorted and split from the rest. */
  predicate Selected(s: seq<int>, orig: seq<int>, i: int)
  {
    0 <= i <= |s| && multiset(s) == multiset(orig) && Sorted(s[..i]) && Split(s, i)
  }

  /** Swapping the minimum of s[i..] into position i extends the sorted, split prefix by one. */
  lemma {:induction false} SelectStep(s: seq<int>, t: seq<int>, orig: seq<int>, i: int, m: int)
    requires Selected(s, orig, i) && i <= m < |s|
    requires forall k | i <= k < |s| :: s[m] <= s[k]
    requires t == s[i := s[m]][m := s[i]]
    ensures Selected(t, orig, i + 1)
  {
    var u := t[..i + 1];
    forall p, q | 0 <= p < q < |u| ensures u[p] <= u[q] {
      assert u[q] == t[q];
      if q < i {
        assert s[..i][p] <= s[..i][q];
      }
    }
    forall p, q | 0 <= p < i + 1 <= q < |t| ensures t[p] <= t[q] {
      assert s[m] <= s[q] && s[m] <= s[i];
    }
    SwapPermutation(s, i, m);
  }

  lemma {:induction false} SwapPermutation(s: seq<int>, i: int, j: int)
    requires 0 <= i < |s| && 0 <= j < |s|
    ensures multiset(s[i := s[j]][j := s[i]]) == multiset(s)
  {
  }

  /** A sorted prefix that is split from the rest, with at most one element after it, is all sorted. */
  lemma {:induction false} SplitSorted(s: seq<int>, i: int)
    requires 0 <= i <= |s| && |s| <= i + 1
    requires Sorted(s[..i]) && Split(s, i)
    ensures Sorted(s)
  {
    forall p, q | 0 <= p < q < |s| ensures s[p] <= s[q] {
      if q < i {
        assert s[..i][p] <= s[..i][q];
      }
    }
  }

  /**
   * `after` rearranges the cells [lo, hi) of `before` and leaves every other
   * cell as it was.
   */
  predicate PermutedWithin(before: seq<int>, after: seq<int>, lo: int, hi: int)
  {
    0 <= lo <= hi <= |before| && SameOutside(after, before, lo, hi) &&
    multiset(before[lo..hi]) == multiset(after[lo..hi])
  }

  /** Cells outside [lo, hi) unchanged and the whole a permutation: so is the slice. */
  lemma {:induction false} SlicePermutation(before: seq<int>, after: seq<int>, lo: int, hi: int)
    requires 0 <= lo <= hi <= |before|
    requires multiset(before) == multiset(after) && SameOutside(after, before, lo, hi)
    ensures PermutedWithin(before, after, lo, hi)
  {
    SplitMultiset(before, lo, hi);
    SplitMultiset(after, lo, hi);
    assert before[..lo] == after[..lo];
    assert before[hi..] == after[hi..];
  }

  /** The multiset of s is that of [lo, hi) plus that of the cells around it. */
  lemma {:induction false} SplitMultiset(s: seq<int>, lo: int, hi: int)
    requires 0 <= lo <= hi <= |s|
    ensures multiset(s[lo..hi]) == multiset(s) - (multiset(s[..lo]) + multiset(s[hi..]))
  {
    assert s == s[..lo] + s[lo..hi] + s[hi..];
    assert multiset(s) == multiset(s[lo..hi]) + (multiset(s[..lo]) + multiset(s[hi..]));
  }

  /** Appending the smaller left head keeps the merge loop's invariant. */
  lemma {:induction false} TakeLeft(left: seq<int>, right: seq<int>, i: int, j: int, r: seq<int>)
    requires 0 <= i < |left| && 0 <= j < |right| && left[i] < right[j]
    requires r + Merged(left[i..], right[j..]) == Merged(left, right)
    ensures (r + [left[i]]) + Merged(left[i + 1..], right[j..]) == Merged(left, right)
  {
    MergedHead(left[i..], right[j..]);
    assert left[i..][1..] == left[i + 1..];
    var m := Merged(left[i + 1..], right[j..]);
    assert (r + [left[i]]) + m == r + ([left[i]] + m);
  }

  /** Appending the right head, when it is not greater, keeps the merge loop's invariant. */
  lemma {:induction false} TakeRight(left: seq<int>, right: seq<int>, i: int, j: int, r: seq<int>)
    requires 0 <= i < |left| && 0 <= j < |right| && left[i] >= right[j]
    requires r + Merged(left[i..], right[j..]) == Merged(left, right)
    ensures (r + [right[j]]) + Merged(left[i..], right[j + 1..]) == Merged(left, right)
  {
    MergedHead(left[i..], right[j..]);
    assert right[j..][1..] == right[j + 1..];
    var m := Merged(left[i..], right[j + 1..]);
    assert (r + [right[j]]) + m == r + ([right[j]] + m);
  }

  /** Once one side is used up, the merge is what was built plus the rest of both sides. */
  lemma {:induction false} TakeRest(left: seq<int>, right: seq<int>, i: int, j: int, r: seq<int>)
    requires 0 <= i <= |left| && 0 <= j <= |right| && (i == |left| || j == |right|)
    requires r + Merged(left[i..], right[j..]) == Merged(left, right)
    ensures r + left[i..] + right[j..] == Merged(left, right)
  {
    MergedEmpty(left[i..]);
    MergedEmpty(right[j..]);
    if i == |left| {
      assert left[i..] == [];
      assert r + left[i..] + right[j..] == r + right[j..];
    } else {
      assert right[j..] == [];
      assert r + left[i..] + right[j..] == r + left[i..];
    }
  }

  lemma {:induction false} MergedHead(left: seq<int>, right: seq<int>)
    requires left != [] && right != []
    ensures left[0] < right[0] ==> Merged(left, right) == [left[0]] + Merged(left[1..], right)
    ensures left[0] >= right[0] ==> Merged(left, right) == [right[0]] + Merged(left, right[1..])
  {
  }

  lemma {:induction false} CountEqSteps(s: seq<int>, k: int)
    requires 0 <= k < |s|
    ensures forall v :: CountEq(s[..k + 1], v) == CountEq(s[..k], v) + (if s[k] == v then 1 else 0)
  {
    forall v ensures CountEq(s[..k + 1], v) == CountEq(s[..k], v) + (if s[k] == v then 1 else 0) {
      CountEqStep(s, k, v);
    }
  }

  /**
   * What the output loop leaves behind is sorted, a permutation of the input,
   * and holds every input element at its stable rank.
   */
  lemma {:induction false} OutputSorted(s: seq<int>, max: int)
    requires 0 <= max && InRange(s, max)
    ensures var r := OutputAfter(s, max, -1);
      Sorted(r) && multiset(r) == multiset(s) &&
      forall j | 0 <= j < |s| :: Rank(s, j) < |r| && r[Rank(s, j)] == s[j]
  {
    var r := OutputAfter(s, max, -1);
    CountsAfter(s, max, -1);
    BlocksAfter(s, max, -1);
    RanksAfter(s, max, -1);
    assert s[..0] == [];
    BlocksSorted(s, max, r);
  }

  /**
   * After elements i + 1 .. |s| - 1 are placed, each running total c[v] has
   * come down past the placed copies of v.
   */
  predicate CountsAt(s: seq<int>, max: int, i: int, c: seq<int>)
    requires -1 <= i < |s|
  {
    |c| == max + 1 &&
    forall v | 0 <= v <= max :: c[v] == CountLess(s, v) + CountEq(s[..i + 1], v)
  }

  /** The part of each value's block at and above its running total holds that value. */
  predicate BlocksAt(s: seq<int>, max: int, c: seq<int>, o: seq<int>)
  {
    |c| == max + 1 && |o| == |s| &&
    forall v, p | 0 <= v <= max && 0 <= c[v] <= p < CountLess(s, v + 1) :: o[p] == v
  }

  /** Every element placed so far sits at its stable rank. */
  predicate RanksAt(s: seq<int>, i: int, o: seq<int>)
  {
    |o| == |s| &&
    forall j | i < j < |s| && 0 <= j :: Rank(s, j) < |s| && o[Rank(s, j)] == s[j]
  }

  lemma {:induction false} CountsAfter(s: seq<int>, max: int, i: int)
    requires 0 <= max && InRange(s, max) && -1 <= i < |s|
    ensures CountsAt(s, max, i, TotalsAfter(s, max, i))
    decreases |s| - i
  {
    if i == |s| - 1 {
      CountsStart(s, max);
    } else {
      CountsAfter(s, max, i + 1);
      CountEqSteps(s, i + 1);
    }
  }

  /** Before anything is placed, each running total counts the elements up to its value. */
  lemma {:induction false} CountsStart(s: seq<int>, max: int)
    requires 0 <= max && InRange(s, max)
    ensures CountsAt(s, max, |s| - 1, TotalsAfter(s, max, |s| - 1))
  {
    assert s[..|s|] == s;
    forall v | 0 <= v <= max ensures TotalsAfter(s, max, |s| - 1)[v] == CountLess(s, v) + CountEq(s, v) {
      CountLessSucc(s, v);
    }
  }

  /**
   * Placing element i: its slot count[s[i]] - 1 is Rank(s, i), the top free
   * slot of its value's block, which lies in no other value's block.
   */
  lemma {:induction false} SlotIsRank(s: seq<int>, max: int, i: int)
    requires 0 <= max && InRange(s, max) && 0 <= i < |s|
    ensures TotalsAfter(s, max, i)[s[i]] - 1 == Rank(s, i) < |s|
  {
    CountsAfter(s, max, i);
    CountEqStep(s, i, s[i]);
    RankInBlock(s, i);
  }

  lemma {:induction false} BlocksAfter(s: seq<int>, max: int, i: int)
    requires 0 <= max && InRange(s, max) && -1 <= i < |s|
    ensures BlocksAt(s, max, TotalsAfter(s, max, i), OutputAfter(s, max, i))
    decreases |s| - i
  {
    if i < |s| - 1 {
      BlocksAfter(s, max, i + 1);
      BlocksNext(s, max, i);
    } else {
      BlocksStart(s, max);
    }
  }

  /** One round of the placing loop keeps every block filled above its running total. */
  lemma {:induction false} BlocksNext(s: seq<int>, max: int, i: int)
    requires 0 <= max && InRange(s, max) && -1 <= i < |s| - 1
    requires BlocksAt(s, max, TotalsAfter(s, max, i + 1), OutputAfter(s, max, i + 1))
    ensures BlocksAt(s, max, TotalsAfter(s, max, i), OutputAfter(s, max, i))
  {
    CountsAfter(s, max, i + 1);
    SlotIsRank(s, max, i + 1);
    OutsideOtherBlocks(s, max, i + 1);
    var c, o := TotalsAfter(s, max, i + 1), OutputAfter(s, max, i + 1);
    BlocksStep(s, max, i + 1, c, o);
    assert TotalsAfter(s, max, i) == c[s[i + 1] := c[s[i + 1]] - 1];
    assert OutputAfter(s, max, i) == o[Rank(s, i + 1) := s[i + 1]];
  }

  /** Before anything is placed, each running total is the end of its block: no block has a filled part. */
  lemma {:induction false} BlocksStart(s: seq<int>, max: int)
    requires 0 <= max && InRange(s, max)
    ensures BlocksAt(s, max, TotalsAfter(s, max, |s| - 1), OutputAfter(s, max, |s| - 1))
  {
    var c := TotalsAfter(s, max, |s| - 1);
    forall v | 0 <= v <= max ensures c[v] == CountLess(s, v + 1) {
    }
  }

  /** Placing element k at its rank, one below its value's running total, keeps every block filled. */
  lemma {:induction false} BlocksStep(s: seq<int>, max: int, k: int, c: seq<int>, o: seq<int>)
    requires 0 <= max && InRange(s, max) && 0 <= k < |s|
    requires CountsAt(s, max, k, c) && BlocksAt(s, max, c, o)
    requires c[s[k]] - 1 == Rank(s, k) < |s|
    requires forall v | 0 <= v <= max && v != s[k] ::
      !(CountLess(s, v) <= Rank(s, k) < CountLess(s, v + 1))
    ensures BlocksAt(s, max, c[s[k] := c[s[k]] - 1], o[Rank(s, k) := s[k]])
  {
    var c2, o2 := c[s[k] := c[s[k]] - 1], o[Rank(s, k) := s[k]];
    forall v, p | 0 <= v <= max && 0 <= c2[v] <= p < CountLess(s, v + 1) ensures o2[p] == v {
      if v == s[k] && p == c2[v] {
      } else {
        assert c[v] <= p;
      }
    }
  }

  lemma {:induction false} RanksAfter(s: seq<int>, max: int, i: int)
    requires 0 <= max && InRange(s, max) && -1 <= i < |s|
    ensures RanksAt(s, i, OutputAfter(s, max, i))
    decreases |s| - i
  {
    if i < |s| - 1 {
      RanksAfter(s, max, i + 1);
      SlotIsRank(s, max, i + 1);
      forall j | i + 1 < j < |s| ensures Rank(s, j) != Rank(s, i + 1) {
        RankInjective(s, i + 1, j);
      }
    }
  }

  /** The slot of element i lies in no other value's block. */
  lemma {:induction false} OutsideOtherBlocks(s: seq<int>, max: int, i: int)
    requires 0 <= i < |s|
    ensures forall v | 0 <= v <= max && v != s[i] ::
      !(CountLess(s, v) <= Rank(s, i) < CountLess(s, v + 1))
  {
    RankInBlock(s, i);
    forall v | 0 <= v <= max && v != s[i]
      ensures !(CountLess(s, v) <= Rank(s, i) < CountLess(s, v + 1))
    {
      if v < s[i] {
        CountLessMono(s, v + 1, s[i]);
      } else {
        CountLessMono(s, s[i] + 1, v);
      }
    }
  }

  /** The two sorted parts around a partition's pivot make a sorted range. */
  lemma {:induction false} QuickSortJoin(start: seq<int>, parted: seq<int>, leftDone: seq<int>, done: seq<int>,
                      low: int, p: int, high: int)
    requires 0 <= low <= p <= high < |start|
    requires |parted| == |leftDone| == |done| == |start|
    requires forall k | low <= k < p :: parted[k] <= parted[p]
    requires forall k | p < k <= high :: parted[p] < parted[k]
    requires PermutedWithin(start, parted, low, high + 1)
    requires PermutedWithin(parted, leftDone, low, p) && Sorted(leftDone[low..p])
    requires PermutedWithin(leftDone, done, p + 1, high + 1) && Sorted(done[p + 1..high + 1])
    ensures Sorted(done[low..high + 1])
    ensures PermutedWithin(start, done, low, high + 1)
  {
    var pivot := parted[p];
    assert done[low..p] == leftDone[low..p];
    assert done[p] == pivot;
    assert parted[p + 1..high + 1] == leftDone[p + 1..high + 1];
    assert AllAtMost(parted[low..p], pivot);
    AtMostPermutation(done[low..p], parted[low..p], pivot);
    assert AllGreater(parted[p + 1..high + 1], pivot);
    AbovePermutation(done[p + 1..high + 1], parted[p + 1..high + 1], pivot);
    assert done[low..high + 1] == done[low..p] + [pivot] + done[p + 1..high + 1];
    assert parted[low..high + 1] == parted[low..p] + [pivot] + parted[p + 1..high + 1];
    SortedAround(done[low..p], pivot, done[p + 1..high + 1]);
  }

  lemma {:induction false} AtMostPermutation(x: seq<int>, y: seq<int>, v: int)
    requires multiset(x) == multiset(y) && AllAtMost(y, v)
    ensures AllAtMost(x, v)
  {
    forall i | 0 <= i < |x| ensures x[i] <= v {
      assert x[i] in multiset(x);
      var k :| 0 <= k < |y| && y[k] == x[i];
    }
  }

  lemma {:induction false} AbovePermutation(x: seq<int>, y: seq<int>, v: int)
    requires multiset(x) == multiset(y) && AllGreater(y, v)
    ensures AllGreater(x, v)
  {
    forall i | 0 <= i < |x| ensures v < x[i] {
      assert x[i] in multiset(x);
      var k :| 0 <= k < |y| && y[k] == x[i];
    }
  }

  /** Sorted parts on either side of a value between them join into a sorted whole. */
  lemma {:induction false} SortedAround(a: seq<int>, x: int, b: seq<int>)
    requires Sorted(a) && Sorted(b)
    requires AllAtMost(a, x) && AllGreater(b, x)
    ensures Sorted(a + [x] + b)
  {
    assert forall y | y in a :: y <= x;
    SortedConcat(a, [x]);
    assert forall y | y in b :: x < y;
    SortedConcat(a + [x], b);
  }

  /**
   * The values of the demo input [4, 2, 2, 8, 3, 3, 6, 6, 5, 1]: whatever sort
   * produced it, a sorted arrangement of them is [1, 2, 2, 3, 3, 4, 5, 6, 6, 8].
   */
  lemma {:induction false} DemoSorted(r: seq<int>)
    requires Sorted(r) && multiset(r) == multiset{4, 2, 2, 8, 3, 3, 6, 6, 5, 1}
    ensures r == [1, 2, 2, 3, 3, 4, 5, 6, 6, 8]
  {
    DemoExpectedSorted();
    DemoExpectedValues();
    DemoSameValues();
    SortedPermutationUnique(r, [1, 2, 2, 3, 3, 4, 5, 6, 6, 8]);
  }

  lemma {:induction false} DemoExpectedSorted()
    ensures Sorted([1, 2, 2, 3, 3, 4, 5, 6, 6, 8])
  {
  }

  lemma {:induction false} DemoExpectedValues()
    ensures multiset([1, 2, 2, 3, 3, 4, 5, 6, 6, 8]) == multiset{1, 2, 2, 3, 3, 4, 5, 6, 6, 8}
  {
  }

  lemma {:induction false} DemoSameValues()
    ensures multiset{4, 2, 2, 8, 3, 3, 6, 6, 5, 1} == multiset{1, 2, 2, 3, 3, 4, 5, 6, 6, 8}
  {
  }
}
