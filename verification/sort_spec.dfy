/**
 * Specifications the sorts of sorting.go are proved against: a reference merge
 * that fixes which side wins a tie, and the counts behind counting sort (how
 * many values are smaller, how many are equal), from which the stable rank of
 * every input element follows.
 */
module SortSpec {
  import opened Seqs

  // ---------------------------------------------------------------------------
  // Merge

  /**
   * The merge of two sequences taken head by head: the left head goes first only
   * when it is strictly smaller, so on equal heads the right one is taken.
   */
  function Merged(left: seq<int>, right: seq<int>): seq<int>
    decreases |left| + |right|
  {
    if left == [] then right
    else if right == [] then left
    else if left[0] < right[0] then [left[0]] + Merged(left[1..], right)
    else [right[0]] + Merged(left, right[1..])
  }

  /** Merging keeps every element of both inputs, and nothing else. */
  lemma {:induction false} MergedPermutation(left: seq<int>, right: seq<int>)
    ensures |Merged(left, right)| == |left| + |right|
    ensures multiset(Merged(left, right)) == multiset(left) + multiset(right)
    decreases |left| + |right|
  {
    if left == [] || right == [] {
      MergedEmpty(left + right);
      assert left + right == left || left + right == right;
    } else if left[0] < right[0] {
      MergedPermutation(left[1..], right);
      ConsMultiset(left);
    } else {
      MergedPermutation(left, right[1..]);
      ConsMultiset(right);
    }
  }

  /** A non-empty sequence holds its head and its tail. */
  lemma {:induction false} ConsMultiset(s: seq<int>)
    requires s != []
    ensures multiset(s) == multiset{s[0]} + multiset(s[1..])
  {
    assert s == [s[0]] + s[1..];
  }

  /** Every element of the merge is at least `b` when every input element is. */
  lemma {:induction false} MergedAtLeast(left: seq<int>, right: seq<int>, b: int)
    requires forall k | 0 <= k < |left| :: b <= left[k]
    requires forall k | 0 <= k < |right| :: b <= right[k]
    ensures forall k | 0 <= k < |Merged(left, right)| :: b <= Merged(left, right)[k]
    decreases |left| + |right|
  {
    if left != [] && right != [] {
      if left[0] < right[0] {
        MergedAtLeast(left[1..], right, b);
      } else {
        MergedAtLeast(left, right[1..], b);
      }
    }
  }

  /** The merge of two sorted sequences is sorted. */
  lemma {:induction false} MergedSorted(left: seq<int>, right: seq<int>)
    requires Sorted(left) && Sorted(right)
    ensures Sorted(Merged(left, right))
    decreases |left| + |right|
  {
    if left != [] && right != [] {
      var m := Merged(left, right);
      if left[0] < right[0] {
        var tail := Merged(left[1..], right);
        SortedTail(left);
        MergedSorted(left[1..], right);
        MergedAtLeast(left[1..], right, left[0]);
        assert forall y | y in tail :: left[0] <= y;
        SortedConcat([left[0]], tail);
      } else {
        var tail := Merged(left, right[1..]);
        SortedTail(right);
        MergedSorted(left, right[1..]);
        MergedAtLeast(left, right[1..], right[0]);
        assert forall y | y in tail :: right[0] <= y;
        SortedConcat([right[0]], tail);
      }
    }
  }

  /** When the heads are equal, the merge starts with the right head. */
  lemma {:induction false} TieGoesRight(left: seq<int>, right: seq<int>)
    requires left != [] && right != [] && left[0] == right[0]
    ensures Merged(left, right) == [right[0]] + Merged(left, right[1..])
  {
  }

  /** Merging with nothing on one side returns the other side. */
  lemma {:induction false} MergedEmpty(s: seq<int>)
    ensures Merged(s, []) == s && Merged([], s) == s
  {
  }

  // ---------------------------------------------------------------------------
  // Counting sort

  /** How many elements of `s` are smaller than `v`. */
  function CountLess(s: seq<int>, v: int): (n: nat)
    ensures n <= |s|
  {
    if s == [] then 0
    else CountLess(s[..|s| - 1], v) + (if s[|s| - 1] < v then 1 else 0)
  }

  /** How many elements of `s` equal `v`. */
  function CountEq(s: seq<int>, v: int): (n: nat)
    ensures n <= |s|
  {
    if s == [] then 0
    else CountEq(s[..|s| - 1], v) + (if s[|s| - 1] == v then 1 else 0)
  }

  /** Every element of `s` lies in [0, m]: the input counting sort accepts, with its maximum. */
  predicate InRange(s: seq<int>, m: int)
  {
    forall k | 0 <= k < |s| :: 0 <= s[k] <= m
  }

  /**
   * The stable rank of element `j`: the number of smaller elements, plus the
   * number of equal elements before it.  A stable sort puts element `j` there.
   */
  function Rank(s: seq<int>, j: int): nat
    requires 0 <= j < |s|
  {
    CountLess(s, s[j]) + CountEq(s[..j], s[j])
  }

  lemma {:induction false} CountEqMultiset(s: seq<int>, v: int)
    ensures CountEq(s, v) == multiset(s)[v]
  {
    if s != [] {
      var init := s[..|s| - 1];
      CountEqMultiset(init, v);
      assert s == init + [s[|s| - 1]];
    }
  }

  /** The values below v + 1 are those below v and those equal to v. */
  lemma {:induction false} CountLessSucc(s: seq<int>, v: int)
    ensures CountLess(s, v + 1) == CountLess(s, v) + CountEq(s, v)
  {
    if s != [] {
      CountLessSucc(s[..|s| - 1], v);
    }
  }

  lemma {:induction false} CountLessMono(s: seq<int>, v: int, w: int)
    requires v <= w
    ensures CountLess(s, v) <= CountLess(s, w)
  {
    if s != [] {
      CountLessMono(s[..|s| - 1], v, w);
    }
  }

  lemma {:induction false} CountLessNone(s: seq<int>, m: int)
    requires InRange(s, m)
    ensures CountLess(s, 0) == 0
    ensures CountLess(s, m + 1) == |s|
  {
    if s != [] {
      var init := s[..|s| - 1];
      assert InRange(init, m) by {
        forall k | 0 <= k < |init| ensures 0 <= init[k] <= m {
          assert init[k] == s[k];
        }
      }
      CountLessNone(init, m);
    }
  }

  lemma {:induction false} CountEqOutside(s: seq<int>, m: int, v: int)
    requires InRange(s, m)
    requires v < 0 || m < v
    ensures CountEq(s, v) == 0
  {
    if s != [] {
      var init := s[..|s| - 1];
      assert InRange(init, m) by {
        forall k | 0 <= k < |init| ensures 0 <= init[k] <= m {
          assert init[k] == s[k];
        }
      }
      CountEqOutside(init, m, v);
    }
  }

  /** Extending a prefix by one element adds one to that element's count and nothing else. */
  lemma {:induction false} CountEqStep(s: seq<int>, i: int, v: int)
    requires 0 <= i < |s|
    ensures CountEq(s[..i + 1], v) == CountEq(s[..i], v) + (if s[i] == v then 1 else 0)
  {
    assert s[..i + 1][..i] == s[..i];
  }

  lemma {:induction false} CountEqPrefix(s: seq<int>, k: int, v: int)
    requires 0 <= k <= |s|
    ensures CountEq(s[..k], v) <= CountEq(s, v)
    decreases |s| - k
  {
    if k < |s| {
      CountEqStep(s, k, v);
      CountEqPrefix(s, k + 1, v);
    } else {
      assert s[..k] == s;
    }
  }

  /** Element `j` is ranked inside the block of positions that its value occupies in sorted order. */
  lemma {:induction false} RankInBlock(s: seq<int>, j: int)
    requires 0 <= j < |s|
    ensures CountLess(s, s[j]) <= Rank(s, j) < CountLess(s, s[j] + 1)
  {
    CountEqStep(s, j, s[j]);
    CountEqPrefix(s, j + 1, s[j]);
    CountLessSucc(s, s[j]);
  }

  /** Equal elements keep their input order: counting sort is stable. */
  lemma {:induction false} RankStable(s: seq<int>, i: int, j: int)
    requires 0 <= i < j < |s| && s[i] == s[j]
    ensures Rank(s, i) < Rank(s, j)
  {
    CountEqStep(s, i, s[i]);
    CountEqPrefix(s[..j], i + 1, s[i]);
    assert s[..j][..i + 1] == s[..i + 1];
  }

  /** Smaller elements are ranked before greater ones. */
  lemma {:induction false} RankOrdered(s: seq<int>, i: int, j: int)
    requires 0 <= i < |s| && 0 <= j < |s| && s[i] < s[j]
    ensures Rank(s, i) < Rank(s, j)
  {
    RankInBlock(s, i);
    RankInBlock(s, j);
    CountLessMono(s, s[i] + 1, s[j]);
  }

  /** Distinct elements get distinct ranks, so ranks are a permutation of the positions. */
  lemma {:induction false} RankInjective(s: seq<int>, i: int, j: int)
    requires 0 <= i < |s| && 0 <= j < |s| && i != j
    ensures Rank(s, i) != Rank(s, j)
  {
    if s[i] < s[j] {
      RankOrdered(s, i, j);
    } else if s[j] < s[i] {
      RankOrdered(s, j, i);
    } else if i < j {
      RankStable(s, i, j);
    } else {
      RankStable(s, j, i);
    }
  }

  /** Every position of the output lies in the block of some value in [0, m]. */
  lemma {:induction false} FindBlock(s: seq<int>, m: int, p: int, lo: int) returns (v: int)
    requires InRange(s, m) && 0 <= lo <= m + 1
    requires CountLess(s, lo) <= p < |s|
    ensures lo <= v <= m
    ensures CountLess(s, v) <= p < CountLess(s, v + 1)
    decreases m + 1 - lo
  {
    CountLessNone(s, m);
    if p < CountLess(s, lo + 1) {
      v := lo;
    } else {
      v := FindBlock(s, m, p, lo + 1);
    }
  }

  /** A value that fills exactly positions [lo, hi) of `r` occurs hi - lo times in it. */
  lemma {:induction false} CountEqBlock(r: seq<int>, w: int, lo: int, hi: int)
    requires 0 <= lo <= hi
    requires forall p | 0 <= p < |r| :: r[p] == w <==> lo <= p < hi
    ensures CountEq(r, w) == (if |r| <= lo then 0 else if |r| <= hi then |r| - lo else hi - lo)
  {
    if r != [] {
      var init := r[..|r| - 1];
      forall p | 0 <= p < |init| ensures init[p] == w <==> lo <= p < hi {
        assert init[p] == r[p];
      }
      CountEqBlock(init, w, lo, hi);
    }
  }

  /**
   * An output that holds v exactly at the positions [CountLess(s, v), CountLess(s, v + 1))
   * for every value v in [0, m] is the sorted permutation of `s`.
   */
  lemma {:induction false} BlocksSorted(s: seq<int>, m: int, r: seq<int>)
    requires InRange(s, m) && |r| == |s|
    requires forall v, p | 0 <= v <= m && CountLess(s, v) <= p < CountLess(s, v + 1) :: r[p] == v
    ensures Sorted(r)
    ensures multiset(r) == multiset(s)
  {
    CountLessNone(s, m);
    forall p, q | 0 <= p < q < |r| ensures r[p] <= r[q] {
      var vp := FindBlock(s, m, p, 0);
      var vq := FindBlock(s, m, q, 0);
      if vq < vp {
        CountLessMono(s, vq + 1, vp);
      }
    }
    forall w ensures multiset(r)[w] == multiset(s)[w] {
      CountEqMultiset(r, w);
      CountEqMultiset(s, w);
      BlockCount(s, m, r, w);
    }
  }

  lemma {:induction false} BlockCount(s: seq<int>, m: int, r: seq<int>, w: int)
    requires InRange(s, m) && |r| == |s|
    requires forall v, p | 0 <= v <= m && CountLess(s, v) <= p < CountLess(s, v + 1) :: r[p] == v
    ensures CountEq(r, w) == CountEq(s, w)
  {
    CountLessNone(s, m);
    var lo, hi := CountLess(s, w), CountLess(s, w + 1);
    if 0 <= w <= m {
      CountLessSucc(s, w);
      forall p | 0 <= p < |r| ensures r[p] == w <==> lo <= p < hi {
        var v := FindBlock(s, m, p, 0);
        if v < w {
          CountLessMono(s, v + 1, w);
        } else if w < v {
          CountLessMono(s, w + 1, v);
        }
      }
      CountEqBlock(r, w, lo, hi);
    } else {
      CountEqOutside(s, m, w);
      forall p | 0 <= p < |r| ensures r[p] == w <==> 0 <= p < 0 {
        var v := FindBlock(s, m, p, 0);
      }
      CountEqBlock(r, w, 0, 0);
    }
  }
}
