/** Facts about integer sequences shared by the tree traversals and the sorts. */
module Seqs {

  lemma {:induction false} ConcatAssoc<T>(x: seq<T>, y: seq<T>, z: seq<T>)
    ensures x + y + z == x + (y + z)
  {
  }

  /** Non-decreasing order, the order every sort produces and an ordered tree's in-order walk has. */
  predicate Sorted(s: seq<int>)
  {
    forall i, j | 0 <= i < j < |s| :: s[i] <= s[j]
  }

  /** `s` with its first occurrence of `v` taken out; `s` itself when `v` does not occur. */
  function RemoveFirst(s: seq<int>, v: int): seq<int>
  {
    if s == [] then []
    else if s[0] == v then s[1..]
    else [s[0]] + RemoveFirst(s[1..], v)
  }

  /** Taking out the first copy of `v` takes exactly one `v` out of the multiset, or none when absent. */
  lemma {:induction false} RemoveFirstMultiset(s: seq<int>, v: int)
    ensures multiset(RemoveFirst(s, v)) == multiset(s) - multiset{v}
  {
    if s != [] {
      assert s == [s[0]] + s[1..];
      RemoveFirstMultiset(s[1..], v);
    }
  }

  lemma {:induction false} RemoveFirstAppend(a: seq<int>, b: seq<int>, v: int)
    ensures RemoveFirst(a + b, v) == if v in a then RemoveFirst(a, v) + b else a + RemoveFirst(b, v)
  {
    if a == [] {
      assert a + b == b;
    } else {
      assert (a + b)[0] == a[0];
      assert (a + b)[1..] == a[1..] + b;
      RemoveFirstAppend(a[1..], b, v);
      if a[0] != v {
        if v in a[1..] {
          ConcatAssoc([a[0]], RemoveFirst(a[1..], v), b);
        } else {
          ConcatAssoc([a[0]], a[1..], RemoveFirst(b, v));
          assert a == [a[0]] + a[1..];
        }
      }
    }
  }

  lemma {:induction false} RemoveFirstAbsent(s: seq<int>, v: int)
    requires v !in s
    ensures RemoveFirst(s, v) == s
  {
    if s != [] {
      RemoveFirstAbsent(s[1..], v);
    }
  }

  /**
   * `s` with `v` placed just before the first element greater than `v`: after every
   * element equal to `v`, which is where an equal-goes-right insertion puts it.
   */
  function InsertRight(s: seq<int>, v: int): seq<int>
  {
    if s == [] then [v]
    else if v < s[0] then [v] + s
    else [s[0]] + InsertRight(s[1..], v)
  }

  /** Every element of `s` is at most `v`. */
  predicate AllAtMost(s: seq<int>, v: int)
  {
    forall i | 0 <= i < |s| :: s[i] <= v
  }

  /** Every element of `s` exceeds `v`. */
  predicate AllGreater(s: seq<int>, v: int)
  {
    forall i | 0 <= i < |s| :: v < s[i]
  }

  lemma {:induction false} InsertRightAppend(a: seq<int>, b: seq<int>, v: int)
    ensures InsertRight(a + b, v) ==
      if AllAtMost(a, v) then a + InsertRight(b, v) else InsertRight(a, v) + b
  {
    if a == [] {
      assert a + b == b;
    } else {
      assert (a + b)[0] == a[0];
      assert (a + b)[1..] == a[1..] + b;
      InsertRightAppend(a[1..], b, v);
      AllAtMostCons(a, v);
      if AllAtMost(a, v) {
        ConcatAssoc([a[0]], a[1..], InsertRight(b, v));
        assert [a[0]] + a[1..] == a;
      } else if v < a[0] {
        ConcatAssoc([v], a, b);
      } else {
        ConcatAssoc([a[0]], InsertRight(a[1..], v), b);
      }
    }
  }

  lemma {:induction false} AllAtMostCons(a: seq<int>, v: int)
    requires a != []
    ensures AllAtMost(a, v) <==> a[0] <= v && AllAtMost(a[1..], v)
  {
    if a[0] <= v && AllAtMost(a[1..], v) {
      forall i | 0 < i < |a| ensures a[i] <= v {
        assert a[i] == a[1..][i - 1];
      }
    }
  }

  lemma {:induction false} InsertRightAtEnd(s: seq<int>, v: int)
    requires AllAtMost(s, v)
    ensures InsertRight(s, v) == s + [v]
  {
    if s != [] {
      InsertRightAtEnd(s[1..], v);
      assert s == [s[0]] + s[1..];
    }
  }

  /** The elements of `s` that are even, in order. */
  function Evens(s: seq<int>): (r: seq<int>)
    ensures |r| <= |s|
  {
    if s == [] then []
    else (if s[0] % 2 == 0 then [s[0]] else []) + Evens(s[1..])
  }

  lemma {:induction false} EvensAppend(a: seq<int>, b: seq<int>)
    ensures Evens(a + b) == Evens(a) + Evens(b)
  {
    if a == [] {
      assert a + b == b;
    } else {
      assert (a + b)[0] == a[0];
      assert (a + b)[1..] == a[1..] + b;
      EvensAppend(a[1..], b);
      var head := if a[0] % 2 == 0 then [a[0]] else [];
      ConcatAssoc(head, Evens(a[1..]), Evens(b));
    }
  }

  /** Two sorted sequences joined stay sorted when nothing on the left exceeds anything on the right. */
  lemma {:induction false} SortedConcat(a: seq<int>, b: seq<int>)
    requires Sorted(a) && Sorted(b)
    requires forall x, y | x in a && y in b :: x <= y
    ensures Sorted(a + b)
  {
    var s := a + b;
    forall i, j | 0 <= i < j < |s| ensures s[i] <= s[j] {
      if j < |a| {
      } else if i >= |a| {
        assert s[i] == b[i - |a|] && s[j] == b[j - |a|];
      } else {
        assert s[i] in a && s[j] in b;
      }
    }
  }

  lemma {:induction false} SortedTail(s: seq<int>)
    requires Sorted(s) && |s| > 0
    ensures Sorted(s[1..])
  {
    forall i, j | 0 <= i < j < |s| - 1 ensures s[1..][i] <= s[1..][j] {
      assert s[1..][i] == s[i + 1] && s[1..][j] == s[j + 1];
    }
  }

  /**
   * A multiset of integers has exactly one sorted arrangement: any two sorted
   * permutations of the same values are equal.  Hence every sort below, whatever
   * its algorithm, produces the same output on the same input.
   */
  lemma {:induction false} SortedPermutationUnique(a: seq<int>, b: seq<int>)
    requires Sorted(a) && Sorted(b)
    requires multiset(a) == multiset(b)
    ensures a == b
  {
    if |a| == 0 {
      assert |b| == |multiset(b)| == 0;
    } else {
      SortedHeads(a, b);
      TailsPermuted(a, b);
      SortedTail(a);
      SortedTail(b);
      SortedPermutationUnique(a[1..], b[1..]);
      assert a == [a[0]] + a[1..];
      assert b == [b[0]] + b[1..];
    }
  }

  /** Two sorted permutations of the same non-empty values start with the same element. */
  lemma {:induction false} SortedHeads(a: seq<int>, b: seq<int>)
    requires Sorted(a) && Sorted(b) && |a| > 0
    requires multiset(a) == multiset(b)
    ensures |b| > 0 && a[0] == b[0]
  {
    assert |b| == |multiset(b)| == |a|;
    assert a[0] in multiset(b);
    var k :| 0 <= k < |b| && b[k] == a[0];
    assert b[0] in multiset(a);
    var m :| 0 <= m < |a| && a[m] == b[0];
  }

  /** Taking the same head off two permutations leaves permutations. */
  lemma {:induction false} TailsPermuted(a: seq<int>, b: seq<int>)
    requires |a| > 0 && |b| > 0 && a[0] == b[0]
    requires multiset(a) == multiset(b)
    ensures multiset(a[1..]) == multiset(b[1..])
  {
    assert a == [a[0]] + a[1..];
    assert b == [b[0]] + b[1..];
    assert multiset(a) == multiset([a[0]]) + multiset(a[1..]);
    assert multiset(b) == multiset([b[0]]) + multiset(b[1..]);
    assert multiset(a[1..]) == multiset(a) - multiset([a[0]]);
    assert multiset(b[1..]) == multiset(b) - multiset([b[0]]);
  }
}
