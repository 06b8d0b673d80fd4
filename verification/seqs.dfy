/** Sums, maps and sorting over integer sequences, with the permutation
    laws the solvers' "order does not matter" properties rest on. */
module Seqs {

  /** The sum of `f` over the elements of `s`. */
  function SumOf<A>(f: A -> int, s: seq<A>): int {
    if |s| == 0 then 0 else f(s[0]) + SumOf(f, s[1..])
  }

  lemma {:induction false} SumOfAppend<A>(f: A -> int, a: seq<A>, b: seq<A>)
    ensures SumOf(f, a + b) == SumOf(f, a) + SumOf(f, b)
    decreases |a|
  {
    if |a| == 0 {
      assert a + b == b;
    } else {
      assert (a + b)[1..] == a[1..] + b;
      SumOfAppend(f, a[1..], b);
    }
  }

  /** Removing the element at `k` from a sequence. */
  function RemoveAt<T>(s: seq<T>, k: nat): (r: seq<T>)
    requires k < |s|
    ensures |r| == |s| - 1
    ensures multiset(r) == multiset(s) - multiset{s[k]}
  {
    assert s == s[..k] + [s[k]] + s[k + 1..];
    s[..k] + s[k + 1..]
  }

  /** A sum does not depend on the order of its terms. */
  lemma {:induction false} SumOfPermutation<A>(f: A -> int, a: seq<A>, b: seq<A>)
    requires multiset(a) == multiset(b)
    ensures SumOf(f, a) == SumOf(f, b)
    decreases |a|
  {
    if |a| > 0 {
      assert a[0] in multiset(b);
      var k :| 0 <= k < |b| && b[k] == a[0];
      assert multiset(a[1..]) == multiset(a) - multiset{a[0]} by {
        assert a == [a[0]] + a[1..];
      }
      SumOfPermutation(f, a[1..], RemoveAt(b, k));
      SumOfRemoveAt(f, b, k);
    } else {
      assert |b| == |multiset(b)| == 0;
    }
  }

  /** Taking one element out of a sum. */
  lemma SumOfRemoveAt<A>(f: A -> int, b: seq<A>, k: nat)
    requires k < |b|
    ensures SumOf(f, b) == f(b[k]) + SumOf(f, RemoveAt(b, k))
  {
    var before, after := b[..k], b[k + 1..];
    var tail := [b[k]] + after;
    assert SumOf(f, b) == SumOf(f, before) + SumOf(f, tail) by {
      assert b == before + tail;
      SumOfAppend(f, before, tail);
    }
    assert SumOf(f, tail) == f(b[k]) + SumOf(f, after) by {
      assert tail[1..] == after;
    }
    assert SumOf(f, RemoveAt(b, k)) == SumOf(f, before) + SumOf(f, after) by {
      assert RemoveAt(b, k) == before + after;
      SumOfAppend(f, before, after);
    }
  }

  /** Sums of pointwise-equal functions are equal. */
  lemma {:induction false} SumOfCongruent<A>(f: A -> int, g: A -> int, s: seq<A>)
    requires forall i :: 0 <= i < |s| ==> f(s[i]) == g(s[i])
    ensures SumOf(f, s) == SumOf(g, s)
    decreases |s|
  {
    if |s| > 0 {
      SumOfCongruent(f, g, s[1..]);
    }
  }

  // ---------------------------------------------------------------------
  // Sorting (`sort_unstable` on integers)
  // ---------------------------------------------------------------------

  predicate Sorted(s: seq<int>) {
    forall i, j :: 0 <= i < j < |s| ==> s[i] <= s[j]
  }

  function Insert(x: int, s: seq<int>): (r: seq<int>)
    requires Sorted(s)
    ensures Sorted(r)
    ensures multiset(r) == multiset(s) + multiset{x}
    ensures |r| == |s| + 1
    ensures r[0] == x || (|s| > 0 && r[0] == s[0])
  {
    if |s| == 0 then [x]
    else if x <= s[0] then [x] + s
    else
      assert s == [s[0]] + s[1..];
      [s[0]] + Insert(x, s[1..])
  }

  /** The sorted permutation of `s`. On integers a stable and an unstable
      sort agree, because a sorted permutation is unique (`SortedUnique`). */
  function Sort(s: seq<int>): (r: seq<int>)
    ensures Sorted(r)
    ensures multiset(r) == multiset(s)
    ensures |r| == |s|
  {
    if |s| == 0 then []
    else
      assert s == [s[0]] + s[1..];
      var r := Insert(s[0], Sort(s[1..]));
      assert |r| == |multiset(r)|;
      r
  }

  /** Two sorted sequences with the same elements are equal. */
  lemma {:induction false} SortedUnique(a: seq<int>, b: seq<int>)
    requires Sorted(a) && Sorted(b)
    requires multiset(a) == multiset(b)
    ensures a == b
    decreases |a|
  {
    if |a| == 0 {
      assert |b| == |multiset(b)| == 0;
    } else {
      SortedHeads(a, b);
      assert multiset(a[1..]) == multiset(a) - multiset{a[0]} by {
        assert a == [a[0]] + a[1..];
      }
      assert multiset(b[1..]) == multiset(b) - multiset{b[0]} by {
        assert b == [b[0]] + b[1..];
      }
      SortedUnique(a[1..], b[1..]);
      assert a == [a[0]] + a[1..] && b == [b[0]] + b[1..];
    }
  }

  /** Two sorted sequences with the same elements start alike: both
      start with their least element. */
  lemma SortedHeads(a: seq<int>, b: seq<int>)
    requires Sorted(a) && Sorted(b) && |a| > 0
    requires multiset(a) == multiset(b)
    ensures |b| == |a| && a[0] == b[0]
  {
    assert |b| == |multiset(b)| == |a|;
    assert a[0] in multiset(b) && b[0] in multiset(a);
    var k :| 0 <= k < |b| && b[k] == a[0];
    var m :| 0 <= m < |a| && a[m] == b[0];
    assert b[0] <= b[k] && a[0] <= a[m];
  }

  /** Sorting forgets the order of its input. */
  lemma SortPermutation(a: seq<int>, b: seq<int>)
    requires multiset(a) == multiset(b)
    ensures Sort(a) == Sort(b)
  {
    SortedUnique(Sort(a), Sort(b));
  }
}
