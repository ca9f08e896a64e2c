/**
 * The two free vector helpers of the sampler: `removeFirst`, which erases
 * the first occurrence of an element in place, and `selectByIndex`, which
 * projects a vector onto a list of positions.
 */
module Vectors {

  /** Position of the first occurrence of `e` in `v`, or `|v|` when `e` does not occur. */
  function FirstIndex<T(==)>(v: seq<T>, e: T): (p: nat)
    ensures p <= |v|
    ensures p < |v| ==> v[p] == e
    ensures forall q :: 0 <= q < p ==> v[q] != e
    ensures p == |v| <==> e !in v
  {
    if |v| == 0 then 0
    else if v[0] == e then 0
    else 1 + FirstIndex(v[1..], e)
  }

  /** `v` with its first occurrence of `e` erased (unchanged when `e` is absent). */
  function Without<T(==)>(v: seq<T>, e: T): seq<T>
  {
    var p := FirstIndex(v, e);
    if p < |v| then v[..p] + v[p + 1..] else v
  }

  /** Taking the middle element out of `a + [e] + c` takes one copy of `e` out of its multiset. */
  lemma MultisetMiddle<T>(a: seq<T>, e: T, c: seq<T>)
    ensures multiset(a + c) == multiset(a + [e] + c) - multiset{e}
  {
    assert multiset(a + [e] + c) == multiset(a) + multiset{e} + multiset(c);
  }

  /** Erasing removes exactly one copy of `e` when there is one, and nothing else. */
  lemma WithoutCounts<T>(v: seq<T>, e: T)
    ensures multiset(Without(v, e)) == multiset(v) - multiset{e}
    ensures e in v ==> |Without(v, e)| == |v| - 1
    ensures e !in v ==> Without(v, e) == v
  {
    var p := FirstIndex(v, e);
    if p < |v| {
      assert multiset(Without(v, e)) == multiset(v) - multiset{e} by {
        assert v == v[..p] + [e] + v[p + 1..];
        MultisetMiddle(v[..p], e, v[p + 1..]);
      }
    } else {
      assert multiset(Without(v, e)) == multiset(v) - multiset{e} by {
        assert multiset(v)[e] == 0;
      }
    }
  }

  /** Every element of `Without(v, e)` other than `e` keeps its occurrence count. */
  lemma WithoutMembers<T>(v: seq<T>, e: T, x: T)
    requires x != e
    ensures x in Without(v, e) <==> x in v
  {
    WithoutCounts(v, e);
    assert multiset(Without(v, e))[x] == multiset(v)[x];
  }

  /**
   * `removeFirst`: finds the first occurrence of `element` (a linear search)
   * and erases it; leaves `v` as it is when `element` does not occur.
   */
  method RemoveFirst<T(==)>(v: seq<T>, element: T) returns (r: seq<T>)
    ensures element !in v ==> r == v
    ensures element in v ==> r == v[..FirstIndex(v, element)] + v[FirstIndex(v, element) + 1..]
    ensures r == Without(v, element)
  {
    var it := 0;
    while it < |v| && v[it] != element
      invariant 0 <= it <= |v|
      invariant forall q :: 0 <= q < it ==> v[q] != element
    {
      it := it + 1;
    }
    if it < |v| {
      r := v[..it] + v[it + 1..];
    } else {
      r := v;
    }
  }

  /** `selectByIndex`: the elements of `v` at the positions listed in `index`, in that order. */
  method SelectByIndex<T>(v: seq<T>, index: seq<nat>) returns (r: seq<T>)
    requires forall n :: 0 <= n < |index| ==> index[n] < |v|
    ensures |r| == |index|
    ensures forall n :: 0 <= n < |index| ==> r[n] == v[index[n]]
  {
    r := [];
    for n := 0 to |index|
      invariant |r| == n
      invariant forall q :: 0 <= q < n ==> r[q] == v[index[q]]
    {
      r := r + [v[index[n]]];
    }
  }
}
