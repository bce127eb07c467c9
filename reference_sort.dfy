/**
  The reference sort of the benchmark: `timsort_builtin`, which hands its
  list to the host's `sorted` and gets back a new list in ascending order.
  Timsort's own machinery is not modelled. What the benchmark relies on is
  only the result, and for lists of integers that result is fully determined:
  it is the one ascending sequence with the same elements. `TimsortBuiltin`
  below computes that sequence by repeatedly taking the minimum, and the
  lemmas show that it is the only sorted permutation of its input.
*/
module ReferenceSort {

  /** Non-decreasing order, the "ascending order" both sorts promise. */
  predicate IsSorted(s: seq<int>) {
    forall i, j :: 0 <= i < j < |s| ==> s[i] <= s[j]
  }

  /** The least element of a non-empty sequence. */
  function Minimum(s: seq<int>): (m: int)
    requires |s| > 0
    ensures m in s
    ensures forall k :: 0 <= k < |s| ==> m <= s[k]
  {
    if |s| == 1 then s[0]
    else
      var rest := Minimum(s[1..]);
      if s[0] <= rest then s[0] else rest
  }

  /** `s` with its first occurrence of `x` taken out (unchanged if there is none). */
  function RemoveOne(s: seq<int>, x: int): (r: seq<int>)
    ensures multiset(r) == multiset(s) - multiset{x}
    ensures |r| == if x in s then |s| - 1 else |s|
  {
    if |s| == 0 then []
    else if s[0] == x then
      assert s == [s[0]] + s[1..];
      s[1..]
    else
      assert s == [s[0]] + s[1..];
      [s[0]] + RemoveOne(s[1..], x)
  }

  /**
    `sorted(data)`: a new sequence holding the elements of `data` in
    non-decreasing order; `data` itself is a value and cannot change.
  */
  function TimsortBuiltin(data: seq<int>): (r: seq<int>)
    ensures IsSorted(r)
    ensures multiset(r) == multiset(data)
    decreases |data|
  {
    if |data| == 0 then []
    else
      var m := Minimum(data);
      var rest := TimsortBuiltin(RemoveOne(data, m));
      ConsSorted(m, rest, data);
      [m] + rest
  }

  /** Putting a lower bound of `data` in front of a sorted rest of it keeps it sorted. */
  lemma ConsSorted(m: int, rest: seq<int>, data: seq<int>)
    requires IsSorted(rest)
    requires m in data && forall k :: 0 <= k < |data| ==> m <= data[k]
    requires multiset(rest) == multiset(data) - multiset{m}
    ensures IsSorted([m] + rest)
    ensures multiset([m] + rest) == multiset(data)
  {
    forall k | 0 <= k < |rest|
      ensures m <= rest[k]
    {
      assert rest[k] in multiset(rest);
      assert rest[k] in data;
    }
  }

  /** The first element of a sorted sequence is below all of its elements. */
  lemma SortedHeadIsLeast(a: seq<int>, x: int)
    requires IsSorted(a) && x in multiset(a)
    ensures |a| > 0 && a[0] <= x
  {
    var k :| 0 <= k < |a| && a[k] == x;
  }

  /** Two sorted sequences with the same elements are the same sequence. */
  lemma {:induction false} SortedPermutationUnique(a: seq<int>, b: seq<int>)
    requires IsSorted(a) && IsSorted(b)
    requires multiset(a) == multiset(b)
    ensures a == b
    decreases |a|
  {
    assert |a| == |multiset(a)| == |multiset(b)| == |b|;
    if |a| > 0 {
      SortedHeadIsLeast(b, a[0]);
      SortedHeadIsLeast(a, b[0]);
      var a', b' := a[1..], b[1..];
      assert a == [a[0]] + a';
      assert b == [b[0]] + b';
      assert a[0] == b[0];
      assert multiset(a') == multiset(a) - multiset{a[0]} == multiset(b');
      assert IsSorted(a') && IsSorted(b');
      SortedPermutationUnique(a', b');
    }
  }

  /**
    The reference sort is characterised by its contract: a sequence is
    `TimsortBuiltin(s)` exactly when it is sorted and has the elements of `s`.
  */
  lemma TimsortBuiltinCharacterised(s: seq<int>, t: seq<int>)
    ensures (IsSorted(t) && multiset(t) == multiset(s)) <==> t == TimsortBuiltin(s)
  {
    if IsSorted(t) && multiset(t) == multiset(s) {
      SortedPermutationUnique(t, TimsortBuiltin(s));
    }
  }

  /** Sorting leaves a sequence unchanged exactly when it is already sorted. */
  lemma TimsortBuiltinFixesSorted(s: seq<int>)
    ensures IsSorted(s) <==> TimsortBuiltin(s) == s
  {
    TimsortBuiltinCharacterised(s, s);
  }

  /** Sequences of length 0 or 1 are returned as they are. */
  lemma TimsortBuiltinShort(s: seq<int>)
    requires |s| <= 1
    ensures TimsortBuiltin(s) == s
  {
    TimsortBuiltinFixesSorted(s);
  }

  /** Sorting twice gives what sorting once gives. */
  lemma TimsortBuiltinIdempotent(s: seq<int>)
    ensures TimsortBuiltin(TimsortBuiltin(s)) == TimsortBuiltin(s)
  {
    TimsortBuiltinFixesSorted(TimsortBuiltin(s));
  }
}
