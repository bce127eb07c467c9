/**
  `insertion_sort`: sorts a list of integers in place and returns the same
  list. For each `i` from 1 to `length - 1` it holds `data[i]` as the key,
  shifts every element of the sorted prefix that is strictly greater than
  the key one slot to the right, and writes the key into the gap.

  The Python list is an `array<int>`: its length is fixed, its elements are
  updated in place, and the returned reference is the argument itself. The
  method is proved against `Passes`, which gives the list after each pass of
  the outer loop; the lemmas show that once the passes for indices 1 to
  `i - 1` are done, the prefix of length `i` is sorted and the elements are
  unchanged as a multiset. The body of the outer loop is the method
  `InsertKey`, so that each loop is verified on its own.
*/
module QuadraticSort {
  import opened ReferenceSort

  method InsertionSort(data: array<int>) returns (r: array<int>)
    modifies data
    ensures r == data
    ensures IsSorted(data[..])
    ensures multiset(data[..]) == multiset(old(data[..]))
    ensures data[..] == TimsortBuiltin(old(data[..]))
    ensures IsSorted(old(data[..])) ==> data[..] == old(data[..])
    ensures data.Length <= 1 ==> data[..] == old(data[..])
  {
    ghost var input := data[..];
    var length := data.Length;
    var i := 1;
    while i < length
      invariant 1 <= i && (length == 0 || i <= length)
      invariant length == 0 || data[..] == Passes(input, i)
    {
      InsertKey(data, i);
      i := i + 1;
    }
    assert data[..] == InsertionSorted(input);
    InsertionSortedIsTimsort(input);
    TimsortBuiltinFixesSorted(input);
    if length <= 1 {
      TimsortBuiltinShort(input);
    }
    r := data;
  }

  /**
    The body of the outer loop for index `i`: `data[i]` is held as the key,
    each element to its left that is strictly greater than the key is
    copied one slot right, and the key is written into the gap.
  */
  method InsertKey(data: array<int>, i: int)
    requires 0 < i < data.Length
    modifies data
    ensures data[..] == Pass(old(data[..]), i)
  {
    ghost var before := data[..];
    var key := data[i];
    var j := i - 1;
    while j >= 0 && data[j] > key
      invariant -1 <= j <= i - 1
      invariant data[..] == Scanned(before, i, j)
      invariant ScanStop(before, i, j) == ScanStop(before, i, i - 1)
    {
      ShiftStep(before, i, j);
      data[j + 1] := data[j];
      j := j - 1;
    }
    FillGap(before, i, j);
    data[j + 1] := key;
  }

  /**
    Where the backward scan for the key `s[i]`, at `j`, comes to rest: it
    moves left past every element strictly greater than the key and stops
    at the start or at the first element not greater than the key.
  */
  ghost function ScanStop(s: seq<int>, i: int, j: int): (stop: int)
    requires -1 <= j < i < |s|
    ensures -1 <= stop <= j
    decreases j + 1
  {
    if j >= 0 && s[j] > s[i] then ScanStop(s, i, j - 1) else j
  }

  /**
    The list while the key `s[i]` is scanned back with the gap at `j + 1`:
    the elements from `j + 1` to `i - 1` have each been copied one slot
    right, and the gap still holds its old element.
  */
  ghost function Scanned(s: seq<int>, i: int, j: int): seq<int>
    requires -1 <= j < i < |s|
  {
    seq(|s|, k requires 0 <= k < |s| =>
      if k <= j + 1 then s[k]
      else if k <= i then s[k - 1]
      else s[k])
  }

  /** The list once the key `s[i]` is written into the gap at `j + 1`. */
  ghost function Inserted(s: seq<int>, i: int, j: int): seq<int>
    requires -1 <= j < i < |s|
  {
    seq(|s|, k requires 0 <= k < |s| =>
      if k <= j then s[k]
      else if k == j + 1 then s[i]
      else if k <= i then s[k - 1]
      else s[k])
  }

  /** One pass of the outer loop on index `i`. */
  ghost function Pass(s: seq<int>, i: int): seq<int>
    requires 0 < i < |s|
  {
    Inserted(s, i, ScanStop(s, i, i - 1))
  }

  /** The list after the passes for indices 1 to `i - 1`. */
  ghost function Passes(s: seq<int>, i: int): (p: seq<int>)
    requires 0 <= i <= |s|
    ensures |p| == |s|
  {
    if i <= 1 then s else Pass(Passes(s, i - 1), i - 1)
  }

  /** One shift: copying `s[j]` into the gap at `j + 1` moves the gap to `j`. */
  lemma ShiftStep(s: seq<int>, i: int, j: int)
    requires 0 <= j < i < |s|
    ensures |Scanned(s, i, j)| == |s| && Scanned(s, i, j)[j] == s[j]
    ensures Scanned(s, i, j)[j + 1 := s[j]] == Scanned(s, i, j - 1)
  {
  }

  /** Writing the key into the gap at `j + 1` gives the inserted list. */
  lemma FillGap(s: seq<int>, i: int, j: int)
    requires -1 <= j < i < |s|
    ensures |Scanned(s, i, j)| == |s| && (j >= 0 ==> Scanned(s, i, j)[j] == s[j])
    ensures Scanned(s, i, j)[j + 1 := s[i]] == Inserted(s, i, j)
  {
  }

  /**
    The scan shifts only elements strictly greater than the key, and stops
    at the start or at an element not greater than the key (an element equal
    to the key stops it).
  */
  lemma {:induction false} ScanStopShiftsGreater(s: seq<int>, i: int, j: int)
    requires -1 <= j < i < |s|
    requires forall k :: j < k < i ==> s[i] < s[k]
    ensures forall k :: ScanStop(s, i, j) < k < i ==> s[i] < s[k]
    ensures ScanStop(s, i, j) < 0 || s[ScanStop(s, i, j)] <= s[i]
    decreases j + 1
  {
    if j >= 0 && s[j] > s[i] {
      ScanStopShiftsGreater(s, i, j - 1);
    }
  }

  /** Inserting the key moves it from `i` to `j + 1`: no element is lost or added. */
  lemma InsertedKeepsElements(s: seq<int>, i: int, j: int)
    requires -1 <= j < i < |s|
    ensures multiset(Inserted(s, i, j)) == multiset(s)
  {
    var a, b, c := s[..j + 1], s[j + 1..i], s[i + 1..];
    var t := Inserted(s, i, j);
    var u := a + [s[i]] + b + c;
    assert |u| == |t|;
    forall k | 0 <= k < |t|
      ensures t[k] == u[k]
    {
      if k <= j {
        assert u[k] == a[k];
      } else if k == j + 1 {
      } else if k <= i {
        assert u[k] == b[k - j - 2];
      } else {
        assert u[k] == c[k - i - 1];
      }
    }
    assert t == u;
    assert s == a + b + [s[i]] + c;
  }

  /**
    Where the scan stops (at the start, or at an element not above the key),
    writing the key into the gap turns the sorted prefix `s[..i]` into the
    sorted prefix of length `i + 1`, and no element is lost or added.
  */
  lemma PlaceKey(s: seq<int>, i: int, j: int)
    requires -1 <= j < i < |s|
    requires IsSorted(s[..i])
    requires forall k :: j < k < i ==> s[i] < s[k]
    requires j < 0 || s[j] <= s[i]
    ensures IsSorted(Inserted(s, i, j)[..i + 1])
    ensures multiset(Inserted(s, i, j)) == multiset(s)
  {
    InsertedKeepsElements(s, i, j);
    var t := Inserted(s, i, j);
    forall k, l | 0 <= k < l <= i
      ensures t[k] <= t[l]
    {
      if l <= j {
        assert s[..i][k] <= s[..i][l];
      } else if l == j + 1 {
        assert s[..i][k] <= s[..i][j];
      } else if k == j + 1 {
        assert s[i] < s[l - 1];
      } else if k <= j {
        assert s[..i][k] <= s[..i][l - 1];
      } else {
        assert s[..i][k - 1] <= s[..i][l - 1];
      }
    }
  }

  /**
    The outer loop's invariant: after the passes for indices 1 to `i - 1`,
    the prefix of length `i` is sorted and the list holds the same elements.
  */
  lemma {:induction false} PassesSortPrefix(s: seq<int>, i: int)
    requires 1 <= i <= |s|
    ensures IsSorted(Passes(s, i)[..i])
    ensures multiset(Passes(s, i)) == multiset(s)
  {
    if i > 1 {
      PassesSortPrefix(s, i - 1);
      var p := Passes(s, i - 1);
      var stop := ScanStop(p, i - 1, i - 2);
      assert Passes(s, i) == Inserted(p, i - 1, stop);
      ScanStopShiftsGreater(p, i - 1, i - 2);
      PlaceKey(p, i - 1, stop);
    }
  }

  /** The list `insertion_sort` leaves behind: all passes of the outer loop. */
  ghost function InsertionSorted(s: seq<int>): seq<int>
  {
    if |s| == 0 then s else Passes(s, |s|)
  }

  /**
    Insertion sort agrees with the reference sort on every input: its result
    is sorted and holds the same elements, so it is the one sequence that
    `TimsortBuiltin` returns.
  */
  lemma InsertionSortedIsTimsort(s: seq<int>)
    ensures InsertionSorted(s) == TimsortBuiltin(s)
  {
    if |s| > 0 {
      PassesSortPrefix(s, |s|);
      assert Passes(s, |s|)[..|s|] == Passes(s, |s|);
    }
    TimsortBuiltinCharacterised(s, InsertionSorted(s));
  }
}
