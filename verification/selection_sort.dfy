/**
 Selection sort (sort.py, `selection_sort`). For each `position` from 0 to
 len(a) - 2 the code scans the suffix for the index `min` of a smallest
 element, moving `min` only on a strictly smaller element, and swaps
 `a[position]` with `a[min]` when the two indices differ.

 The functions below describe the algorithm on sequences, one per loop of
 the source: `MinIndex` is the inner scan, `Step` one iteration of the outer
 loop, `SortFrom` the outer loop from a given position. `SelectionSortInPlace`
 is the in-place algorithm on an array, proved to leave exactly
 `SelectionSort(old(a[..]), less)` in the array.
 */
module Sort {
  import opened Comparator

  /**
   The value of `min` once the inner loop has examined every index below
   `tail`: it starts at `position` and moves to `tail - 1` exactly when
   `less(s[tail - 1], s[min])`.
   */
  function MinIndex<T>(s: seq<T>, less: (T, T) -> bool, position: nat, tail: nat): (m: nat)
    requires position < tail <= |s|
    ensures position <= m < tail
    decreases tail
  {
    if tail == position + 1 then position
    else
      var m := MinIndex(s, less, position, tail - 1);
      if less(s[tail - 1], s[m]) then tail - 1 else m
  }

  /** The two-slot exchange `a[i], a[j] = a[j], a[i]`. */
  function Swap<T>(s: seq<T>, i: nat, j: nat): (r: seq<T>)
    requires i < |s| && j < |s|
    ensures |r| == |s|
    ensures r[i] == s[j] && r[j] == s[i]
    ensures forall k :: 0 <= k < |s| && k != i && k != j ==> r[k] == s[k]
    ensures multiset(r) == multiset(s)
  {
    s[i := s[j]][j := s[i]]
  }

  /**
   One iteration of the outer loop: find the minimum of `s[position..]`
   and exchange it into `position` when it is somewhere else.
   */
  function Step<T>(s: seq<T>, less: (T, T) -> bool, position: nat): (r: seq<T>)
    requires position < |s|
    ensures |r| == |s| && multiset(r) == multiset(s)
    ensures r[position] == s[MinIndex(s, less, position, |s|)]
    ensures forall k :: 0 <= k < |s| && k != position && k != MinIndex(s, less, position, |s|) ==> r[k] == s[k]
    ensures MinIndex(s, less, position, |s|) == position ==> r == s
  {
    var min := MinIndex(s, less, position, |s|);
    if position != min then Swap(s, position, min) else s
  }

  /**
   The outer loop started at `position`: the sequence after the iterations
   `position`, ..., |s| - 2. Slots below `position` are never touched again.
   */
  function SortFrom<T>(s: seq<T>, less: (T, T) -> bool, position: nat): (r: seq<T>)
    ensures |r| == |s| && multiset(r) == multiset(s)
    ensures forall k :: 0 <= k < position && k < |s| ==> r[k] == s[k]
    decreases |s| - position
  {
    if position + 1 >= |s| then s
    else SortFrom(Step(s, less, position), less, position + 1)
  }

  /** What `selection_sort` leaves in the list. */
  function SelectionSort<T>(s: seq<T>, less: (T, T) -> bool): (r: seq<T>)
    ensures |r| == |s| && multiset(r) == multiset(s)
    ensures |s| <= 1 ==> r == s
  {
    SortFrom(s, less, 0)
  }

  /** How many times the exchange runs in the iterations from `position` on. */
  function Swaps<T>(s: seq<T>, less: (T, T) -> bool, position: nat): (n: nat)
    ensures n <= if position + 1 < |s| then |s| - 1 - position else 0
    decreases |s| - position
  {
    if position + 1 >= |s| then 0
    else
      (if MinIndex(s, less, position, |s|) != position then 1 else 0)
      + Swaps(Step(s, less, position), less, position + 1)
  }

  /**
   The inner loop of `selection_sort`: the index of the first smallest
   element of `a[position..]`, found by one left-to-right scan.
   */
  method ScanMin<T>(a: array<T>, less: (T, T) -> bool, position: nat) returns (min: nat)
    requires position < a.Length
    ensures min == MinIndex(a[..], less, position, a.Length)
  {
    min := position;
    for tail := position + 1 to a.Length
      invariant min == MinIndex(a[..], less, position, tail)
    {
      if less(a[tail], a[min]) {
        min := tail;
      }
    }
  }

  /** The statement `a[position], a[min] = a[min], a[position]`. */
  method Exchange<T>(a: array<T>, i: nat, j: nat)
    requires i < a.Length && j < a.Length
    modifies a
    ensures a[..] == Swap(old(a[..]), i, j)
  {
    a[i], a[j] := a[j], a[i];
  }

  /**
   One iteration of the outer loop of `selection_sort`: scan for the minimum
   of `a[position..]`, then exchange it into `position` if it is elsewhere.
   */
  method SettlePosition<T>(a: array<T>, less: (T, T) -> bool, position: nat)
    requires position < a.Length
    modifies a
    ensures a[..] == Step(old(a[..]), less, position)
  {
    var min := ScanMin(a, less, position);
    if position != min {
      Exchange(a, position, min);
    }
  }

  /** The in-place algorithm, `selection_sort(a, compare)`. */
  method SelectionSortInPlace<T(!new)>(a: array<T>, less: (T, T) -> bool)
    modifies a
    ensures a[..] == SelectionSort(old(a[..]), less)
    ensures multiset(a[..]) == multiset(old(a[..]))
    ensures StrictOrder(less) ==> Sorted(a[..], less)
    ensures Sorted(old(a[..]), less) ==> a[..] == old(a[..])
  {
    ghost var input := a[..];
    var position := 0;
    while position + 1 < a.Length
      invariant position <= a.Length
      invariant SortFrom(a[..], less, position) == SelectionSort(input, less)
    {
      ghost var before := a[..];
      SettlePosition(a, less, position);
      assert SortFrom(before, less, position) == SortFrom(a[..], less, position + 1);
      position := position + 1;
    }
    SelectionSortSorts(input, less);
    SortedInputUnchanged(input, less);
  }

  /** The index found by the scan holds a minimum of `s[position..tail]`. */
  lemma {:induction false} MinIndexIsMinimum<T(!new)>(s: seq<T>, less: (T, T) -> bool, position: nat, tail: nat)
    requires StrictOrder(less)
    requires position < tail <= |s|
    ensures forall k :: position <= k < tail ==> !less(s[k], s[MinIndex(s, less, position, tail)])
    decreases tail
  {
    if tail > position + 1 {
      MinIndexIsMinimum(s, less, position, tail - 1);
    }
  }

  /**
   The index found by the scan is the leftmost minimum: every element before
   it in the scanned range is strictly greater, because the scan moves only
   on a strictly smaller element.
   */
  lemma {:induction false} MinIndexIsLeftmost<T(!new)>(s: seq<T>, less: (T, T) -> bool, position: nat, tail: nat)
    requires StrictWeakOrder(less)
    requires position < tail <= |s|
    ensures forall k :: position <= k < MinIndex(s, less, position, tail) ==> less(s[MinIndex(s, less, position, tail)], s[k])
    decreases tail
  {
    if tail > position + 1 {
      var m := MinIndex(s, less, position, tail - 1);
      MinIndexIsLeftmost(s, less, position, tail - 1);
      if less(s[tail - 1], s[m]) {
        MinIndexIsMinimum(s, less, position, tail - 1);
        forall k | position <= k < tail - 1
          ensures less(s[tail - 1], s[k])
        {
          LessThroughNotLess(less, s[tail - 1], s[m], s[k]);
        }
      }
    }
  }

  /**
   The outer loop's invariant at `position`: the prefix `s[..position]` is
   sorted and none of its elements is greater than any element after it.
   */
  ghost predicate SettledBelow<T>(s: seq<T>, less: (T, T) -> bool, position: nat) {
    forall i, j :: 0 <= i < position && i < j < |s| ==> !less(s[j], s[i])
  }

  /** One iteration of the outer loop extends the settled prefix by one slot. */
  lemma StepSettles<T(!new)>(s: seq<T>, less: (T, T) -> bool, position: nat)
    requires StrictOrder(less)
    requires position < |s| && SettledBelow(s, less, position)
    ensures SettledBelow(Step(s, less, position), less, position + 1)
  {
    var min := MinIndex(s, less, position, |s|);
    var r := Step(s, less, position);
    MinIndexIsMinimum(s, less, position, |s|);
    forall i, j | 0 <= i < position + 1 && i < j < |s|
      ensures !less(r[j], r[i])
    {
      if j == min {
        assert r[j] == s[position];
      } else if j != position {
        assert r[j] == s[j];
      }
    }
  }

  /** The outer loop, entered with its invariant, ends with a sorted sequence. */
  lemma {:induction false} SortFromSorts<T(!new)>(s: seq<T>, less: (T, T) -> bool, position: nat)
    requires StrictOrder(less)
    requires SettledBelow(s, less, position)
    ensures Sorted(SortFrom(s, less, position), less)
    decreases |s| - position
  {
    if position + 1 < |s| {
      var next := Step(s, less, position);
      StepSettles(s, less, position);
      SortFromSorts(next, less, position + 1);
      assert SortFrom(s, less, position) == SortFrom(next, less, position + 1);
    } else {
      SettledIsSorted(s, less, position);
    }
  }

  /** Once the settled prefix covers all but the last slot, the whole sequence is sorted. */
  lemma SettledIsSorted<T>(s: seq<T>, less: (T, T) -> bool, position: nat)
    requires position + 1 >= |s| && SettledBelow(s, less, position)
    ensures Sorted(s, less)
  {
  }

  /** For any comparator that is irreflexive and transitive, the result is sorted. */
  lemma SelectionSortSorts<T(!new)>(s: seq<T>, less: (T, T) -> bool)
    ensures StrictOrder(less) ==> Sorted(SelectionSort(s, less), less)
  {
    if StrictOrder(less) {
      SortFromSorts(s, less, 0);
    }
  }

  /** On sorted input the scan never moves away from `position`. */
  lemma {:induction false} MinIndexOfSorted<T>(s: seq<T>, less: (T, T) -> bool, position: nat, tail: nat)
    requires Sorted(s, less)
    requires position < tail <= |s|
    ensures MinIndex(s, less, position, tail) == position
    decreases tail
  {
    if tail > position + 1 {
      MinIndexOfSorted(s, less, position, tail - 1);
    }
  }

  /**
   Sorted input is left identical, equal elements included, and no exchange
   happens. This holds for every comparator.
   */
  lemma {:induction false} SortFromOfSorted<T>(s: seq<T>, less: (T, T) -> bool, position: nat)
    requires Sorted(s, less)
    ensures SortFrom(s, less, position) == s
    ensures Swaps(s, less, position) == 0
    decreases |s| - position
  {
    if position + 1 < |s| {
      MinIndexOfSorted(s, less, position, |s|);
      SortFromOfSorted(s, less, position + 1);
    }
  }

  lemma SortedInputUnchanged<T>(s: seq<T>, less: (T, T) -> bool)
    ensures Sorted(s, less) ==> SelectionSort(s, less) == s && Swaps(s, less, 0) == 0
  {
    if Sorted(s, less) {
      SortFromOfSorted(s, less, 0);
    }
  }

  /** Sorting twice is sorting once. */
  lemma SelectionSortIdempotent<T(!new)>(s: seq<T>, less: (T, T) -> bool)
    requires StrictOrder(less)
    ensures SelectionSort(SelectionSort(s, less), less) == SelectionSort(s, less)
  {
    SelectionSortSorts(s, less);
    SortedInputUnchanged(SelectionSort(s, less), less);
  }
}
