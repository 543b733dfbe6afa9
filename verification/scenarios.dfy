/**
 The model's result on the fixtures of the repository's tests, stated and
 proved, and the input that shows the algorithm is not stable.
 */
module SortScenarios {
  import opened Comparator
  import opened Sort

  /** The natural order on integers, as Python's `<`. */
  function IntLess(x: int, y: int): bool { x < y }

  /** Orders (key, tag) pairs by key alone, ignoring the tag. */
  function KeyLess(x: (int, int), y: (int, int)): bool { x.0 < y.0 }

  /**
   The tests' three-way `compareTupples` as `selection_sort` reads it: its
   result is truthy (-1 or 1) exactly when the keys differ.
   */
  function ThreeWayTruthy(x: (int, int), y: (int, int)): bool { x.0 != y.0 }

  lemma ReversedInputSorted()
    ensures SelectionSort([4, 3, 2, 1], IntLess) == [1, 2, 3, 4]
  {
  }

  lemma IntLessIsStrictOrder()
    ensures StrictOrder(IntLess)
  {
  }

  /** Dropping the first element keeps a sequence sorted. */
  lemma SortedTail(r: seq<int>)
    requires Sorted(r, IntLess) && r != []
    ensures Sorted(r[1..], IntLess)
  {
  }

  /** The first element of a sorted sequence is at most any of its elements. */
  lemma SortedHeadIsLeast(r: seq<int>, x: int)
    requires Sorted(r, IntLess) && x in multiset(r)
    ensures r != [] && r[0] <= x
  {
  }

  /**
   Under the natural order on integers a sorted arrangement of a multiset is
   unique, so sortedness and permutation pin down the result.
   */
  lemma {:induction false} SortedArrangementUnique(r1: seq<int>, r2: seq<int>)
    requires Sorted(r1, IntLess) && Sorted(r2, IntLess)
    requires multiset(r1) == multiset(r2)
    ensures r1 == r2
  {
    if r1 == [] {
      assert |r2| == |multiset(r2)| == 0;
    } else {
      SortedHeadsAgree(r1, r2);
      DropHead(r1);
      DropHead(r2);
      SortedTail(r1);
      SortedTail(r2);
      SortedArrangementUnique(r1[1..], r2[1..]);
      assert r1 == [r1[0]] + r1[1..] && r2 == [r2[0]] + r2[1..];
    }
  }

  /** Two sorted arrangements of one multiset start with the same element. */
  lemma SortedHeadsAgree(r1: seq<int>, r2: seq<int>)
    requires Sorted(r1, IntLess) && Sorted(r2, IntLess)
    requires multiset(r1) == multiset(r2) && r1 != []
    ensures r2 != [] && r1[0] == r2[0]
  {
    assert r1[0] in multiset(r1);
    SortedHeadIsLeast(r2, r1[0]);
    assert r2[0] in multiset(r2);
    SortedHeadIsLeast(r1, r2[0]);
  }

  lemma DropHead(r: seq<int>)
    requires r != []
    ensures multiset(r[1..]) == multiset(r) - multiset{r[0]}
  {
    assert r == [r[0]] + r[1..];
  }

  /**
   Selection sort with the natural order leaves the unique ascending
   arrangement of its input.
   */
  lemma SortsToArrangement(s: seq<int>, sorted: seq<int>)
    requires Sorted(sorted, IntLess) && multiset(sorted) == multiset(s)
    ensures SelectionSort(s, IntLess) == sorted
  {
    IntLessIsStrictOrder();
    SelectionSortSorts(s, IntLess);
    SortedArrangementUnique(SelectionSort(s, IntLess), sorted);
  }

  /**
   The repository's all-equal-keys fixture is left exactly as it is: no
   exchange reorders the tags.
   */
  lemma EqualKeysFixtureUnchanged()
    ensures SelectionSort([(1, 0), (1, 1), (1, 2), (1, 3), (1, 4), (1, 5)], KeyLess)
         == [(1, 0), (1, 1), (1, 2), (1, 3), (1, 4), (1, 5)]
  {
    var s := [(1, 0), (1, 1), (1, 2), (1, 3), (1, 4), (1, 5)];
    assert Sorted(s, KeyLess);
    SortedInputUnchanged(s, KeyLess);
  }

  /**
   Exchanging a far minimum into place can carry an element past an equal
   one: of the two pairs with key 2, the one tagged 0 ends up after the one
   tagged 1.
   */
  lemma NotStable()
    ensures SelectionSort([(2, 0), (2, 1), (1, 2)], KeyLess) == [(1, 2), (2, 1), (2, 0)]
  {
  }

  /**
   Under the three-way comparator read for its truthiness, the sorted
   fixture with distinct keys is reordered: at position 0 the scan moves
   `min` to every later index, since each has a different key, and the last
   pair is exchanged to the front.
   */
  lemma ThreeWayReordersSortedFixture()
    ensures SelectionSort([(1, 0), (2, 1), (3, 2), (4, 3), (5, 4), (6, 5)], ThreeWayTruthy)[0] == (6, 5)
  {
    var s := [(1, 0), (2, 1), (3, 2), (4, 3), (5, 4), (6, 5)];
    assert MinIndex(s, ThreeWayTruthy, 0, 6) == 5;
    var next := Step(s, ThreeWayTruthy, 0);
    assert next[0] == (6, 5);
    assert SelectionSort(s, ThreeWayTruthy) == SortFrom(next, ThreeWayTruthy, 1);
  }
}
