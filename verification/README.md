# Selection sort, modelled and verified in Dafny

`sort.py` of the sorting library defines a single algorithm, `selection_sort(a, compare)`. It sorts a Python list in place. For each `position` from 0 to `len(a) - 2` it scans `a[position+1 .. len(a)-1]` for the index `min` of a smallest element. `min` moves only when `compare(a[tail], a[min])` is truthy. The code then exchanges `a[position]` and `a[min]` when the two indices differ.

The project has three modules:

- `Comparator` (`comparator.dfy`) holds the ordering contract. The comparator is the boolean "strictly less than" predicate `less: (T, T) -> bool` that the code calls. It also defines the properties the proofs assume: irreflexive and transitive (`StrictOrder`), plus transitive incomparability (`StrictWeakOrder`). `Sorted(s, less)` means that no later element is strictly less than an earlier one.
- `Sort` (`selection_sort.dfy`) describes the algorithm on sequences with one function per loop of the source:
  - `MinIndex` is the inner scan.
  - `Step` is one outer iteration.
  - `SortFrom` and `SelectionSort` are the outer loop.
  - `Swaps` counts the exchanges.

  `SelectionSortInPlace` is the algorithm itself, working on an `array<T>` with `modifies a`. It is built from `ScanMin` (the inner loop), `Exchange` (the tuple swap) and `SettlePosition` (one outer iteration). It is proved to leave exactly `SelectionSort(old(a[..]), less)` in the array. The lemmas prove the properties of that function.
- `SortScenarios` (`scenarios.dfy`) states and proves the model's result on fixtures from `test.py`. It also proves the counterexample showing that the algorithm is not stable.

Two points about the comparator and the tests:

- **Comparator.** `sort.py:12` uses `compare` only for its truthiness, so the model takes a boolean strict less-than. `test.py` also defines a three-way comparator, `compareTupples` (test.py:26-29), which returns -1, 0 or 1. Both -1 and 1 are truthy, so under it `min` moves to any element whose key merely differs. Lemma `ThreeWayReordersSortedFixture` proves the consequence: the sorted fixture at test.py:42 comes back with `(6, 5)` in front, so the check at test.py:48 does not hold for that fixture under the tests' own comparator.
- **Stability.** test.py:40-48 checks stability only for input that is already sorted. The code is not stable in general: exchanging a far minimum into place can carry an element past an equal one (`[2a, 2b, 1]` becomes `[1, 2b, 2a]`, lemma `NotStable`). With a boolean strict less-than comparator, already-sorted input is left unchanged, tags included (`SortedInputUnchanged`; the lemma holds for any comparator the input is sorted under). `EqualKeysFixtureUnchanged` covers only the all-equal-keys fixture at test.py:43, compared by key; `compareTupples` returns 0 on equal keys, so it leaves that fixture unchanged too.

Sortedness is proved for any irreflexive and transitive comparator, which is weaker than the strict weak order a caller is expected to supply. The "leftmost minimum" property uses the full strict weak order.

## Model

| member | source | states |
|---|---|---|
| `Sort.MinIndex` | sort.py:10-13 | the index `min` that the inner scan reaches after examining the indices below `tail` always stays within `position <= min < tail` |
| `Sort.MinIndexIsMinimum` | sort.py:11-13 | for an irreflexive, transitive comparator, no element of `s[position..tail)` is strictly less than `s[min]` |
| `Sort.MinIndexIsLeftmost` | sort.py:11-13 | for a strict weak order, every element of the scanned range before `min` is strictly greater than `s[min]`, because `min` moves only on a strictly smaller element |
| `Sort.ScanMin` | sort.py:10-13 | the inner `for tail` loop over the array returns exactly the index `MinIndex` describes |
| `Sort.Swap` | sort.py:15 | the tuple assignment exchanges slots `i` and `j`, leaves every other slot and the length unchanged, and preserves the multiset |
| `Sort.Exchange` | sort.py:15 | the in-place exchange leaves the array equal to `Swap` of its old contents |
| `Sort.Step` | sort.py:10-15 | one outer iteration puts the scanned minimum at `position`, changes no slot other than `position` and `min`, changes nothing when `min == position`, and preserves the multiset |
| `Sort.SettlePosition` | sort.py:10-15 | one outer iteration on the array (scan, then exchange only when `position != min`) leaves exactly `Step` of the old contents |
| `Sort.SortFrom` | sort.py:9-15 | the outer loop from `position` on preserves length and multiset and never touches a slot below `position` |
| `Sort.SelectionSort` | sort.py:7-15 | the result is a permutation of the input of the same length; empty and one-element inputs come back unchanged (`xrange(len(a) - 1)` is empty) |
| `Sort.Swaps` | sort.py:14-15 | the exchange runs at most once per outer iteration, so at most `len(a) - 1` times, and never for fewer than two elements |
| `Sort.SelectionSortInPlace` | sort.py:7-15 | the array ends as `SelectionSort` of its old contents: a permutation, sorted when the comparator is irreflexive and transitive, and identical to the input when the input was already sorted |
| `Sort.StepSettles` | sort.py:9-15 | outer-loop invariant: if `s[..position]` is sorted and no element there is greater than any later one, then after the step the same holds for `s[..position+1]` |
| `Sort.SettledIsSorted` | sort.py:9 | once the settled prefix covers all but the last slot, the whole sequence is sorted |
| `Sort.SortFromSorts` | sort.py:9-15 | the outer loop, entered with its invariant, ends with a sorted sequence |
| `Sort.SelectionSortSorts` | sort.py:7-15 | for every input, an irreflexive and transitive comparator yields a sorted result: `less(r[j], r[i])` is false for all `i < j` |
| `Sort.MinIndexOfSorted` | sort.py:12-13 | on sorted input the scan never moves `min` away from `position` |
| `Sort.SortFromOfSorted` | sort.py:12-15 | on sorted input every remaining outer iteration leaves the sequence identical and performs no exchange |
| `Sort.SortedInputUnchanged` | sort.py:9-15 | for any comparator, already-sorted input is returned identical, with equal elements in their original order, and no exchange happens |
| `Sort.SelectionSortIdempotent` | sort.py:7-15 | sorting the result again returns it unchanged |
| `Comparator.LessThroughNotLess` | sort.py:12 | under a strict weak order, `less(x, y)` and `!less(z, y)` give `less(x, z)`; the leftmost-minimum proof rests on this |
| `SortScenarios.ReversedInputSorted` | test.py:14 | the fixture `[4, 3, 2, 1]` sorts to `[1, 2, 3, 4]` under `<` |
| `SortScenarios.SortsToArrangement` | test.py:31-35 | with the integer order `<`, the result is the unique ascending arrangement of the input's elements, as the test's sortedness check expects |
| `SortScenarios.EqualKeysFixtureUnchanged` | test.py:43 | the all-equal-keys fixture `[(1,0) .. (1,5)]`, compared by the boolean key order, keeps every tag at its own index |
| `SortScenarios.ThreeWayReordersSortedFixture` | test.py:26-29 | under `compareTupples` read as a truth value (true when keys differ), the sorted fixture `[(1,0) .. (6,5)]` of test.py:42 comes back with `(6,5)` first, so the tag check of test.py:48 fails for it |
| `SortScenarios.NotStable` | sort.py:14-15 | `[(2,0), (2,1), (1,2)]` compared by key becomes `[(1,2), (2,1), (2,0)]`: the two key-2 elements swap order |

## Left out

- Every algorithm other than `selection_sort`. `test.py` and `perf.py` name `bubble_sort`, `coctail_sort`, `insertion_sort`, `shell_sort` (with its gap strategies) and `comb_sort`. None of them is defined in `sort.py`, so they are not part of this model.
- The `None` comparator the tests pass (test.py:34). `sort.py` has no default, so calling `None` raises `TypeError` on any list of two or more elements. The three-way `compareTupples` is modelled only through its truthiness (`ThreeWayReordersSortedFixture`).
- Comparators that are not pure, total functions. The comparator is a Dafny arrow `(T, T) -> bool`, so the model does not capture a `compare` that raises part-way through (the exception propagates and the list stays partly permuted, since every exchange already made persists), one with side effects (including one that mutates `a` during the scan), or one that never returns.
- Python's dynamic type errors: a tuple, a string or a non-callable comparator raising `TypeError` (test.py:36-38). A typed Dafny signature cannot receive those arguments.
- Stability in general. It does not hold for this code (`NotStable`); only the sorted-input case does (`SortedInputUnchanged`).
- The mixed fixture `[3, 2, 5, 2, 3, 7, 4, 7]` (test.py:9) has no concrete lemma of its own. `SortsToArrangement` covers it: its result is the ascending arrangement of its elements.
- `Sort.SelectionSortInPlace`: does not return the number of exchanges. That count is stated on the specification function `Swaps`, which follows the same iterations.
- `perf.py` entirely: wall-clock timing, random inputs, CSV output and console printing.
- Aliasing and concurrency: the list is assumed to be accessed by nothing else during the call.
