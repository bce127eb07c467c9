# Insertion sort benchmark, verified model

This project models the core of a small sorting benchmark, found in `deveres-de-casa/dever-01/`. The benchmark times a hand-written insertion sort against the host language's built-in `sorted`. It has two near-identical entry points, `main.py` and `main2.py`. The model covers three parts:

- `QuadraticSort.InsertionSort` (`insertion_sort.dfy`) is the in-place insertion sort. A Python list becomes an `array<int>`. The method changes the array it is given and returns that same reference. Its two loops follow the source line by line: the outer loop takes `data[i]` as the key, and the inner loop shifts every larger element of the sorted prefix one slot to the right. The body of the outer loop is the separate method `InsertKey`, so each loop is verified on its own. Both methods are proved against ghost functions on sequences: `Pass` for one outer iteration and `Passes` for the first `i - 1` iterations. Lemmas about those functions prove the loop invariants: a sorted prefix, and a shifted window whose elements are all strictly greater than the key. The method is proved sorted, a permutation of its input, and equal to the reference sort. Both copies of `insertion_sort` (`main.py:25-56` and `main2.py:8-23`) contain the same code, so this one method models both.
- `ReferenceSort` (`reference_sort.dfy`) models `timsort_builtin`, a call to `sorted`. It is a specification function on values, so the input cannot change and the result is a new sequence. For lists of integers, `sorted` is fully determined by its contract: its result is the unique non-decreasing permutation of its input. The function computes that permutation by repeatedly taking the minimum. Timsort's own algorithm is not modelled. The lemmas prove that this is the only sorted permutation. They also prove that sorted input comes back unchanged and that sorting twice gives the same result as sorting once.
- `Benchmark` (`benchmark.dfy`) models the harness's copy discipline. `measure_execution_time` sorts `data.copy()`, not `data`. `run_benchmark` sorts `copy_1` and then builds `copy_2` from `original`. The measuring methods have no `modifies` clause on the original list, so the verifier checks that the original list is never written. Passing a sort function as a value becomes the datatype `SortFunction`.

## Model

| member | source | states |
|---|---|---|
| `QuadraticSort.InsertionSort` | deveres-de-casa/dever-01/main.py:25-56 | Returns the same array. Afterwards the array is in non-decreasing order, has the same multiset of elements, and equals the reference sort of the original contents. Already-sorted arrays are left unchanged; this is the best case that the doc-comment at `main.py:35` names. Arrays of length 0 or 1 are also left unchanged, because the outer range is then empty (`main2.py:10-12`). The array keeps its length. |
| `QuadraticSort.InsertKey` | deveres-de-casa/dever-01/main.py:49-55 | One pass of the outer loop for index `i` leaves the array equal to `Pass(old contents, i)`: the key `data[i]` is at the scan's stopping point plus one, the elements it passed over have each moved one slot right, and everything else is unchanged. |
| `QuadraticSort.ScanStopShiftsGreater` | deveres-de-casa/dever-01/main2.py:16-19 | The backward scan passes only over elements strictly greater than the key. It stops at the start of the list or at the first element that is less than or equal to the key, so an equal element stops it. |
| `QuadraticSort.InsertedKeepsElements` | deveres-de-casa/dever-01/main2.py:17-21 | Shifting the passed-over elements right and writing the key into the gap keeps the multiset of elements: nothing is lost or duplicated. |
| `QuadraticSort.PlaceKey` | deveres-de-casa/dever-01/main.py:52-55 | Take a sorted prefix `data[..i]` and a scan that stopped at `j < 0` or at `data[j] <= key`, with every skipped element above the key. Writing the key at `j + 1` makes the prefix of length `i + 1` sorted and keeps the multiset of elements. |
| `QuadraticSort.PassesSortPrefix` | deveres-de-casa/dever-01/main.py:48-55 | This is the outer loop's invariant. After the passes for indices 1 to `i - 1`, the prefix `data[..i]` is sorted and the list has its original multiset of elements. |
| `QuadraticSort.InsertionSortedIsTimsort` | deveres-de-casa/dever-01/main.py:44-45 | For every input, the result of all passes of insertion sort equals the reference sort of that input. |
| `ReferenceSort.TimsortBuiltin` | deveres-de-casa/dever-01/main.py:59-79 | The result is in non-decreasing order and has exactly the input's multiset of elements. The input is a value and does not change. |
| `ReferenceSort.SortedPermutationUnique` | deveres-de-casa/dever-01/main.py:76-77 | Two non-decreasing sequences with the same multiset of elements are equal, so the ascending order `sorted` returns is fully determined. |
| `ReferenceSort.TimsortBuiltinCharacterised` | deveres-de-casa/dever-01/main.py:73-77 | A sequence is the reference sort of `s` if and only if it is non-decreasing and a permutation of `s`. |
| `ReferenceSort.TimsortBuiltinFixesSorted` | deveres-de-casa/dever-01/main.py:79 | `sorted` returns a sequence unchanged if and only if it is already non-decreasing. `InsertionSort` uses this to prove that its result equals an already-sorted input. |
| `ReferenceSort.TimsortBuiltinShort` | deveres-de-casa/dever-01/main.py:79 | `sorted` returns sequences of length 0 or 1 unchanged. `InsertionSort` uses this to prove that such inputs are left as they are. |
| `ReferenceSort.TimsortBuiltinIdempotent` | deveres-de-casa/dever-01/main.py:76-77 | Sorting an already sorted result changes nothing. |
| `Benchmark.CopyList` | deveres-de-casa/dever-01/main.py:112 | `list.copy()` returns a fresh array with the same elements, distinct from the original. |
| `Benchmark.MeasureExecutionTime` | deveres-de-casa/dever-01/main.py:106-115 | Whichever sort is passed in runs on a private copy. The original is not in any `modifies` clause. The copy's result is sorted, a permutation of the original, and equal to the reference sort of it. |
| `Benchmark.MeasureBoth` | deveres-de-casa/dever-01/main.py:168-172 | For one generated list, the insertion-sort run and the `sorted` run return the same sorted permutation of that list. |
| `Benchmark.RunBenchmarkRound` | deveres-de-casa/dever-01/main2.py:41-49 | `copy_1` and `copy_2` are fresh and distinct. `original` is unchanged after `copy_1` is sorted in place, so `copy_2` equals the generated input. The sorted `copy_1` equals what `sorted(copy_2)` returns. |

## Left out

- Random input generation (`main.py:82-95`, `main2.py:28`, `main2.py:38`): it depends on Python's seeded `random` module, so the model takes the generated list as a parameter.
- Timing with `time.perf_counter()` (`main.py:114-118`, `main2.py:42-50`): this is a wall-clock reading.
- Benchmark.MeasureExecutionTime: returns the sorted copy instead of the elapsed seconds, because the clock is not modelled.
- The speedup ratio (`main.py:141`, `main2.py:53`): it is floating-point division over measured durations. The two files also disagree when the timsort duration is not positive: `main.py` reports `float("inf")` and `main2.py` reports `0`. The model keeps neither.
- The report (header, rows, footer, `main.py:122-155`, `main2.py:30-63`): this is formatted printing to standard output.
- The loop over `INPUT_SIZES`/`SIZES` and the entry points (`main.py:159-179`, `main2.py:36-67`): beyond one round per size, they only generate, time and print. One round is modelled by `MeasureBoth` and `RunBenchmarkRound`.
- Timsort's internals: `sorted` is modelled only by the result its contract fixes.
- The complexity claims in the doc-comments (best, average and worst case, and O(1) auxiliary space): these are not functional behaviour. The in-place property is modelled through the `modifies` clause.
- Python list semantics beyond integers: in `main.py` the type hints (`main.py:25`, `main.py:59`) fix the element type to `int`. In `main2.py`, `insertion_sort` has no hints (`main2.py:8`), and its only call site fixes the type: `main2.py:38` fills `original` from `random.randint`, and `main2.py:41-43` sorts a copy of it. The model uses unbounded integers, as Python does.
