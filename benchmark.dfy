/**
  The benchmark harness, reduced to what it does to the data: each sort is
  run on its own copy of the generated list, so the original list is never
  changed and both sorts start from value-identical input. The clock, the
  random generator and the report are not modelled; the measuring methods
  return what the timed call produced instead of the elapsed seconds.
*/
module Benchmark {
  import opened ReferenceSort
  import opened QuadraticSort

  /** The sorting routine handed to the timer as a value. */
  datatype SortFunction = InsertionSortFn | TimsortBuiltinFn

  /** `list.copy()`: a new list with the same elements. */
  method CopyList(data: array<int>) returns (c: array<int>)
    ensures fresh(c)
    ensures c[..] == data[..]
  {
    c := new int[data.Length](k requires 0 <= k < data.Length reads data => data[k]);
  }

  /**
    `measure_execution_time(func, data)`: `func` runs on a private copy of
    `data`. The method has no `modifies` clause, so `data` is left as it was;
    whichever sort is chosen, the copy ends up as the reference sort of `data`.
  */
  method MeasureExecutionTime(func: SortFunction, data: array<int>) returns (output: seq<int>)
    ensures IsSorted(output)
    ensures multiset(output) == multiset(data[..])
    ensures output == TimsortBuiltin(data[..])
  {
    var dataCopy := CopyList(data);
    match func
    case InsertionSortFn =>
      var sorted := InsertionSort(dataCopy);
      output := sorted[..];
    case TimsortBuiltinFn =>
      output := TimsortBuiltin(dataCopy[..]);
  }

  /**
    One size of the benchmark loop of `main`: both sorts are measured on the
    same generated list. Neither run sees the other's changes, and the two
    sorts agree on the result.
  */
  method MeasureBoth(data: array<int>) returns (insertionOutput: seq<int>, timsortOutput: seq<int>)
    ensures insertionOutput == timsortOutput
    ensures IsSorted(insertionOutput)
    ensures multiset(insertionOutput) == multiset(data[..])
  {
    insertionOutput := MeasureExecutionTime(InsertionSortFn, data);
    timsortOutput := MeasureExecutionTime(TimsortBuiltinFn, data);
  }

  /**
    One size of `run_benchmark`: `copy_1` is sorted in place by insertion
    sort, then `copy_2` is copied from `original` and handed to `sorted`,
    whose new list is discarded by the source and returned here. Sorting
    `copy_1` does not reach `original`, so `copy_2` still holds the
    generated input, and the two sorts agree.
  */
  method RunBenchmarkRound(original: array<int>)
    returns (copy1: array<int>, copy2: array<int>, timsortOutput: seq<int>)
    ensures fresh(copy1) && fresh(copy2) && copy1 != copy2
    ensures original[..] == old(original[..])
    ensures copy2[..] == original[..]
    ensures copy1[..] == timsortOutput
    ensures copy1[..] == TimsortBuiltin(original[..])
  {
    copy1 := CopyList(original);
    var sameList := InsertionSort(copy1);
    assert sameList == copy1;
    copy2 := CopyList(original);
    timsortOutput := TimsortBuiltin(copy2[..]);
  }
}
