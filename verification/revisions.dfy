/** Where the two revisions of `Benchmarked` part ways. */
module BenchmarkRevisions {
  import opened Wrappers
  import opened Helper
  import Benchmark
  import LegacyBenchmark

  /** Before any call, the old `result()` returns `MISSING` while the new one raises. */
  lemma UnmeasuredDefaultResult<F, V>(func: Callable<F>)
    ensures LegacyBenchmark.ResultOr(LegacyBenchmark.New<F, V>(func), MISSING) == MISSING
    ensures Benchmark.ResultOr(Benchmark.SyncBenchmark<F, V>(func), MISSING).Err?
  {
  }

  /** A routine that itself returns `MISSING`: the old wrapper still looks
      unmeasured (it reports "not measured" and `result(s)` gives `s`) although
      its elapsed time is set; the new wrapper is Measured and returns `MISSING`. */
  lemma RoutineReturningMissing<F, V>(name: string, code: F, sentinel: V, start: real, stop: real,
                                      render: real -> string, show: MaybeMissing<V> -> string)
    ensures var func := Callable(code, Some(name));
            var legacy := LegacyBenchmark.Call(LegacyBenchmark.New<F, V>(func), Ok(MISSING), start, stop, render, show);
      && legacy.printed == [name + ": not measured"]
      && LegacyBenchmark.ResultOr(legacy.state, Present(sentinel)) == Present(sentinel)
      && LegacyBenchmark.Elapsed(legacy.state) == Ok((stop - start) * 1000.0)
    ensures var func := Callable(code, Some(name));
            var current := Benchmark.Call(Benchmark.SyncBenchmark<F, V>(func), Ok(MISSING), start, stop, render, show);
      && Benchmark.Measured(current.state)
      && Benchmark.ResultOr(current.state, Present(sentinel)) == Ok(MISSING)
      && current.printed != [name + ": not measured"]
  {
    var func := Callable(code, Some(name));
    var current := Benchmark.Call(Benchmark.SyncBenchmark<F, V>(func), Ok(MISSING), start, stop, render, show);
    var line := current.printed[0];
    assert line[..|name|] == name;
    assert line[|name|..|name| + 6] == " took ";
    assert (name + ": not measured")[|name|..|name| + 6] == ": not ";
  }
}
