/** The older measurement wrapper, `Benchmarked` of src/benchmark.py.

    It holds the wrapped function and two slots. Unlike the current revision
    it decides "not measured" by the result slot holding `MISSING`, its
    `result()` never raises, it prints the elapsed time without colour, and it
    reads `__name__` without a fallback. */
module LegacyBenchmark {
  import opened Wrappers
  import opened Helper

  datatype Benchmarked<F, V> = Benchmarked(
    func: Callable<F>,
    elapsed: Option<real>,
    result: MaybeMissing<V>)

  /** The state after a call, what it returned or raised, and the lines it printed. */
  datatype Step<F, V> = Step(state: Benchmarked<F, V>, out: Result<MaybeMissing<V>>, printed: seq<string>)

  /** `Benchmarked(func)` */
  function New<F, V>(func: Callable<F>): (b: Benchmarked<F, V>)
    ensures b.elapsed.None? && b.result.MISSING? && Function(b) == func
  {
    Benchmarked(func, None, MISSING)
  }

  /** the `function` property */
  function Function<F, V>(b: Benchmarked<F, V>): Callable<F> {
    b.func
  }

  /** `f"{elapsed}"`: `None` prints as `None`. */
  function ShowElapsed(elapsed: Option<real>, render: real -> string): string {
    match elapsed
    case None => "None"
    case Some(e) => render(e)
  }

  /** The line `show_performance()` prints, or the `AttributeError` raised when
      the function has no `__name__`. */
  function ShowPerformance<F, V>(b: Benchmarked<F, V>, render: real -> string, show: MaybeMissing<V> -> string)
    : (r: Result<string>)
    ensures b.func.name.None? <==> r.Err?
    ensures r.Err? ==> r.error.AttributeError?
    ensures b.func.name.Some? && b.result.MISSING? ==> r == Ok(b.func.name.value + ": not measured")
    ensures b.func.name.Some? && b.result.Present? ==>
              r == Ok(b.func.name.value + " took " + ShowElapsed(b.elapsed, render)
                      + " milliseconds to be completed and returned '" + show(b.result) + "'")
  {
    match b.func.name
    case None => Err(AttributeError("__name__"))
    case Some(name) =>
      if b.result.MISSING? then Ok(name + ": not measured")
      else Ok(name + " took " + ShowElapsed(b.elapsed, render)
              + " milliseconds to be completed and returned '" + show(b.result) + "'")
  }

  /** `__call__`: run the function between two clock readings, store result then
      elapsed time, print once, return the stored result. A raising function
      changes nothing; a missing `__name__` raises only after both slots are set. */
  function Call<F, V>(b: Benchmarked<F, V>, outcome: Result<MaybeMissing<V>>, start: real, stop: real,
                      render: real -> string, show: MaybeMissing<V> -> string)
    : (s: Step<F, V>)
    ensures s.state.func == b.func
    ensures outcome.Err? ==> s.state == b && s.out == outcome && s.printed == []
    ensures outcome.Ok? ==> s.state.result == outcome.value
                            && s.state.elapsed == Some((stop - start) * 1000.0)
    ensures outcome.Ok? && start <= stop ==> s.state.elapsed.value >= 0.0
    ensures outcome.Ok? && b.func.name.Some? ==>
              s.out == outcome && |s.printed| == 1
              && Ok(s.printed[0]) == ShowPerformance(s.state, render, show)
    ensures outcome.Ok? && b.func.name.None? ==>
              s.out.Err? && s.out.error.AttributeError? && s.printed == []
  {
    match outcome
    case Err(e) => Step(b, Err(e), [])
    case Ok(v) =>
      var measured := b.(result := v, elapsed := Some((stop - start) * 1000.0));
      match ShowPerformance(measured, render, show)
      case Err(e) => Step(measured, Err(e), [])
      case Ok(line) => Step(measured, Ok(measured.result), [line])
  }

  /** `result(sentinel)`: never raises; `sentinel` defaults to `MISSING`. */
  function ResultOr<F, V>(b: Benchmarked<F, V>, sentinel: MaybeMissing<V>): (r: MaybeMissing<V>)
    ensures b.result.MISSING? ==> r == sentinel
    ensures b.result.Present? ==> r == b.result
  {
    if b.result.MISSING? then sentinel else b.result
  }

  /** `elapsed()` */
  function Elapsed<F, V>(b: Benchmarked<F, V>): (r: Result<real>)
    ensures b.elapsed.None? <==> r.Err?
    ensures r.Err? ==> r.error.ValueError?
    ensures b.elapsed.Some? ==> r == Ok(b.elapsed.value)
  {
    if b.elapsed.None? then Err(ValueError("Benchmarked function has not been called"))
    else Ok(b.elapsed.value)
  }

  /** Before the first call `result()` hands back the sentinel, `MISSING` by
      default, and `elapsed()` raises. */
  lemma FreshQueries<F, V>(func: Callable<F>, sentinel: MaybeMissing<V>)
    ensures ResultOr(New<F, V>(func), sentinel) == sentinel
    ensures Elapsed(New<F, V>(func)).Err?
  {
  }
}
