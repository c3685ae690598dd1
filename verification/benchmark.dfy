/** The current measurement wrapper, `Benchmarked` of python/tools/benchmark.py.

    A wrapper is Unmeasured until a synchronous call completes and Measured
    from then on. The wrapped routine is either a plain function or a
    coroutine object; only the tag is modelled. What the routine does on one
    call is an input (its return value or the exception it raises), and so are
    the two clock readings taken around it. */
module Benchmark {
  import opened Wrappers
  import opened Helper
  import Colorize

  const ANONYMOUS_CALLABLE: string := "<anonymous_callable>"

  /** `iscoroutine(routine)` decided once, when the wrapper is built. */
  datatype Routine = PlainFunction | CoroutineObject

  /** The slots of a `Benchmarked` instance. */
  datatype Benchmarked<F, V> = Benchmarked(
    routine: Routine,
    original: Callable<F>,
    elapsed: Option<real>,
    result: MaybeMissing<V>)

  /** The state after an operation, what it returned or raised, and the lines it printed. */
  datatype Step<F, V, T> = Step(state: Benchmarked<F, V>, out: Result<T>, printed: seq<string>)

  predicate Measured<F, V>(b: Benchmarked<F, V>) {
    b.elapsed.Some?
  }

  /** Both slots are written together: no elapsed time means no result either. */
  predicate Valid<F, V>(b: Benchmarked<F, V>) {
    b.elapsed.None? ==> b.result.MISSING?
  }

  /** `Benchmarked(routine, original_callable)` */
  function New<F, V>(routine: Routine, original: Callable<F>): (b: Benchmarked<F, V>)
    ensures !Measured(b) && b.result.MISSING? && Valid(b)
    ensures b.routine == routine && b.original == original
  {
    Benchmarked(routine, original, None, MISSING)
  }

  /** The factory `benchmark()(func)`: a plain function is its own routine. */
  function SyncBenchmark<F, V>(func: Callable<F>): (b: Benchmarked<F, V>)
    ensures !IsCoroutine(b) && !Measured(b) && Function(b) == func
  {
    New(PlainFunction, func)
  }

  /** The factory `async_benchmark()(corofunc)(*args)`: the routine is the
      coroutine object the call created, the original is `corofunc`. */
  function AsyncBenchmark<F, V>(corofunc: Callable<F>): (b: Benchmarked<F, V>)
    ensures IsCoroutine(b) && !Measured(b) && Function(b) == corofunc
  {
    New(CoroutineObject, corofunc)
  }

  /** the `is_coroutine` property */
  predicate IsCoroutine<F, V>(b: Benchmarked<F, V>) {
    b.routine == CoroutineObject
  }

  /** the `function` property: the original callable, never the routine */
  function Function<F, V>(b: Benchmarked<F, V>): Callable<F> {
    b.original
  }

  /** the `due` property: the elapsed time or `None`, never raising */
  function Due<F, V>(b: Benchmarked<F, V>): Option<real> {
    b.elapsed
  }

  /** `benchmark(*args, **kwargs)`: `outcome` is what the routine does, `start`
      and `stop` the two `perf_counter()` readings. The slots are assigned only
      after the routine has returned. */
  function Measure<F, V>(b: Benchmarked<F, V>, outcome: Result<MaybeMissing<V>>, start: real, stop: real)
    : (s: Step<F, V, MaybeMissing<V>>)
    ensures s.printed == []
    ensures s.state.routine == b.routine && s.state.original == b.original
    ensures IsCoroutine(b) ==> s.state == b && s.out.Err? && s.out.error.TypeError?
    ensures !IsCoroutine(b) && outcome.Err? ==> s.state == b && s.out == outcome
    ensures !IsCoroutine(b) && outcome.Ok? ==>
              && s.out == outcome
              && s.state.result == outcome.value
              && s.state.elapsed == Some((stop - start) * 1000.0)
    ensures !IsCoroutine(b) && outcome.Ok? && start <= stop ==> s.state.elapsed.value >= 0.0
    ensures Valid(b) ==> Valid(s.state)
  {
    if IsCoroutine(b) then
      Step(b, Err(TypeError("Coroutine object not callable, did you mean to await it?")), [])
    else
      match outcome
      case Err(e) => Step(b, Err(e), [])
      case Ok(v) => Step(b.(result := v, elapsed := Some((stop - start) * 1000.0)), Ok(v), [])
  }

  /** `_format_benchmark(name, elapsed, result)`; `render` stands for `str()` on
      floats and `show` for `str()` on results. */
  function FormatBenchmark<V>(name: string, elapsed: real, result: MaybeMissing<V>,
                              render: real -> string, show: MaybeMissing<V> -> string): string
  {
    name + " took " + Colorize.TimeFormat(elapsed, render) + " milliseconds to be completed and returned '"
    + show(result) + "'"
  }

  /** the name shown for the wrapper: `__name__` of the original callable, or the placeholder */
  function DisplayName<F>(original: Callable<F>): (name: string)
    ensures original.name.Some? ==> name == original.name.value
    ensures original.name.None? ==> name == ANONYMOUS_CALLABLE
  {
    GetName(original.name, Some(ANONYMOUS_CALLABLE)).value
  }

  /** `__str__` */
  function Str<F, V>(b: Benchmarked<F, V>, render: real -> string, show: MaybeMissing<V> -> string): (r: string)
    ensures !Measured(b) ==> r == DisplayName(b.original) + ": not measured"
    ensures Measured(b) ==> r == FormatBenchmark(DisplayName(b.original), b.elapsed.value, b.result, render, show)
  {
    var name := DisplayName(b.original);
    match Due(b)
    case None => name + ": not measured"
    case Some(e) => FormatBenchmark(name, e, b.result, render, show)
  }

  /** `__repr__`: `repr_fmt(Benchmarked, name)`, `reprStr` standing for `repr()` on strings. */
  function Repr<F, V>(b: Benchmarked<F, V>, reprStr: string -> string): (r: string)
    ensures r == "Benchmarked(" + reprStr(DisplayName(b.original)) + ")"
  {
    var fmt := ReprFmt(Class("Benchmarked"), [DisplayName(b.original)], [], reprStr);
    assert ArgReprs([DisplayName(b.original)], reprStr) + KwargReprs([], reprStr)
        == [reprStr(DisplayName(b.original))];
    fmt.value
  }

  /** `__call__`: measure, then print `str(self)` once, then return the result. */
  function Call<F, V>(b: Benchmarked<F, V>, outcome: Result<MaybeMissing<V>>, start: real, stop: real,
                      render: real -> string, show: MaybeMissing<V> -> string)
    : (s: Step<F, V, MaybeMissing<V>>)
    ensures s.out.Err? ==> s.state == b && s.printed == []
    ensures s.out.Ok? ==> s.out == outcome && Measured(s.state) && s.state.result == outcome.value
    ensures s.out.Ok? ==> s.printed == [Str(s.state, render, show)]
    ensures s.out.Ok? <==> !IsCoroutine(b) && outcome.Ok?
  {
    var m := Measure(b, outcome, start, stop);
    if m.out.Err? then m
    else Step(m.state, m.out, [Str(m.state, render, show)])
  }

  /** `__await__`: only a coroutine-backed wrapper can be awaited, and awaiting
      it hands back the coroutine's outcome without touching either slot. */
  function Await<F, V>(b: Benchmarked<F, V>, outcome: Result<MaybeMissing<V>>): (s: Step<F, V, MaybeMissing<V>>)
    ensures s.state == b && s.printed == []
    ensures !IsCoroutine(b) ==> s.out.Err? && s.out.error.TypeError?
    ensures IsCoroutine(b) ==> s.out == outcome
  {
    if !IsCoroutine(b) then Step(b, Err(TypeError("Cannot be awaited unless instantiated with a coroutine")), [])
    else Step(b, outcome, [])
  }

  /** `result(sentinel)`: `sentinel` is `MISSING` when the caller passes none. */
  function ResultOr<F, V>(b: Benchmarked<F, V>, sentinel: MaybeMissing<V>): (r: Result<MaybeMissing<V>>)
    ensures !Measured(b) && sentinel.MISSING? ==> r.Err? && r.error.ValueError?
    ensures !Measured(b) && sentinel.Present? ==> r == Ok(sentinel)
    ensures Measured(b) ==> r == Ok(b.result)
  {
    if Due(b).None? then
      if sentinel.MISSING? then Err(ValueError("Benchmarked object not called and an sentinel value has not been provided"))
      else Ok(sentinel)
    else Ok(b.result)
  }

  /** `elapsed()` */
  function Elapsed<F, V>(b: Benchmarked<F, V>): (r: Result<real>)
    ensures !Measured(b) <==> r.Err?
    ensures r.Err? ==> r.error.ValueError?
    ensures Measured(b) ==> r == Ok(b.elapsed.value)
  {
    if Due(b).None? then Err(ValueError("Benchmarked function has not been called")) else Ok(Due(b).value)
  }

  /** A fresh wrapper is Unmeasured: it prints as not measured, `elapsed()`
      raises, and `result()` raises unless given a sentinel, which it returns. */
  lemma FreshIsUnmeasured<F, V>(routine: Routine, original: Callable<F>, sentinel: V,
                                render: real -> string, show: MaybeMissing<V> -> string)
    ensures var b := New<F, V>(routine, original);
      && Str(b, render, show) == DisplayName(original) + ": not measured"
      && Elapsed(b).Err?
      && ResultOr(b, MISSING).Err?
      && ResultOr(b, Present(sentinel)) == Ok(Present(sentinel))
  {
  }

  /** After a successful synchronous call, `result()` is the call's return value
      whatever the sentinel, and `elapsed()` is the scaled clock difference. */
  lemma CallThenQuery<F, V>(b: Benchmarked<F, V>, v: MaybeMissing<V>, start: real, stop: real,
                            render: real -> string, show: MaybeMissing<V> -> string, sentinel: MaybeMissing<V>)
    requires !IsCoroutine(b)
    requires start <= stop
    ensures var s := Call(b, Ok(v), start, stop, render, show);
      && s.out == Ok(v)
      && ResultOr(s.state, sentinel) == Ok(v)
      && Elapsed(s.state) == Ok((stop - start) * 1000.0)
      && Elapsed(s.state).value >= 0.0
  {
  }

  /** Only the latest call is remembered: a second call overwrites both slots. */
  lemma LatestCallWins<F, V>(b: Benchmarked<F, V>, v1: MaybeMissing<V>, v2: MaybeMissing<V>,
                             t0: real, t1: real, t2: real, t3: real,
                             render: real -> string, show: MaybeMissing<V> -> string)
    requires !IsCoroutine(b)
    ensures var s1 := Call(b, Ok(v1), t0, t1, render, show);
            var s2 := Call(s1.state, Ok(v2), t2, t3, render, show);
      && s2.state == Call(b, Ok(v2), t2, t3, render, show).state
      && s2.state.result == v2 && s2.state.elapsed == Some((t3 - t2) * 1000.0)
  {
  }

  /** A call whose routine raises leaves a Measured wrapper's slots as they were. */
  lemma RaisingCallKeepsState<F, V>(b: Benchmarked<F, V>, e: PyError, start: real, stop: real,
                                   render: real -> string, show: MaybeMissing<V> -> string)
    ensures var s := Call(b, Err(e), start, stop, render, show);
      s.state == b && s.out.Err?
  {
  }

  /** Awaiting never measures: a wrapper that was Unmeasured stays Unmeasured. */
  lemma AwaitNeverMeasures<F, V>(b: Benchmarked<F, V>, outcome: Result<MaybeMissing<V>>)
    requires !Measured(b)
    ensures !Measured(Await(b, outcome).state)
    ensures Elapsed(Await(b, outcome).state).Err?
  {
  }
}
