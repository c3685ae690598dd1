# euler-solutions, modelled in Dafny

This project models the core of a Project Euler solutions repository written in Python. It has three parts:

- **The `Benchmarked` measurement wrapper, in both revisions.** The current one is in `python/tools/benchmark.py` and the older one in `src/benchmark.py`.
  - A wrapper is a small state machine. It goes from Unmeasured to Measured when a synchronous call completes.
  - It has two slots: the result, which may hold the `MISSING` sentinel, and the elapsed milliseconds.
  - The clock readings and what the wrapped routine does are inputs.
- **The console helpers.** These are the SGR colour sequences and the three-tier time colouring of `colorize.py`, and the string utilities of `helper.py`.
- **The puzzle solvers.** Most are stated against an independent reference definition (for example, Fibonacci numbers, binomial coefficients, the set of divisors, the best path through a triangle, or the odd numbers that are palindromes in both bases), and proved equal to it or related to it one step at a time. `problem_22` is given only its empty case, its sign and how appending a name changes the score.

Modules follow the source files:

| module | source file |
|---|---|
| `Benchmark` | `python/tools/benchmark.py` |
| `LegacyBenchmark` | `src/benchmark.py` |
| `BenchmarkRevisions` | where the two revisions differ |
| `Colorize` | `python/tools/colorize.py` |
| `Helper` | `python/tools/helper.py` |
| `Problem1`, `Problem2`, `Problem3`, … `Problem55` | one per solver file |

Shared modules:

| module | what it holds |
|---|---|
| `Wrappers` | `Option`, `Result` and the Python exceptions |
| `Text` | strings, and the `str` methods the solvers use |
| `Digits` | `str(int)`, `int(str)`, `bin`, digit sums and palindromic numbers |
| `Ordering` | code-point lexicographic order and `sorted` |
| `Arith` | small arithmetic facts |
| `Divisibility` | divisors, primes, prime powers |
| `Divisors` | the set of divisors of a number |
| `Triangular` | triangle numbers |
| `Words` | letter scores and the quoted word-list format |
| `Floats` | powers of two and the integers that convert to a float |

How Python is represented:

- Python exceptions are the `Err` case of a `Result`.
- `MISSING` is a constructor of its own, distinct from every value.
- Integers are unbounded, as in Python. CPython's default limit of 4300 decimal digits for converting an integer to a string is modelled where a solver prints a number whole (`Digits.StrOfInt`); where it is not, "## Left out" says so.
- A float operation with an integer operand converts it first, and raises `OverflowError` when its magnitude reaches `2^1024 - 2^970` (`Floats.FitsFloat`). This is modelled in `problem_12`, `problem_16` and `problem_42`; for `problem_1`, "## Left out" says why not.
- Floor division and modulo of Python are written out wherever the operands can be negative (`Arith.PyMod`).

## Model

| member | source | states |
|---|---|---|
| Benchmark.New | python/tools/benchmark.py:100-110 | a new wrapper has no elapsed time and the `MISSING` result, so it is Unmeasured; routine and original callable are stored as given |
| Benchmark.SyncBenchmark | python/tools/benchmark.py:258-262 | the `benchmark()` factory wraps a plain function as its own routine: not a coroutine, Unmeasured, `function` is the argument |
| Benchmark.AsyncBenchmark | python/tools/benchmark.py:265-273 | the `async_benchmark()` factory builds a coroutine-backed, Unmeasured wrapper whose `function` is the coroutine function |
| Benchmark.Measure | python/tools/benchmark.py:175-191 | a coroutine-backed wrapper raises `TypeError` and keeps its state; a raising routine leaves both slots unchanged; a returning one stores its value and `(stop - start) * 1000`, which is non-negative for a non-decreasing clock; slot consistency is preserved |
| Benchmark.DisplayName | python/tools/benchmark.py:160 | the displayed name is `__name__` of the original callable, or `<anonymous_callable>` when it has none |
| Benchmark.Str | python/tools/benchmark.py:151-166 | `"<name>: not measured"` while Unmeasured, otherwise the formatted report with the elapsed time and the result |
| Benchmark.Repr | python/tools/benchmark.py:139-149 | the representation is `Benchmarked(` + the repr of the display name + `)` |
| Benchmark.Call | python/tools/benchmark.py:112-131 | a call succeeds exactly when the wrapper is not coroutine-backed and the routine returns; it then stores the value, is Measured, and prints its string form exactly once; a failed call changes nothing and prints nothing |
| Benchmark.Await | python/tools/benchmark.py:133-137 | awaiting never touches the slots; a non-coroutine wrapper raises `TypeError`; a coroutine wrapper hands back the coroutine's outcome |
| Benchmark.ResultOr | python/tools/benchmark.py:193-215 | Unmeasured without a sentinel raises `ValueError`; Unmeasured with one returns it; Measured returns the stored result whatever the sentinel |
| Benchmark.Elapsed | python/tools/benchmark.py:217-229 | raises `ValueError` exactly when Unmeasured, otherwise returns the stored elapsed time |
| Benchmark.FreshIsUnmeasured | python/tools/benchmark.py:107-110 | a new wrapper prints as not measured, `elapsed()` raises, `result()` raises without a sentinel and returns the sentinel given one |
| Benchmark.CallThenQuery | python/tools/benchmark.py:188-215 | after a successful call `result(s)` is the returned value for every `s`, and `elapsed()` is the non-negative scaled clock difference |
| Benchmark.LatestCallWins | python/tools/benchmark.py:189-190 | a second call overwrites both slots: the state is as if only the second call had happened |
| Benchmark.RaisingCallKeepsState | python/tools/benchmark.py:189-190 | a call whose routine raises leaves the wrapper exactly as it was |
| Benchmark.AwaitNeverMeasures | python/tools/benchmark.py:133-137 | an Unmeasured wrapper stays Unmeasured after being awaited, so `elapsed()` still raises |
| LegacyBenchmark.New | src/benchmark.py:38-47 | a new wrapper has no elapsed time, the `MISSING` result, and keeps the function |
| LegacyBenchmark.ShowPerformance | src/benchmark.py:49-61 | a function without `__name__` raises `AttributeError`; a `MISSING` result prints as not measured; otherwise the report shows the elapsed time uncoloured |
| LegacyBenchmark.Call | src/benchmark.py:63-75 | a raising function changes nothing; otherwise the result and `(stop - start) * 1000` are stored and the report is printed once, or `AttributeError` is raised after the slots are set when the name is missing |
| LegacyBenchmark.ResultOr | src/benchmark.py:77-91 | never raises: the sentinel while the result is `MISSING`, the stored result otherwise |
| LegacyBenchmark.Elapsed | src/benchmark.py:93-106 | raises `ValueError` exactly when no elapsed time is stored |
| LegacyBenchmark.FreshQueries | src/benchmark.py:45-47 | before any call `result(s)` is `s` (so `MISSING` by default) and `elapsed()` raises |
| BenchmarkRevisions.UnmeasuredDefaultResult | src/benchmark.py:89-90 | before any call the old `result()` returns `MISSING` while the new one raises |
| BenchmarkRevisions.RoutineReturningMissing | src/benchmark.py:58-59 | a routine that returns `MISSING` leaves the old wrapper reporting "not measured" and answering `result(s)` with `s` although its elapsed time is set; the new wrapper is Measured and returns `MISSING` |
| Colorize.Colorize | python/tools/colorize.py:16-29 | the text is framed by the colour sequence before it and the reset sequence after it |
| Colorize.RoundHalfEven | python/tools/colorize.py:48 | `round()` gives an integer within one half of the number, the even one on a tie |
| Colorize.RoundHalfEvenUnique | python/tools/colorize.py:48 | those two conditions determine `round()` uniquely |
| Colorize.SelectColor | python/tools/colorize.py:47-51 | the colour of the first span holding the number, or the fallback when none does |
| Colorize.SelectColorOrderIrrelevant | python/tools/colorize.py:10-13 | every listing of the spans of `COLOR_RANGE` selects the same colour, so dictionary order does not matter |
| Colorize.SelectColorRange | python/tools/colorize.py:10-13 | `COLOR_RANGE` picks green on [0, 140), yellow on [140, 300) and the fallback elsewhere |
| Colorize.TimeFormat | python/tools/colorize.py:32-51 | the rounded number selects green, yellow or the fallback (red by default), and the unrounded number is the text coloured |
| Helper.CleanWhitespaces | python/tools/helper.py:32-43 | the result has no whitespace, is no longer than the input, and equals an input that had none |
| Helper.CleanWhitespacesKeeps | python/tools/helper.py:43 | each non-whitespace character keeps its number of occurrences, and whitespace characters occur zero times |
| Helper.CleanWhitespacesAppend | python/tools/helper.py:43 | cleaning distributes over concatenation, so the kept characters stay in order |
| Helper.CleanWhitespacesIdempotent | python/tools/helper.py:43 | cleaning twice is cleaning once |
| Helper.ConcatSplitIsClean | python/tools/helper.py:43 | the cleaned string is the concatenation of the whitespace-separated tokens |
| Helper.GetName | python/tools/helper.py:46-51 | `__name__` when present, else the replacement when given, else `TypeError` (exactly then) |
| Helper.ArgReprs | python/tools/helper.py:55 | one `repr` per positional argument, in order |
| Helper.KwargReprs | python/tools/helper.py:56 | one `key=repr(value)` per keyword argument, in insertion order |
| Helper.ArgsAndKwargsFmt | python/tools/helper.py:54-57 | the conditional separator makes the result every rendered argument joined by `", "`, and `""` when there are none |
| Helper.ReprFmt | python/tools/helper.py:60-65 | `TypeError` exactly for a non-class, otherwise `ClassName(...)` around the argument list |
| Problem1.SummationOfProgression | src/problem_1.py:4-6 | the closed form equals the sum of the multiples of `num` up to `leng`, taken one term at a time |
| Triangular.ConsecutiveProductEven | src/problem_1.py:6 | `k*(k+1)` is even and never negative, so halving it is exact |
| Problem1.InclusionExclusion | src/problem_1.py:12-16 | the 3-sum plus the 5-sum minus the 15-sum is the sum of the numbers divisible by 3 or 5 |
| Problem1.Problem1 | src/problem_1.py:10-16 | for `length >= 1` the result is the sum of the numbers below `length` divisible by 3 or by 5 |
| Problem1.Problem1OfOne | src/problem_1.py:11-16 | `problem_1(1)` is 0 |
| Problem2.FibParity | src/problem_2.py:9-11 | a Fibonacci number is even exactly at every third index, so `c` is always the even term |
| Problem2.Problem2 | src/problem_2.py:5-12 | the result is the sum of the even Fibonacci numbers below `lim`, and 0 for `lim <= 2` |
| Problem3.TrialDivide | python/problem_3.py:7-10 | the outer loop leaves a positive divisor of the input that is 1, a prime or the square of a prime; non-positive input is returned unchanged |
| Problem3.Problem3 | python/problem_3.py:5-11 | the same, from `x = 2` |
| Problem3.Problem3OfOne | python/problem_3.py:6-11 | `problem_3(1)` is 1 |
| Problem3.Problem3Counterexamples | python/problem_3.py:7-9 | the strict guard `x**2 < of` returns 9 for 9, which is not prime; the inner loop, which divides while `x` divides, returns 1 for 8 |
| Problem3.LargestPrimeFactor | python/problem_3.py:5-11 | dividing by `x` only while `x*x <= of`, and otherwise advancing `x`, the result for an input of at least 2 is a prime factor that every prime factor is at most |
| Problem8.DigitProduct | python/problem_8.py:16 | `ValueError` exactly when a non-digit occurs; otherwise a non-negative product that is 0 exactly when a `0` occurs, and 1 for an empty slice |
| Problem8.LargestProduct | python/problem_8.py:14-17 | the scan fails exactly when some visited window fails, with that window's error; otherwise it yields a non-negative value at least every visited product, which is 0 or one of them |
| Problem8.Problem8 | python/problem_8.py:12-18 | `ZeroDivisionError` for `adjacent == 0`; otherwise the scan over the starts below `length - length % adjacent`, which is 0 when the data is shorter than `adjacent` |
| Problem8.WindowLength | python/problem_8.py:16 | near the end a slice holds only the digits that are left |
| Problem8.LargestOverIsMaximum | python/problem_8.py:15-17 | when every window succeeds, the scan's answer is the largest product |
| Problem8.TruncatedWindowCounterexample | python/problem_8.py:15-16 | for `"1110099"` and 3 the loop reaches the cut-short window `"99"` and answers 81 |
| Problem8.Problem8FullWindows | python/problem_8.py:15-17 | the intended scan visits exactly the full windows |
| Problem8.FullWindowsExample | python/problem_8.py:15-17 | over the full windows of `"1110099"` and 3 the answer is 1 |
| Problem12.FactorizationCorrect | python/problem_12.py:10-15 | the reference factorisation lists increasing primes with positive exponents whose product is the number |
| Problem12.DivisorCountCounts | python/problem_12.py:16 | the product of `e + 1` over the factorisation is the number of divisors |
| Problem12.Tally | python/problem_12.py:12 | `factors[i] += 1` adds one to the count of `i` and leaves every other count alone |
| Problem12.Isqrt | python/problem_12.py:10 | `int(n**0.5)` read as the integer square root: `b*b <= n < (b+1)*(b+1)` |
| Problem12.DivideOutCounting | python/problem_12.py:11-13 | the inner loop moves every factor `i` from `n` into the counter, keeping counter plus factorisation of `n` equal to what it was |
| Problem12.FinalRemainder | python/problem_12.py:14-15 | a remainder above 1 left by trial division up to the square root is a single prime |
| Problem12.Factors | python/problem_12.py:8-16 | `OverflowError` exactly when `n` does not fit a float (`n**0.5` converts it first); otherwise `TypeError` exactly for negative `n` (a complex square root), 1 for 0, and the divisor count for positive `n` |
| Problem12.DivisorCountMultiplicative | python/problem_12.py:26-31 | the divisor count of a product of coprime numbers is the product of their counts |
| Problem12.EvenTriangle | python/problem_12.py:26-29 | `tri(2n) = n(2n+1)` and its divisor count is `factors(n) * factors(2n+1)` |
| Problem12.OddTriangle | python/problem_12.py:30-31 | `tri(2n+1) = (n+1)(2n+1)` and its divisor count is `factors(n+1) * factors(2n+1)` |
| Problem12.Problem12 | python/problem_12.py:23-32 | a found answer is `tri(m)` for the first `m >= 2` with at least `fac` divisors; running out of the search bound raises `ValueError` only after every earlier candidate fell short; `OverflowError` comes only once `2n + 1` leaves the float range, after every index below it fell short; a large enough bound finds an answer whenever `2 * 2^fac` fits a float |
| Problem12.DefaultSearchFits | python/problem_12.py:24 | for the default `fac = 500` the guaranteeing bound `2 * 2^500` fits a float, so the search answers before any `OverflowError` |
| Problem12.PowerOfTwoDivisors | python/problem_12.py:25 | `2^k` has `k + 1` divisors, which bounds how far the search goes |
| Triangular.Tri | python/problem_12.py:19-20 | `2 * tri(n) == n(n+1)` and the result is non-negative, so the shift halves exactly |
| Triangular.IsTriangular | src/problem_42.py:13-24 | the meaning the test documents: true exactly when `t = n(n+1)/2` for some natural `n` (the test itself raises for negative `t`; see `Problem42.TriangleTest`) |
| Problem13.Problem13 | python/problem_13.py:11-12 | `ValueError` exactly when the sum has more than 4300 digits (its magnitude reaches `10^4300`); otherwise the first `min(10, len)` characters of the sum's decimal string, and `"0"` for no numbers |
| Problem13.ShortSumIsWhole | python/problem_13.py:12 | a sum of at most ten digits comes back whole |
| Problem13.SecondDefaultCall | python/problem_13.py:7-12 | the default iterator is used up by the first call, so a second default call sees nothing and returns `"0"` |
| Problem14.Collatz | python/problem_14.py:4-10 | a hit returns the cached value unchanged; a miss stores its answer, keeps every earlier entry, and keeps every entry consistent with the recurrence |
| Problem14.StoreKeepsValid | python/problem_14.py:7-8 | storing `collatz(step(j)) + 1` keeps the cache consistent |
| Problem14.CachedIsChainLength | python/problem_14.py:5-10 | a cached value for `j >= 1` is the number of terms of the Collatz chain from `j` down to 1 |
| Problem14.CacheIrrelevant | python/problem_14.py:4 | the answer does not depend on what the shared cache held before |
| Problem14.Problem14 | python/problem_14.py:14-15 | the smallest `n` in `[1, limit)` with the longest chain; `ValueError` for `limit <= 1` |
| Problem15.Problem15 | python/problem_15.py:5-9 | the result is the central binomial coefficient `C(2g, g)`, which is positive, and 1 for `g <= 0` |
| Problem15.ExactStep | python/problem_15.py:8 | each floor division is exact: `C(n, i) * (n - i) // (i + 1) == C(n, i + 1)` |
| Problem16.Problem16 | python/problem_16.py:5-6 | raises exactly when the power is negative or `2^power` has more than 4300 digits; `OverflowError` exactly for the exponents `float()` cannot convert, `power <= -(2^1024 - 2^970)`, and `ValueError` otherwise; on success the digit sum of `2^power`, between 1 and 9 times its number of digits |
| Floats.FloatOverflowIsHalfway | python/problem_16.py:6 | the `OverflowError` bound written out in the model is `2^1024 - 2^970` |
| Floats.PowersOfTwoFit | python/problem_12.py:10 | every power of two up to `2^1023` converts to a float without `OverflowError` |
| Problem16.LimitIsUpward | python/problem_16.py:6 | once `2^p` is too long to print, so is `2^q` for every `q >= p` |
| Problem16.DefaultPowerPrints | python/problem_16.py:5 | the default power, 1000, gives an answer |
| Problem16.Problem16OfZero | python/problem_16.py:6 | `problem_16(0)` is 1 |
| Problem18.Reform | python/problem_18.py:13-16 | `IndexError` exactly when there are fewer than two rows or the last is too short; otherwise the list is one shorter, the rows above are unchanged, and the new last row takes the better child plus the entry above |
| Problem18.BestBoundsEveryPath | python/problem_18.py:15 | no top-to-bottom path sums to more than the reference best |
| Problem18.BestIsAttained | python/problem_18.py:15 | some path sums to exactly the reference best |
| Problem18.Problem18 | python/problem_18.py:19-23 | for a well-shaped triangle the result is the largest path sum and the list is left as a single row holding the best sums; `IndexError` otherwise |
| Problem18.RerunOnResult | python/problem_18.py:19-23 | the left-over list `[[v]]` is solved by `v`, so re-running returns the same value |
| Problem18.ParseTriangle | python/problem_18.py:4-5 | one row per line, one entry per whitespace-separated token, each entry what `int()` reads from its token; `ValueError` exactly when some token is not an integer literal |
| Problem18.ParseGroupedEntry | python/problem_18.py:4-5 | a token with digits grouped by an underscore is read as its number: `"1_0"` gives `[[10]]` |
| Digits.PyInt | python/problem_18.py:5 | `int()` in base 10 succeeds exactly when, after the surrounding whitespace it skips, there is an optional sign and ASCII digits in which single underscores may stand between two digits; `ValueError` otherwise; an unsigned literal is non-negative and a `-` literal non-positive |
| Digits.IntSpaceIsWhitespace | python/problem_18.py:5 | the whitespace `int()` skips is the whitespace of `str.isspace()` without the four separators U+001C..U+001F |
| Digits.SeparatorNotSkipped | python/problem_18.py:5 | `str.strip()` removes a leading U+001C, but `int("\x1c7")` raises |
| Digits.StrOfInt | python/problem_13.py:12 | `str(i)` raises `ValueError` exactly when `abs(i)` has more than 4300 decimal digits, and otherwise is the decimal rendering of `i`, at most 4301 characters long |
| Digits.TooLongFrom | python/problem_13.py:12 | the integers too long to print are exactly those whose magnitude reaches `10^4300` |
| Digits.DecimalLength | python/problem_16.py:6 | a number has more than `k` decimal digits exactly when it is at least `10^k` |
| Digits.PyIntOfDigits | python/problem_55.py:15 | a run of ASCII digits, leading zeros allowed, reads as its decimal value |
| Digits.PyIntPyStr | python/problem_55.py:15 | `int(str(i)) == i` for every integer |
| Digits.GroupedLiteral | python/problem_18.py:5 | `int("1_0") == 10` |
| Digits.UnderscoresDropped | python/problem_18.py:5 | a digit part is read as the decimal value of its digits with the underscores removed |
| Digits.PyIntOfChar | python/problem_8.py:16 | `int()` of one character succeeds exactly for an ASCII digit, and gives that digit's value |
| Digits.MisplacedUnderscores | python/problem_18.py:5 | a doubled, leading or trailing underscore raises `ValueError` |
| Digits.PaddedLiteral | python/problem_18.py:5 | surrounding whitespace is ignored: `int(" -7\n") == -7` |
| Problem18.ParseRender | python/problem_18.py:4-5 | parsing the rendering of any triangle gives it back |
| Problem20.Problem20 | src/problem_20.py:5-7 | raises exactly when the argument is negative, above `LONG_MAX` or `digit!` has more than 4300 digits; `OverflowError` exactly above `LONG_MAX` (`math.factorial` rejects it before computing), `ValueError` otherwise; on success the digit sum of `digit!`, between 1 and 9 times its number of digits |
| Problem20.DefaultDigitPrints | src/problem_20.py:6 | the default argument, 100, gives an answer |
| Problem20.Problem20OfZeroAndOne | python/problem_20.py:6-8 | 0 and 1 both give 1 |
| Problem22.ParseNames | python/problem_22.py:4-5 | sorted, a permutation of the comma-split fields with quotes removed, one name per comma plus one, and no quote or comma inside a name |
| Problem22.ParseNamesOfListing | python/problem_22.py:4-5 | parsing the quoted listing of a sorted list of names gives the list back |
| Problem22.ParseNamesOrderFree | python/problem_22.py:5 | the order of the names in the file does not matter |
| Problem22.Problem22 | python/problem_22.py:13-18 | the score of an empty list is 0, and of upper-case names is non-negative |
| Problem22.Problem22Last | python/problem_22.py:15-18 | one more name adds its letter score times its 1-based position |
| Words.WordValue | src/problem_42.py:28-30 | for an upper-case word of length `L` the value lies in `[L, 26L]` |
| Words.WordValueOfLetter | src/problem_42.py:30 | a capital letter is worth its place in the alphabet |
| Problem36.PalindromicIn10And2 | python/problem_36.py:5-10 | the result is `n` or 0; it is non-zero only when both renderings are palindromes, and for non-zero `n` it is `n` whenever they are |
| Problem36.QualifyingNumbers | python/problem_36.py:5-10 | only positive odd numbers not divisible by 10 can count |
| Problem36.Problem36 | python/problem_36.py:13-15 | the sum is 0 for `num <= 0` and at most the sum of all `k` below `num` |
| Problem36.Problem36IsOddSum | python/problem_36.py:13-15 | the sum below `num` equals the sum of the odd numbers below `num` that read the same backwards in decimal and in binary |
| Problem36.PastEven | python/problem_36.py:15 | extending the range past an even number leaves the sum unchanged |
| Problem36.ContributionOfNatural | python/problem_36.py:5-10 | a natural number contributes itself exactly when its decimal and binary renderings are both palindromes, and nothing otherwise |
| Problem36.ThirtyThree | python/problem_36.py:5-10 | 33, binary 100001, qualifies |
| Problem42.CleanField | src/problem_42.py:35 | a cleaned field has no quote and no lower-case letter, and is no longer than the field |
| Problem42.Parse | src/problem_42.py:33-35 | one entry per comma-separated field, none holding a quote or a comma |
| Problem42.ParseOfListing | python/problem_42.py:32-34 | parsing the quoted listing of upper-case words gives the words back |
| Problem42.InnerBlankSurvives | src/problem_42.py:35 | a blank inside the quotes is kept |
| Problem42.Convert | src/problem_42.py:28-30 | one value per word, each the letter score, in `[L, 26L]` for an upper-case word of length `L` |
| Problem42.TriangleTest | src/problem_42.py:13-24 | `OverflowError` exactly when `2 * t` does not fit a float; otherwise `TypeError` exactly for a negative `t`, whose square root is complex, and true exactly when `t = n(n+1)/2` for some natural `n` |
| Problem42.CountTriangular | src/problem_42.py:44-46 | raises exactly when the test raises on some score, and the error is the kind the first such score raises (`OverflowError` when twice it does not fit a float, `TypeError` otherwise); otherwise the count is at most the length, equals the length exactly when all pass, and is 0 exactly when none pass |
| Problem42.Problem42 | python/problem_42.py:43-45 | raises exactly when the test raises on some score, and the error is the kind the first such score raises (`OverflowError` when twice it does not fit a float, `TypeError` otherwise); otherwise summing booleans gives at most the number of entries |
| Problem42.RevisionsAgree | python/problem_42.py:45 | summing the booleans equals counting the passing entries, so both revisions give the same answer or raise the same error |
| Problem42.BlankWordRaises | src/problem_42.py:24-35 | a word kept as `" A"` scores -31, and counting over it raises `TypeError` |
| Problem42.FirstExceptionWins | src/problem_42.py:44-46 | of a negative and a huge score, whichever comes first decides between `TypeError` and `OverflowError` |
| Problem42.SkyIsTriangular | src/problem_42.py:28-30 | SKY is worth 55, a triangle number |
| Problem55.ReverseAdd | python/problem_55.py:15 | `ValueError` exactly for a negative number; otherwise the number plus its reversal, whose leading zeros are dropped |
| Problem55.IsLychrel | python/problem_55.py:9-16 | `ValueError` exactly when a negative number must be reversed; a palindrome after the first level answers no; passing the depth answers yes |
| Problem55.IsLychrelWithin | python/problem_55.py:9-16 | the same search with `max_depth` passed on to each level |
| Problem55.LychrelWithinMeaning | python/problem_55.py:9-16 | with the depth passed on, the answer is yes exactly when none of the first `d` reverse-and-add results is a palindrome |
| Problem55.DefaultDepthAgrees | python/problem_55.py:16 | at the default depth of 50 the missing forwarding changes nothing |
| Problem55.Problem55 | python/problem_55.py:19-21 | the count is at most `num` |
| Problem55.Problem55Step | python/problem_55.py:21 | `n` is counted exactly when fifty reverse-and-add steps give no palindrome |
| Problem55.AsWrittenIgnoresDepth | python/problem_55.py:16 | `_is_lychrel(19, max_depth=1)` answers no: the search runs past the requested depth to the palindrome 121 |
| Problem55.ForwardedHonoursDepth | python/problem_55.py:9-16 | with the depth passed on, the same question answers yes, since 110 is not a palindrome |
| Digits.ReverseNumberOfTen | python/problem_55.py:15 | 10 reverses to 1 |
| Digits.NegativeNotPalindromic | python/problem_55.py:4-6 | a negative number is never palindromic, since its sign stays in front |

## Left out

- I/O, printing and file reads are not modelled:
  - the data files and `form_path`;
  - `get_data`, `_get_data` and `get_triangle_data`;
  - the runner scripts `src/__main__.py` and `python/__main__.py`.
  - Parsers are modelled on the file contents as strings.
  - `print` is modelled as a list of printed lines.
- Clocks are inputs: `perf_counter` is two real readings passed to each call.
- Floating point is not modelled:
  - `str(float)` is a renderer parameter.
  - `round()` is round-half-even on reals.
- Coroutine mechanics are not modelled: `iscoroutine`, `yield from` and the calls that create the coroutine object. Only the plain/coroutine tag and the `TypeError` checks are kept.
- Argument passing to the wrapped routine is not modelled. What the routine returns or raises on a call is an input.
- `Triangular.IsTriangular`: the float square-root test of `_is_triange_number` is modelled by its documented meaning, `t = n(n+1)/2` for a natural `n`. Rounding error in the float test is not modelled. Where the test raises, `TypeError` for a negative `t` and `OverflowError` when `2 * t` does not fit a float, is `Problem42.TriangleTest`, which the counts use.
- `Problem12.Isqrt`: `int(n**0.5)` is modelled as the exact integer square root. A float square root can be off by one for very large `n`.
- `Problem12.Problem12`: an answer is promised for enough fuel only when `2 * 2^fac` fits a float (`DefaultSearchFits` covers the default). Past that the true first answer may still lie inside the float range, but the model does not bound it.
- `Problem12.Problem12` and `Problem14.Collatz` take a `fuel` bound, for different reasons:
  - The search in `problem_12` runs over an unbounded `count(1)`. With enough fuel it is proved to succeed, so the `ValueError` is reachable only when fuel runs out.
  - `collatz` terminates only if the Collatz conjecture holds. Running out of fuel is reported as `RecursionError`.
- `Problem1.SummationOfProgression`: the `/ 2` is float division in the source. The model uses the exact quotient, which is the same value because `k*(k+1)` is even. Float precision for huge bounds is not modelled, nor is the `OverflowError` the division raises once its result leaves the float range.
- `Problem1.Problem1`: returns the exact sum for every `length`. In the source each series is a float, so past `2^53` the sum is rounded, and for lengths past the float range the float arithmetic raises `OverflowError` (or yields an infinity or NaN that `int()` rejects). Modelling this needs IEEE 754 rounding, which the model leaves out.
- Unicode is not modelled:
  - whitespace means the ASCII and Latin-1 whitespace characters, and for `int()` the ones among them it skips;
  - `int()` reads only ASCII digits, not other Unicode decimal digits;
  - `.upper()` maps only `a`-`z`;
  - `sorted` compares strings by code point.
- `python/problem_1.py` is not part of this model. It computes the same sum as `src/problem_1.py`, but through a foreign JIT compiler with fixed-width integer casts.
- `python/problem_6.py`, `src/problem_6.py` and `python/problem_44.py` are not part of this model. They compute with floats, and the body of `problem_44` is empty.
- `python/problem_67.py` is not part of this model. It only runs `problem_18` on another data file.
- `Digits.PyInt`: CPython's 4300-digit limit on `int(str)` is not modelled: a literal of more than 4300 digits reads as its value, where CPython raises `ValueError`. Bounding every reading would make the triangle parser and the reverse-and-add step of `problem_55` fallible on sizes their data never reaches.
- `Digits.PyStr`: renders integers of any length. The 4300-digit limit is `Digits.StrOfInt`, which `problem_13`, `problem_16` and `problem_20` use. The other callers, `problem_36` and `problem_55`, reach the limit only for a bound of more than 4000 digits.
- `Problem20.LongMax` is `LONG_MAX` of LP64 platforms, `2^63 - 1`. On Windows a C `long` is 32 bits, so `math.factorial` raises `OverflowError` from `2^31` on. Running out of memory while computing a huge factorial is not modelled.
- The digit limit is fixed at CPython's default of 4300. Changing it (`sys.set_int_max_str_digits`, `-X int_max_str_digits`, `PYTHONINTMAXSTRDIGITS`) is not modelled, nor are older interpreters without the limit.
- `Problem16.Problem16`: for a negative power the `ValueError` message does not name the character `int` rejects (`.` or `e`, depending on how the float prints).
- `functools.cache` on the triangle test is not modelled, because caching a pure function changes nothing observable.
- `Problem22.Problem22`: the contract gives the score's empty case and its sign, and `Problem22Last` gives its growth. The name scores of non-letter characters (`ord(c) - 64` can be negative) are not bounded.
- `Problem42.Problem42` counts booleans; the sum of `True` values is modelled as a count, since Python's `True` adds one.

## Findings

| source | as written | input that shows it | evidently intended | confidence | as-written member | corrected member |
|---|---|---|---|---|---|---|
| python/problem_3.py:7-9 | the outer loop runs while `x**2 < of`, so a remaining square of a prime is never divided; the inner loop divides by `x` for as long as `x` divides, so it can leave 1 | `problem_3(9)` returns 9, which is not prime (the guard); `problem_3(8)` returns 1 (the inner loop) | divide by `x` only while `x*x <= of`, otherwise advance `x`; what is left is then the largest prime factor | not executed; high | Problem3.Problem3Counterexamples | Problem3.LargestPrimeFactor |
| python/problem_8.py:15 | starts run up to `length - length % adjacent`, and Python slicing cuts the last windows short | `problem_8("1110099", 3)` returns 81, the product of the two-digit window `99` | only full windows, starts `0 .. length - adjacent` | not executed; high | Problem8.TruncatedWindowCounterexample | Problem8.Problem8FullWindows |
| python/problem_55.py:16 | the recursive call does not pass `max_depth`, so every level after the first uses the default 50 | `_is_lychrel(19, max_depth=1)` returns False after reaching 121 at the second step | the depth passed on, answering True for 19 at depth 1 | not executed; high | Problem55.AsWrittenIgnoresDepth | Problem55.LychrelWithinMeaning |
