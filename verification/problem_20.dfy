/** src/problem_20.py and python/problem_20.py (the same code): the digit
    sum of a factorial. */
module Problem20 {
  import opened Wrappers
  import opened Digits
  import opened Arith

  function Factorial(n: nat): (r: nat)
    ensures r >= 1
  {
    if n == 0 then 1 else n * Factorial(n - 1)
  }

  /** `LONG_MAX` of a C `long` on LP64 platforms: the largest argument
      `math.factorial` accepts. */
  const LongMax: int := 0x7fff_ffff_ffff_ffff

  /** `sum(map(int, str(factorial(digit))))`. `math.factorial` reads its
      argument as a C `long` before computing anything: above `LongMax` it
      raises `OverflowError`, and for a negative argument `ValueError`.
      Then `str` raises `ValueError` for a factorial of more than
      `MaxStrDigits` digits. */
  function Problem20(digit: int): (r: Result<nat>)
    ensures r.Err? <==> digit < 0 || digit > LongMax || TooLongToPrint(Factorial(digit))
    ensures r.Err? && r.error.OverflowError? <==> digit > LongMax
    ensures r.Err? ==> r.error.ValueError? || r.error.OverflowError?
    ensures r.Ok? ==> r.value == DigitSum(Factorial(digit))
    ensures r.Ok? ==> 1 <= r.value <= 9 * |DecimalString(Factorial(digit))|
  {
    if digit > LongMax then
      Err(OverflowError("factorial() argument should not exceed 9223372036854775807"))
    else if digit < 0 then Err(ValueError("factorial() not defined for negative values"))
    else
      match StrOfInt(Factorial(digit))
      case Err(e) => Err(e)
      case Ok(_) => Ok(DecimalDigitSum(Factorial(digit)))
  }

  lemma Problem20OfZeroAndOne()
    ensures Problem20(0) == Ok(1) && Problem20(1) == Ok(1)
  {
    assert DigitSum(1) == 1;
  }

  /** `10! == 3628800`, whose digits sum to 27. */
  lemma Problem20OfTen()
    ensures Problem20(10) == Ok(27)
  {
    assert Factorial(10) == 3628800;
    SmallPrints(3628800);
    assert DigitSum(3628800) == 27;
  }

  /** A factorial of at most 100 has at most two digits per factor. */
  lemma {:induction false} FactorialAtMostPow10(n: nat)
    requires n <= 100
    ensures Factorial(n) <= Pow10(2 * n)
  {
    if n > 0 {
      FactorialAtMostPow10(n - 1);
      MulMonotone(n, Factorial(n - 1), 100, Pow10(2 * (n - 1)));
      assert Pow10(2 * n) == 100 * Pow10(2 * (n - 1));
    }
  }

  /** The default argument, 100, is well inside the limit. */
  lemma DefaultDigitPrints()
    ensures Problem20(100).Ok?
  {
    FactorialAtMostPow10(100);
    Pow10Increasing(200, MaxStrDigits);
    TooLongFrom(Factorial(100));
  }
}
