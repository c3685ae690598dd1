/** python/problem_16.py: the digit sum of a power of two. */
module Problem16 {
  import opened Wrappers
  import opened Digits
  import opened Floats

  /** `sum(map(int, str(2 ** power)))`.
      A negative power makes `2 ** power` a float, which first converts the
      exponent to a float (`OverflowError` from `FloatOverflow` on); the
      `str` of the float holds a `.` or an `e` that `int` rejects.
      A non-negative power makes an integer whose `str` raises `ValueError`
      beyond `MaxStrDigits` digits. */
  function Problem16(power: int): (r: Result<nat>)
    ensures r.Err? <==> power < 0 || TooLongToPrint(Pow2(power))
    ensures r.Err? && r.error.OverflowError? <==> power <= -FloatOverflow
    ensures r.Err? ==> r.error.ValueError? || r.error.OverflowError?
    ensures r.Ok? ==> r.value == DigitSum(Pow2(power))
    ensures r.Ok? ==> 1 <= r.value <= 9 * |DecimalString(Pow2(power))|
  {
    if power < 0 then
      if -power >= FloatOverflow then Err(OverflowError("int too large to convert to float"))
      else Err(ValueError("invalid literal for int() with base 10"))
    else
      match StrOfInt(Pow2(power))
      case Err(e) => Err(e)
      case Ok(_) =>
        Pow2Positive(power);
        Ok(DecimalDigitSum(Pow2(power)))
  }

  lemma Problem16OfZero()
    ensures Problem16(0) == Ok(1)
  {
    assert DigitSum(1) == 1;
  }

  /** `2 ** 15 == 32768`, whose digits sum to 26. */
  lemma Problem16OfFifteen()
    ensures Problem16(15) == Ok(26)
  {
    assert Pow2(15) == 32768;
    SmallPrints(32768);
    assert DigitSum(32768) == 26;
  }

  /** A power of two has at most as many digits as its exponent plus one. */
  lemma {:induction false} Pow2AtMostPow10(n: nat)
    ensures Pow2(n) <= Pow10(n)
  {
    if n > 0 {
      Pow2AtMostPow10(n - 1);
    }
  }

  /** Once a power is too long to print, every larger power is too. */
  lemma LimitIsUpward(p: nat, q: nat)
    requires p <= q && Problem16(p).Err?
    ensures Problem16(q).Err?
  {
    TooLongFrom(Pow2(p));
    TooLongFrom(Pow2(q));
    if p < q {
      Pow2Increasing(p, q);
    }
  }

  /** The default argument, 1000, is well inside the limit. */
  lemma DefaultPowerPrints()
    ensures Problem16(1000).Ok?
  {
    Pow2AtMostPow10(1000);
    Pow10Increasing(1000, MaxStrDigits);
    TooLongFrom(Pow2(1000));
  }
}
