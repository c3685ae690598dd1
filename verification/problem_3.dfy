/** python/problem_3.py: the largest prime factor by trial division.

    As written, the outer loop runs while `x*x < of`, so a remaining factor
    equal to `x*x` is never split; and the inner loop divides `of` by `x`
    for as long as `x` divides it, so it can leave 1. The model keeps that loop (`Problem3`) and proves
    what it does compute, and gives the corrected search
    (`LargestPrimeFactor`) with the property the puzzle asks for. */
module Problem3 {
  import opened Arith
  import opened Divisibility

  /** The outer loop from `x` on. `forall d :: 2 <= d < x ==> !Divides(d, of)`
      is the loop invariant the earlier iterations establish. */
  function TrialDivide(of: int, x: int): (r: int)
    requires x >= 2
    requires forall d :: 2 <= d < x ==> !Divides(d, of)
    ensures of >= 1 ==> r >= 1 && Divides(r, of)
    ensures of >= 1 ==> r == 1 || IsPrime(r) || (exists p :: IsPrime(p) && r == p * p)
    ensures of < 1 ==> r == of
    decreases of - x
  {
    if x * x < of then
      var q := DivideOut(of, x);
      assert forall d :: 2 <= d < x + 1 ==> !Divides(d, q) by {
        forall d | 2 <= d < x + 1 && Divides(d, q)
          ensures false
        {
          DivideOutKeepsDivisors(of, x, d);
        }
      }
      DividesBound(q, of);
      var r := TrialDivide(q, x + 1);
      DividesTransitive(r, q, of);
      r
    else
      if of >= 2 && of < x * x then
        PrimeBelowSquare(of, x);
        of
      else if of >= 2 then
        SquareOfPrime(of, x);
        of
      else
        of
  }

  /** When the loop stops on `of == x*x` with no divisor below `x`, `x` is prime. */
  lemma SquareOfPrime(of: int, x: int)
    requires x >= 2 && of == x * x
    requires forall d :: 2 <= d < x ==> !Divides(d, of)
    ensures IsPrime(x)
  {
    forall d | 2 <= d < x
      ensures !Divides(d, x)
    {
      if Divides(d, x) {
        DividesMultiple(d, x, x);
      }
    }
  }

  /** `problem_3(of)` as written. */
  function Problem3(of: int): (r: int)
    ensures of >= 1 ==> r >= 1 && Divides(r, of)
    ensures of >= 1 ==> r == 1 || IsPrime(r) || (exists p :: IsPrime(p) && r == p * p)
    ensures of < 1 ==> r == of
  {
    TrialDivide(of, 2)
  }

  lemma Problem3OfOne()
    ensures Problem3(1) == 1
  {
  }

  /** The strict guard leaves a prime square unsplit: 9 is returned for 9,
      whose largest prime factor is 3. The inner loop divides 8 down to 1,
      not 2. */
  lemma Problem3Counterexamples()
    ensures Problem3(9) == 9 && !IsPrime(9)
    ensures Problem3(8) == 1
  {
    assert DivideOut(9, 2) == 9;
    assert TrialDivide(9, 3) == 9;
    assert Divides(3, 9);
    assert DivideOut(1, 2) == 1;
    assert DivideOut(2, 2) == 1;
    assert DivideOut(4, 2) == 1;
    assert DivideOut(8, 2) == 1;
    assert TrialDivide(1, 3) == 1;
  }

  /** Trial division as intended: divide by `x` while `x*x <= of` still
      allows a second factor, otherwise move on to `x + 1`. The remaining
      `of` is the largest prime factor; inputs below 2 are returned as they
      are, as the source returns them. */
  method LargestPrimeFactor(of0: int) returns (of: int)
    ensures of0 >= 2 ==> IsPrime(of) && Divides(of, of0)
    ensures of0 >= 2 ==> forall p :: IsPrime(p) && Divides(p, of0) ==> p <= of
    ensures of0 < 2 ==> of == of0
  {
    of := of0;
    var x := 2;
    while x * x <= of
      invariant x >= 2
      invariant of0 < 2 ==> of == of0
      invariant of0 >= 2 ==> x <= of && Divides(of, of0)
      invariant forall d :: 2 <= d < x ==> !Divides(d, of)
      invariant forall p :: IsPrime(p) && Divides(p, of0) && !Divides(p, of) ==> p <= x
      decreases of, of - x
    {
      if of % x == 0 {
        DividingKeepsInvariant(of0, of, x);
        of := of / x;
      } else {
        MulAtLeast(x, x);
        x := x + 1;
      }
    }
    if of0 >= 2 {
      LoopExit(of0, of, x);
    }
  }

  /** On exit `of` is prime and every prime factor of the input is at most `of`. */
  lemma LoopExit(of0: int, of: int, x: int)
    requires 2 <= x <= of < x * x && Divides(of, of0)
    requires forall d :: 2 <= d < x ==> !Divides(d, of)
    requires forall p :: IsPrime(p) && Divides(p, of0) && !Divides(p, of) ==> p <= x
    ensures IsPrime(of) && forall p :: IsPrime(p) && Divides(p, of0) ==> p <= of
  {
    PrimeBelowSquare(of, x);
    forall p | IsPrime(p) && Divides(p, of0) && Divides(p, of)
      ensures p <= of
    {
      DividesBound(p, of);
    }
  }

  /** Dividing `of` by `x` when `x*x <= of` keeps every invariant of the loop. */
  lemma DividingKeepsInvariant(of0: int, of: int, x: int)
    requires 2 <= x && x * x <= of && Divides(x, of) && Divides(of, of0)
    requires forall d :: 2 <= d < x ==> !Divides(d, of)
    requires forall p :: IsPrime(p) && Divides(p, of0) && !Divides(p, of) ==> p <= x
    ensures x <= of / x < of && Divides(of / x, of0)
    ensures forall d :: 2 <= d < x ==> !Divides(d, of / x)
    ensures forall p :: IsPrime(p) && Divides(p, of0) && !Divides(p, of / x) ==> p <= x
  {
    var q := of / x;
    QuotientBounds(of, x);
    DividesTransitive(q, of, of0);
    forall d | 2 <= d < x
      ensures !Divides(d, q)
    {
      if Divides(d, q) {
        DividesTransitive(d, q, of);
      }
    }
    forall p | IsPrime(p) && Divides(p, of0) && !Divides(p, q)
      ensures p <= x
    {
      if Divides(p, of) {
        PrimeOfQuotient(p, of, x);
      }
    }
  }

  lemma QuotientBounds(of: int, x: int)
    requires 2 <= x && x * x <= of && Divides(x, of)
    ensures x <= of / x < of && Divides(of / x, of) && of == x * (of / x)
  {
    Cofactor(x, of);
    var q := of / x;
    MulCancelLe(x, x, q);
    MulAtLeast(q, x - 1);
    assert of == q * (x - 1) + q;
  }

  /** A prime that divides `of` but not `of / x` divides `x`. */
  lemma PrimeOfQuotient(p: int, of: int, x: int)
    requires IsPrime(p) && 2 <= x && Divides(x, of) && of > 0
    requires Divides(p, of) && !Divides(p, of / x)
    ensures p <= x
  {
    Cofactor(x, of);
    Euclid(p, x, of / x);
    DividesBound(p, x);
  }
}
