/** src/problem_1.py: the sum of the multiples of 3 or 5 below a bound, by
    inclusion and exclusion over three arithmetic series. */
module Problem1 {
  import opened Arith

  /** Reference: the sum of the multiples of `d` in `1..n`, one term at a time. */
  function SumOfMultiples(n: int, d: int): int
    requires d > 0
    decreases if n > 0 then n else 0
  {
    if n <= 0 then 0 else SumOfMultiples(n - 1, d) + (if n % d == 0 then n else 0)
  }

  /** Reference: the sum of the numbers in `0..n-1` divisible by 3 or by 5. */
  function SumOfThreeOrFive(n: int): int
    decreases if n > 0 then n else 0
  {
    if n <= 0 then 0
    else SumOfThreeOrFive(n - 1) + (if (n - 1) % 3 == 0 || (n - 1) % 5 == 0 then n - 1 else 0)
  }

  /** `_summation_of_progression(leng, num)`: `num + 2*num + ... + k*num` with
      `k = leng // num`. The source halves with float division; the product
      `k*(k+1)` is even, so the exact integer quotient is the value meant. */
  function SummationOfProgression(leng: int, num: int): (r: int)
    requires num > 0
    ensures leng >= 0 ==> r == SumOfMultiples(leng, num)
  {
    var k := leng / num;
    ProgressionSumMatches(leng, num);
    (k * (num + num * k)) / 2
  }

  /** Reference: `1 + 2 + ... + k`. */
  function Triangle(k: nat): nat {
    if k == 0 then 0 else Triangle(k - 1) + k
  }

  lemma {:induction false} TriangleClosedForm(k: nat)
    ensures 2 * Triangle(k) == k * (k + 1)
  {
    if k > 0 {
      TriangleClosedForm(k - 1);
      assert k * (k + 1) == (k - 1) * k + 2 * k;
    }
  }

  lemma {:induction false} SumOfMultiplesSeries(n: int, d: int)
    requires d > 0 && n >= 0
    ensures SumOfMultiples(n, d) == d * Triangle(n / d)
    decreases n
  {
    if n > 0 {
      SumOfMultiplesSeries(n - 1, d);
      var k := (n - 1) / d;
      DivStep(n, d);
      if n % d == 0 {
        MultipleIsProduct(n, d);
        DistributeStep(d, k);
      }
    }
  }

  lemma DistributeStep(d: int, k: nat)
    ensures d * Triangle(k + 1) == d * Triangle(k) + d * (k + 1)
  {
  }

  lemma ProgressionSumMatches(n: int, d: int)
    requires d > 0
    ensures n >= 0 ==> SumOfMultiples(n, d) == ((n / d) * (d + d * (n / d))) / 2
  {
    if n >= 0 {
      var k := n / d;
      SumOfMultiplesSeries(n, d);
      TriangleClosedForm(k);
      HalveProgression(k, d);
    }
  }

  lemma HalveProgression(k: nat, d: int)
    requires 2 * Triangle(k) == k * (k + 1)
    ensures (k * (d + d * k)) / 2 == d * Triangle(k)
  {
    assert k * (d + d * k) == d * (k * (k + 1));
    assert k * (d + d * k) == 2 * (d * Triangle(k));
  }

  /** `problem_1(length)`: only multiples strictly below `length` count. */
  function Problem1(length: int): (r: int)
    ensures length >= 1 ==> r == SumOfThreeOrFive(length)
  {
    var l := length - 1;
    InclusionExclusion(l);
    SummationOfProgression(l, 3) + SummationOfProgression(l, 5) - SummationOfProgression(l, 15)
  }

  /** Multiples of both 3 and 5 are exactly the multiples of 15. */
  lemma BothIffFifteen(x: int)
    ensures (x % 3 == 0 && x % 5 == 0) <==> x % 15 == 0
  {
    var r := x % 15;
    assert x == 15 * (x / 15) + r;
    assert x % 3 == r % 3 by {
      assert x == 3 * (5 * (x / 15)) + r;
    }
    assert x % 5 == r % 5 by {
      assert x == 5 * (3 * (x / 15)) + r;
    }
  }

  lemma {:induction false} InclusionExclusion(n: int)
    ensures n >= 0 ==>
      SumOfThreeOrFive(n + 1) == SumOfMultiples(n, 3) + SumOfMultiples(n, 5) - SumOfMultiples(n, 15)
    decreases if n > 0 then n else 0
  {
    if n > 0 {
      InclusionExclusion(n - 1);
      BothIffFifteen(n);
    }
  }

  lemma Problem1OfOne()
    ensures Problem1(1) == 0
  {
  }
}
