/** src/problem_2.py: the sum of the even Fibonacci numbers below a bound,
    walking the sequence three terms at a time. */
module Problem2 {

  /** Reference: `Fib(0) = 0, Fib(1) = 1`, each term the sum of the two before. */
  function Fib(n: nat): nat {
    if n < 2 then n else Fib(n - 1) + Fib(n - 2)
  }

  /** Every third Fibonacci number is even, and no other is. */
  lemma {:induction false} FibParity(n: nat)
    ensures Fib(n) % 2 == 0 <==> n % 3 == 0
    decreases n
  {
    if n >= 3 {
      FibParity(n - 3);
      assert Fib(n) == 2 * Fib(n - 2) + Fib(n - 3);
      AddEvenKeepsParity(Fib(n - 2), Fib(n - 3));
      AddThreeKeepsResidue(n - 3);
    }
  }

  lemma AddEvenKeepsParity(x: int, y: int)
    ensures (2 * x + y) % 2 == y % 2
  {
  }

  lemma AddThreeKeepsResidue(n: int)
    ensures (n + 3) % 3 == n % 3
  {
  }

  lemma {:induction false} FibMonotone(m: nat, n: nat)
    requires 1 <= m <= n
    ensures Fib(m) <= Fib(n)
    decreases n - m
  {
    if m < n {
      FibMonotone(m, n - 1);
    }
  }

  lemma {:induction false} FibAtLeastIndex(n: nat)
    ensures Fib(n) + 1 >= n
    decreases n
  {
    if n >= 3 {
      FibAtLeastIndex(n - 1);
      FibMonotone(1, n - 2);
    }
  }

  /** Reference: the sum of the even Fibonacci terms below `lim` among `Fib(1..n)`. */
  function EvenFibsBelow(lim: int, n: nat): int {
    if n == 0 then 0
    else EvenFibsBelow(lim, n - 1) + (if Fib(n) % 2 == 0 && Fib(n) < lim then Fib(n) else 0)
  }

  /** Terms at or above `lim` add nothing, so the sum stops growing once they start. */
  lemma {:induction false} EvenFibsBelowSettles(lim: int, m: nat, n: nat)
    requires m <= n
    requires forall k :: m < k <= n ==> Fib(k) >= lim
    ensures EvenFibsBelow(lim, n) == EvenFibsBelow(lim, m)
    decreases n - m
  {
    if m < n {
      EvenFibsBelowSettles(lim, m, n - 1);
    }
  }

  /** One turn of the loop: of the next three terms only the first is even. */
  lemma EvenFibsBelowStep(lim: int, i: nat)
    requires Fib(3 * i + 3) < lim
    ensures EvenFibsBelow(lim, 3 * i + 5) == EvenFibsBelow(lim, 3 * i + 2) + Fib(3 * i + 3)
  {
    var n := 3 * i + 3;
    ThreeResidues(i);
    FibParity(n);
    FibParity(n + 1);
    FibParity(n + 2);
    assert EvenFibsBelow(lim, n) == EvenFibsBelow(lim, n - 1) + Fib(n);
    assert EvenFibsBelow(lim, n + 1) == EvenFibsBelow(lim, n);
    assert EvenFibsBelow(lim, n + 2) == EvenFibsBelow(lim, n + 1);
  }

  lemma ThreeResidues(i: nat)
    ensures (3 * i + 3) % 3 == 0 && (3 * i + 4) % 3 == 1 && (3 * i + 5) % 3 == 2
  {
  }

  /** Once an even term reaches `lim`, the partial sum is the whole sum. */
  lemma EvenFibsBelowDone(lim: int, i: nat, n: nat)
    requires Fib(3 * i + 3) >= lim && n >= lim + 1
    ensures EvenFibsBelow(lim, n) == EvenFibsBelow(lim, 3 * i + 2)
  {
    forall k | 3 * i + 2 < k ensures Fib(k) >= lim {
      FibMonotone(3 * i + 3, k);
    }
    forall k | lim + 1 < k ensures Fib(k) >= lim {
      FibAtLeastIndex(k);
    }
    if n >= 3 * i + 2 {
      EvenFibsBelowSettles(lim, 3 * i + 2, n);
    } else {
      EvenFibsBelowSettles(lim, n, 3 * i + 2);
    }
  }

  /** `problem_2(lim)`: `(a, b, c)` are always three consecutive Fibonacci
      numbers, `c` the even one, and `d` the sum of the `c` already visited. */
  method Problem2(lim: int) returns (d: int)
    ensures forall n: nat :: n >= lim + 1 ==> d == EvenFibsBelow(lim, n)
    ensures lim <= 2 ==> d == 0
  {
    var a, b, c := 1, 1, 2;
    d := 0;
    ghost var i: nat := 0;
    assert Fib(2) == 1;
    assert EvenFibsBelow(lim, 1) == 0;
    while lim > c
      invariant a == Fib(3 * i + 1) && b == Fib(3 * i + 2) && c == Fib(3 * i + 3)
      invariant b >= 1 && c >= 2
      invariant d == EvenFibsBelow(lim, 3 * i + 2)
      invariant lim <= 2 ==> d == 0
      decreases lim - c
    {
      EvenFibsBelowStep(lim, i);
      d := d + c;
      a := b + c;
      b := a + c;
      c := a + b;
      i := i + 1;
    }
    forall n: nat | n >= lim + 1
      ensures d == EvenFibsBelow(lim, n)
    {
      EvenFibsBelowDone(lim, i, n);
    }
  }
}
