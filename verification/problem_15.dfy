/** python/problem_15.py: the number of lattice paths through a square
    grid, the central binomial coefficient, built by exact running division. */
module Problem15 {
  import opened Arith

  /** Pascal's rule: `Binomial(n, k)` ways to choose `k` of `n`. */
  function Binomial(n: nat, k: nat): nat {
    if k == 0 then 1
    else if n == 0 then 0
    else Binomial(n - 1, k - 1) + Binomial(n - 1, k)
  }

  /** The absorption identity `(k+1) * C(n, k+1) == (n-k) * C(n, k)`. */
  lemma {:induction false} Absorption(n: nat, k: nat)
    ensures (k + 1) * Binomial(n, k + 1) == (n - k) * Binomial(n, k)
    decreases n
  {
    if n > 0 {
      Absorption(n - 1, k);
      if k == 0 {
        assert Binomial(n, 1) == 1 + Binomial(n - 1, 1);
      } else {
        Absorption(n - 1, k - 1);
        PascalStep(n, k, Binomial(n - 1, k - 1), Binomial(n - 1, k), Binomial(n - 1, k + 1));
      }
    } else if k == 0 {
      assert Binomial(0, 1) == 0;
    }
  }

  /** The arithmetic of the inductive step of `Absorption`, with
      `a, b, c` for `C(n-1, k-1), C(n-1, k), C(n-1, k+1)`. */
  lemma PascalStep(n: int, k: int, a: int, b: int, c: int)
    requires (k + 1) * c == (n - 1 - k) * b
    requires k * b == (n - k) * a
    ensures (k + 1) * (b + c) == (n - k) * (a + b)
  {
    assert (k + 1) * (b + c) == (k + 1) * b + (k + 1) * c;
    assert (k + 1) * b + (n - 1 - k) * b == n * b;
    assert (n - k) * (a + b) == (n - k) * a + (n - k) * b;
    assert k * b + (n - k) * b == n * b;
  }

  lemma {:induction false} BinomialPositive(n: nat, k: nat)
    requires k <= n
    ensures Binomial(n, k) > 0
    decreases n
  {
    if k > 0 {
      BinomialPositive(n - 1, k - 1);
    }
  }

  /** `problem_15(grid_size)`: after `i` rounds `ret` is `C(2g, i)`; each
      floor division is exact. A grid size that is not positive leaves the
      loop unentered and returns 1. */
  method Problem15(gridSize: int) returns (ret: int)
    ensures gridSize >= 0 ==> ret == Binomial(2 * gridSize, gridSize)
    ensures gridSize <= 0 ==> ret == 1
    ensures ret > 0
  {
    ret := 1;
    var i := 0;
    while i < gridSize
      invariant 0 <= i && (i <= gridSize || i == 0)
      invariant gridSize >= 0 ==> ret == Binomial(2 * gridSize, i)
      invariant i == 0 ==> ret == 1
      invariant ret > 0
    {
      ExactStep(2 * gridSize, i);
      BinomialPositive(2 * gridSize, i + 1);
      ret := ret * (2 * gridSize - i) / (i + 1);
      i := i + 1;
    }
  }

  /** `C(n, i) * (n - i)` is a multiple of `i + 1`, and the quotient is `C(n, i + 1)`. */
  lemma ExactStep(n: nat, i: nat)
    requires i < n
    ensures Binomial(n, i) * (n - i) / (i + 1) == Binomial(n, i + 1)
  {
    Absorption(n, i);
    assert Binomial(n, i) * (n - i) == (i + 1) * Binomial(n, i + 1) + 0;
    DivUnique(Binomial(n, i) * (n - i), i + 1, Binomial(n, i + 1), 0);
  }

  /** The grid has as many paths choosing where to go down as choosing where
      to go right: `C(n, k) == C(n, n - k)`. */
  lemma {:induction false} BinomialSymmetric(n: nat, k: nat)
    requires k <= n
    ensures Binomial(n, k) == Binomial(n, n - k)
    decreases n
  {
    if n > 0 {
      if k == 0 {
        BinomialTop(n);
      } else if k == n {
        BinomialTop(n);
      } else {
        BinomialSymmetric(n - 1, k - 1);
        BinomialSymmetric(n - 1, k);
        assert Binomial(n, n - k) == Binomial(n - 1, n - k - 1) + Binomial(n - 1, n - k);
      }
    }
  }

  lemma {:induction false} BinomialTop(n: nat)
    ensures Binomial(n, n) == 1
    decreases n
  {
    if n > 0 {
      BinomialTop(n - 1);
      BinomialAbove(n - 1, n);
    }
  }

  lemma {:induction false} BinomialAbove(n: nat, k: nat)
    requires k > n
    ensures Binomial(n, k) == 0
    decreases n
  {
    if n > 0 {
      BinomialAbove(n - 1, k - 1);
      BinomialAbove(n - 1, k);
    }
  }
}
