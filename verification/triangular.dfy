/** Triangle numbers `n(n+1)/2`, shared by the divisor search and the word
    puzzle. */
module Triangular {
  import opened Arith

  /** `n * (n + 1) >> 1`: the product of two neighbours is even, so the shift
      loses nothing. */
  function Tri(n: int): (t: int)
    ensures 2 * t == n * (n + 1)
    ensures t >= 0
  {
    ConsecutiveProductEven(n);
    n * (n + 1) / 2
  }

  /** `n * (n + 1)` is even and never negative, for every integer `n`. */
  lemma ConsecutiveProductEven(n: int)
    ensures (n * (n + 1)) % 2 == 0 && n * (n + 1) >= 0
  {
    var q := n / 2;
    DivStep(n + 1, 2);
    if n % 2 == 0 {
      assert n == 2 * q;
      MulAssoc(2, q, n + 1);
      MultipleHasNoRemainder(n * (n + 1), 2, q * (n + 1));
    } else {
      assert n + 1 == 2 * (q + 1);
      MulAssoc(n, 2, q + 1);
      MulRotate(n, 2, q + 1);
      MultipleHasNoRemainder(n * (n + 1), 2, (q + 1) * n);
    }
    ConsecutiveProductSign(n);
  }

  lemma ConsecutiveProductSign(n: int)
    ensures n * (n + 1) >= 0
  {
    if n >= 0 {
      MulMonotone(0, 0, n, n + 1);
    } else {
      NegateBoth(-n, -n - 1);
      MulMonotone(0, 0, -n, -n - 1);
    }
  }

  lemma NegateBoth(a: int, b: int)
    ensures (-a) * (-b) == a * b
  {
  }

  lemma TriStep(n: int)
    ensures Tri(n + 1) == Tri(n) + n + 1
  {
  }

  lemma {:induction false} TriMonotone(m: nat, n: nat)
    requires m <= n
    ensures Tri(m) <= Tri(n)
    decreases n - m
  {
    if m < n {
      TriMonotone(m + 1, n);
      TriStep(m);
    }
  }

  lemma {:induction false} TriAtLeast(n: nat)
    ensures Tri(n) >= n
  {
    TriStep(n - 1);
  }

  /** The first `n >= from` whose triangle number reaches `t`. */
  function TriangleRoot(t: int, from: nat): (n: nat)
    requires forall k :: 0 <= k < from ==> Tri(k) < t
    ensures n >= from && Tri(n) >= t
    ensures forall k :: 0 <= k < n ==> Tri(k) < t
    decreases if t > from then t - from else 0
  {
    if Tri(from) >= t then from
    else
      TriAtLeast(from);
      TriStep(from);
      TriangleRoot(t, from + 1)
  }

  /** `t == n(n+1)/2` for a natural `n`. */
  ghost predicate TriangleNumber(t: int) {
    exists n: nat :: Tri(n) == t
  }

  /** The documented meaning of the triangle test: `t == n(n+1)/2` for a natural `n`. */
  function IsTriangular(t: int): (b: bool)
    ensures b <==> TriangleNumber(t)
  {
    var n := TriangleRoot(t, 0);
    if Tri(n) == t then true
    else
      NoRootBeyond(t, n);
      false
  }

  lemma NoRootBeyond(t: int, n: nat)
    requires Tri(n) > t
    requires forall k :: 0 <= k < n ==> Tri(k) < t
    ensures forall k: nat :: Tri(k) != t
  {
    forall k: nat
      ensures Tri(k) != t
    {
      if k > n {
        TriMonotone(n, k);
      }
    }
  }
}
