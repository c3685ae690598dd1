/** Divisibility and primes on the integers, as the trial-division puzzles
    use them: `d` divides `n` when `n % d == 0` for a positive `d`. */
module Divisibility {
  import opened Arith

  predicate Divides(d: int, n: int) {
    d > 0 && n % d == 0
  }

  predicate IsPrime(p: int) {
    p >= 2 && forall d :: 2 <= d < p ==> !Divides(d, p)
  }

  /** `x ** k` */
  function Pow(x: int, k: nat): int {
    if k == 0 then 1 else x * Pow(x, k - 1)
  }

  lemma MulDivides(d: int, q: int)
    requires d > 0
    ensures Divides(d, d * q) && (d * q) / d == q
  {
    DivUnique(d * q, d, q, 0);
  }

  /** A divisor of `n` is a divisor of every multiple of `n`. */
  lemma DividesMultiple(d: int, n: int, m: int)
    requires Divides(d, n)
    ensures Divides(d, n * m)
  {
    var k := n / d;
    assert n == d * k;
    assert n * m == d * (k * m);
    MulDivides(d, k * m);
  }

  lemma DividesTransitive(a: int, b: int, c: int)
    requires Divides(a, b) && Divides(b, c)
    ensures Divides(a, c)
  {
    var k := c / b;
    assert c == b * k;
    DividesMultiple(a, b, k);
  }

  /** A positive multiple is at least as large as its divisor. */
  lemma DividesBound(d: int, n: int)
    requires Divides(d, n) && n > 0
    ensures d <= n
  {
    var k := n / d;
    assert n == d * k;
    MulAtLeast(d, k);
  }

  /** The cofactor `n / d` of a divisor is a divisor too. */
  lemma Cofactor(d: int, n: int)
    requires Divides(d, n) && n > 0
    ensures n / d > 0 && Divides(n / d, n) && n == d * (n / d)
  {
    var k := n / d;
    assert n == d * k;
    assert n == k * d;
    MulDivides(k, d);
  }

  /** Euclid's lemma for a factor below the prime: `p | a*b` and `0 < a < p`
      give `p | b`. Each step replaces `a` by `p % a`, a smaller factor. */
  lemma {:induction false} EuclidBelow(p: int, a: int, b: int)
    requires IsPrime(p) && 0 < a < p && Divides(p, a * b)
    ensures Divides(p, b)
    decreases a
  {
    if a > 1 {
      var k := p / a;
      var r := p % a;
      assert p == a * k + r;
      assert r != 0 by {
        if r == 0 {
          assert Divides(a, p);
        }
      }
      var m := (a * b) / p;
      assert a * b == p * m;
      assert r * b == p * (b - k * m) by {
        assert r * b == p * b - k * (a * b);
      }
      MulDivides(p, b - k * m);
      EuclidBelow(p, r, b);
    }
  }

  /** Euclid's lemma: a prime dividing a product divides one of its factors. */
  lemma Euclid(p: int, a: int, b: int)
    requires IsPrime(p) && Divides(p, a * b)
    ensures Divides(p, a) || Divides(p, b)
  {
    var q := a / p;
    var r := a % p;
    assert a == p * q + r;
    if r != 0 {
      var m := (a * b) / p;
      assert a * b == p * m;
      assert r * b == p * (m - q * b) by {
        assert r * b == a * b - p * (q * b);
      }
      MulDivides(p, m - q * b);
      EuclidBelow(p, r, b);
    }
  }

  /** A divisor `d >= x` of `n < x*x` has a cofactor below `x`. */
  lemma SmallCofactor(d: int, n: int, x: int)
    requires 2 <= x <= d < n < x * x && Divides(d, n)
    ensures 2 <= n / d < x && Divides(n / d, n)
  {
    Cofactor(d, n);
    var e := n / d;
    if e >= x {
      MulMonotone(x, x, d, e);
    }
  }

  /** A number with no divisor in `[2, x)` and smaller than `x*x` is prime. */
  lemma PrimeBelowSquare(n: int, x: int)
    requires 2 <= x && 2 <= n < x * x
    requires forall d :: 2 <= d < x ==> !Divides(d, n)
    ensures IsPrime(n)
  {
    forall d | 2 <= d < n
      ensures !Divides(d, n)
    {
      if Divides(d, n) && d >= x {
        SmallCofactor(d, n, x);
      }
    }
  }

  /** Dividing by a factor `x >= 2` leaves a smaller positive divisor. */
  lemma QuotientBelow(of: int, x: int)
    requires of >= 1 && x >= 2 && of % x == 0
    ensures 1 <= of / x < of && Divides(of / x, of)
  {
    Cofactor(x, of);
    MulMonotone(2, of / x, x, of / x);
  }

  /** `while of % x == 0: of //= x`: every factor `x` divided out. */
  function DivideOut(of: int, x: int): (r: int)
    requires of >= 1 && x >= 2
    ensures r >= 1 && Divides(r, of) && !Divides(x, r)
    decreases of
  {
    if of % x == 0 then
      QuotientBelow(of, x);
      var r := DivideOut(of / x, x);
      DividesTransitive(r, of / x, of);
      r
    else
      MulDivides(of, 1);
      of
  }

  /** How many times `x` divides out of `of`. */
  function Multiplicity(of: int, x: int): nat
    requires of >= 1 && x >= 2
    decreases of
  {
    if of % x == 0 then
      QuotientBelow(of, x);
      1 + Multiplicity(of / x, x)
    else 0
  }

  /** The factors divided out times what remains is what there was. */
  lemma {:induction false} DivideOutRemovesPower(of: int, x: int)
    requires of >= 1 && x >= 2
    ensures of == DivideOut(of, x) * Pow(x, Multiplicity(of, x))
    decreases of
  {
    if of % x == 0 {
      Cofactor(x, of);
      var q := of / x;
      DivideOutRemovesPower(q, x);
      var r := DivideOut(q, x);
      var k := Multiplicity(q, x);
      assert of == x * (r * Pow(x, k));
      MulAssoc(x, r, Pow(x, k));
      MulAssoc(r, x, Pow(x, k));
    }
  }

  /** A divisor of what remains is a divisor of what there was. */
  lemma DivideOutKeepsDivisors(of: int, x: int, d: int)
    requires of >= 1 && x >= 2 && Divides(d, DivideOut(of, x))
    ensures Divides(d, of)
  {
    DividesTransitive(d, DivideOut(of, x), of);
  }

  /** Dividing out `p` from `m * p^k` removes exactly `k` factors when `p`
      does not divide `m`. */
  lemma {:induction false} PowerSplit(n: int, m: int, p: int, k: nat)
    requires p >= 2 && m >= 1 && !Divides(p, m) && n == m * Pow(p, k)
    ensures n >= 1 && Multiplicity(n, p) == k && DivideOut(n, p) == m
    decreases k
  {
    PowPositive(p, k);
    PositiveProduct(m, Pow(p, k));
    if k > 0 {
      var q := m * Pow(p, k - 1);
      assert n == p * q;
      MulDivides(p, q);
      PowerSplit(q, m, p, k - 1);
    }
  }

  lemma PositiveProduct(a: int, b: int)
    requires a >= 1 && b >= 1
    ensures a * b >= 1 && a * b >= a && a * b >= b
  {
    MulAtLeast(a, b);
    MulAtLeast(b, a);
  }

  lemma {:induction false} PowPositive(x: int, k: nat)
    requires x >= 1
    ensures Pow(x, k) >= 1
    decreases k
  {
    if k > 0 {
      PowPositive(x, k - 1);
      PositiveProduct(x, Pow(x, k - 1));
    }
  }

  /** The least divisor of `n` from `d` on, when none lies in `[2, d)`. */
  function SmallestFactorFrom(n: int, d: int): (p: int)
    requires 2 <= d <= n
    requires forall e :: 2 <= e < d ==> !Divides(e, n)
    ensures d <= p <= n && Divides(p, n)
    ensures forall e :: 2 <= e < p ==> !Divides(e, n)
    decreases n - d
  {
    if n % d == 0 then d
    else
      if d == n then
        assert false;
        d
      else
        SmallestFactorFrom(n, d + 1)
  }

  /** The least divisor of `n` above 1; it is prime. */
  function SmallestFactor(n: int): (p: int)
    requires n >= 2
    ensures 2 <= p <= n && Divides(p, n) && IsPrime(p)
    ensures forall e :: 2 <= e < p ==> !Divides(e, n)
  {
    var p := SmallestFactorFrom(n, 2);
    forall e | 2 <= e < p && Divides(e, p)
      ensures false
    {
      DividesTransitive(e, p, n);
    }
    p
  }

  /** A prime that divides a power of a prime is that prime. */
  lemma {:induction false} PrimeDividesPrimePower(q: int, p: int, k: nat)
    requires IsPrime(q) && IsPrime(p) && Divides(q, Pow(p, k))
    ensures q == p
    decreases k
  {
    if k > 0 {
      Euclid(q, p, Pow(p, k - 1));
      if Divides(q, p) {
        DividesBound(q, p);
      } else {
        PrimeDividesPrimePower(q, p, k - 1);
      }
    }
  }

  /** A common divisor of two numbers divides their difference. */
  lemma DividesDifference(d: int, x: int, y: int)
    requires Divides(d, x) && Divides(d, y)
    ensures Divides(d, x - y)
  {
    var a := x / d;
    var b := y / d;
    assert x == d * a && y == d * b;
    assert x - y == d * (a - b);
    MulDivides(d, a - b);
  }

  /** No number above 1 divides both. */
  ghost predicate Coprime(a: int, b: int) {
    forall d :: 2 <= d && Divides(d, a) ==> !Divides(d, b)
  }
}
