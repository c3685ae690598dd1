/** python/problem_12.py: the first triangle number with at least `fac`
    divisors, counted from the prime factorisation by trial division. */
module Problem12 {
  import opened Wrappers
  import opened Arith
  import opened Divisibility
  import opened Triangular
  import opened Divisors
  import opened Floats

  /** One entry of the `Counter`: a key and its count. */
  datatype Power = Power(base: int, exp: nat)

  function Product(fs: seq<Power>): int {
    if |fs| == 0 then 1 else Pow(fs[0].base, fs[0].exp) * Product(fs[1..])
  }

  /** Increasing primes with positive exponents whose product is `n`. */
  predicate IsFactorization(fs: seq<Power>, n: int) {
    (forall i :: 0 <= i < |fs| ==> IsPrime(fs[i].base) && fs[i].exp >= 1)
    && (forall i, j :: 0 <= i < j < |fs| ==> fs[i].base < fs[j].base)
    && Product(fs) == n
  }

  /** What dividing out the smallest prime factor leaves. */
  lemma FactorizationStep(n: int)
    requires n >= 2
    ensures Multiplicity(n, SmallestFactor(n)) >= 1
    ensures 1 <= DivideOut(n, SmallestFactor(n)) < n
    ensures n == Pow(SmallestFactor(n), Multiplicity(n, SmallestFactor(n))) * DivideOut(n, SmallestFactor(n))
    ensures forall q :: 2 <= q && Divides(q, DivideOut(n, SmallestFactor(n)))
                        ==> SmallestFactor(n) < q && Divides(q, n)
  {
    var p := SmallestFactor(n);
    var e := Multiplicity(n, p);
    var m := DivideOut(n, p);
    DivideOutRemovesPower(n, p);
    PowAtLeastBase(p, e);
    ProductGrows(m, Pow(p, e));
    forall q | 2 <= q && Divides(q, m)
      ensures p < q && Divides(q, n)
    {
      DivideOutKeepsDivisors(n, p, q);
    }
  }

  lemma PowAtLeastBase(p: int, e: nat)
    requires p >= 2 && e >= 1
    ensures Pow(p, e) >= p
  {
    PowPositive(p, e - 1);
    PositiveProduct(p, Pow(p, e - 1));
  }

  lemma ProductGrows(m: int, k: int)
    requires m >= 1 && k >= 2
    ensures m * k > m && k * m == m * k
  {
    assert m * k == m * (k - 1) + m;
    MulAtLeast(m, k - 1);
  }

  /** The prime factorisation of `n`, smallest prime first. */
  function Factorization(n: int): seq<Power>
    requires n >= 1
    decreases n
  {
    if n == 1 then []
    else
      var p := SmallestFactor(n);
      FactorizationStep(n);
      [Power(p, Multiplicity(n, p))] + Factorization(DivideOut(n, p))
  }

  /** The factorisation lists increasing primes, each dividing `n`, with
      positive exponents, and their product is `n`. */
  lemma {:induction false} FactorizationCorrect(n: int)
    requires n >= 1
    ensures IsFactorization(Factorization(n), n)
    ensures forall i :: 0 <= i < |Factorization(n)| ==> Divides(Factorization(n)[i].base, n)
    decreases n
  {
    if n > 1 {
      var p := SmallestFactor(n);
      var m := DivideOut(n, p);
      FactorizationStep(n);
      FactorizationCorrect(m);
      var rest := Factorization(m);
      assert forall i :: 0 <= i < |rest| ==> p < rest[i].base && Divides(rest[i].base, n);
      var fs := Factorization(n);
      assert fs[1..] == rest;
    }
  }

  /** `prod((factors + Counter(factors.keys())).values())`: every count plus
      one, multiplied together. The counts are positive, so the `Counter`
      addition drops no key. */
  function CountProduct(fs: seq<Power>): (r: nat)
    ensures r >= 1
  {
    if |fs| == 0 then 1
    else
      var rest := CountProduct(fs[1..]);
      PositiveProduct(fs[0].exp + 1, rest);
      (fs[0].exp + 1) * rest
  }

  /** The number of divisors of `n >= 1`, read off its factorisation. */
  function DivisorCount(n: int): (r: nat)
    requires n >= 1
    ensures r >= 1
  {
    CountProduct(Factorization(n))
  }

  /** The product of `e + 1` over the factorisation is the number of
      divisors of `n`: each divisor picks an exponent from `0..e` for every
      prime power. */
  lemma {:induction false} DivisorCountCounts(n: int)
    requires n >= 1
    ensures DivisorCount(n) == |DivisorSet(n)|
    decreases n
  {
    if n == 1 {
      DivisorsOfOne();
    } else {
      var p := SmallestFactor(n);
      var e := Multiplicity(n, p);
      var m := DivideOut(n, p);
      FactorizationStep(n);
      FactorizationUnfold(n);
      DivisorCountCounts(m);
      DivisorCountOfPrimePowerTimes(p, e, m);
      assert CountProduct(Factorization(n)) == (e + 1) * CountProduct(Factorization(m));
    }
  }

  /** `counter[key]`: the count of the first entry with that key, 0 when absent. */
  function CountOf(c: seq<Power>, key: int): nat {
    if |c| == 0 then 0 else if c[0].base == key then c[0].exp else CountOf(c[1..], key)
  }

  /** `counter[key] += 1`: a new key goes to the end, an existing one counts up
      in place. */
  function Tally(c: seq<Power>, key: int): (r: seq<Power>)
    ensures CountOf(r, key) == CountOf(c, key) + 1
    ensures forall other :: other != key ==> CountOf(r, other) == CountOf(c, other)
  {
    if |c| == 0 then [Power(key, 1)]
    else if c[0].base == key then [Power(key, c[0].exp + 1)] + c[1..]
    else [c[0]] + Tally(c[1..], key)
  }

  /** A key not yet counted is appended with count one. */
  lemma {:induction false} TallyNew(c: seq<Power>, key: int)
    requires forall j :: 0 <= j < |c| ==> c[j].base < key
    ensures Tally(c, key) == c + [Power(key, 1)]
    decreases |c|
  {
    if |c| > 0 {
      TallyNew(c[1..], key);
    }
  }

  /** The key of the last entry, above all others, counts up in place. */
  lemma {:induction false} TallyLast(c: seq<Power>, key: int, k: nat)
    requires forall j :: 0 <= j < |c| ==> c[j].base < key
    ensures Tally(c + [Power(key, k)], key) == c + [Power(key, k + 1)]
    decreases |c|
  {
    if |c| == 0 {
      assert c + [Power(key, k)] == [Power(key, k)];
    } else {
      assert (c + [Power(key, k)])[1..] == c[1..] + [Power(key, k)];
      TallyLast(c[1..], key, k);
    }
  }

  /** `int(n ** 0.5)`, taken as the exact integer square root. */
  function Isqrt(n: nat): (b: nat)
    ensures b * b <= n < (b + 1) * (b + 1)
  {
    if n == 0 then 0
    else
      var r := Isqrt(n - 1);
      if (r + 1) * (r + 1) <= n then
        assert (r + 2) * (r + 2) == (r + 1) * (r + 1) + 2 * r + 3;
        r + 1
      else r
  }

  /** When `i` divides `n` and nothing in `[2, i)` does, `i` is the smallest factor. */
  lemma SmallestFactorIs(n: int, i: int)
    requires 2 <= i <= n && Divides(i, n)
    requires forall d :: 2 <= d < i ==> !Divides(d, n)
    ensures SmallestFactor(n) == i
  {
  }

  lemma FactorizationUnfold(n: int)
    requires n >= 2
    ensures Factorization(n)
            == [Power(SmallestFactor(n), Multiplicity(n, SmallestFactor(n)))]
               + Factorization(DivideOut(n, SmallestFactor(n)))
  {
  }

  /** Dividing out the first candidate that divides: when nothing below `i`
      divides `start` and `start == n * i^k` with `i` not dividing `n`, the
      factorisation of `start` is `i^k` followed by that of `n`. */
  lemma PeelSmallest(start: int, n: int, i: int, k: nat)
    requires i >= 2 && n >= 1 && start >= 1 && !Divides(i, n) && start == n * Pow(i, k)
    requires forall d :: 2 <= d < i ==> !Divides(d, start)
    ensures Factorization(start) == (if k == 0 then [] else [Power(i, k)]) + Factorization(n)
  {
    if k == 0 {
      assert Pow(i, k) == 1;
      assert start == n;
    } else {
      PeelFacts(start, n, i, k);
      FactorizationUnfold(start);
    }
  }

  lemma PeelFacts(start: int, n: int, i: int, k: nat)
    requires i >= 2 && n >= 1 && k >= 1 && !Divides(i, n) && start == n * Pow(i, k)
    requires forall d :: 2 <= d < i ==> !Divides(d, start)
    ensures start >= 2 && SmallestFactor(start) == i
    ensures Multiplicity(start, i) == k && DivideOut(start, i) == n
  {
    PowAtLeastBase(i, k);
    ProductGrows(n, Pow(i, k));
    var q := n * Pow(i, k - 1);
    assert start == i * q by {
      assert Pow(i, k) == i * Pow(i, k - 1);
    }
    MulDivides(i, q);
    DividesBound(i, start);
    SmallestFactorIs(start, i);
    PowerSplit(start, n, i, k);
  }

  /** A prime is its own factorisation. */
  lemma PrimeFactorization(p: int)
    requires IsPrime(p)
    ensures Factorization(p) == [Power(p, 1)]
  {
    assert Pow(p, 1) == p;
    PowerSplit(p, 1, p, 1);
    FactorizationUnfold(p);
  }

  /** The inner loop `while n % i == 0: factors[i] += 1; n //= i`. */
  method DivideOutCounting(n0: int, i: int, factors0: seq<Power>) returns (n: int, factors: seq<Power>)
    requires i >= 2 && n0 >= 1
    requires forall d :: 2 <= d < i ==> !Divides(d, n0)
    requires forall j :: 0 <= j < |factors0| ==> factors0[j].base < i
    ensures 1 <= n <= n0
    ensures factors + Factorization(n) == factors0 + Factorization(n0)
    ensures forall d :: 2 <= d < i + 1 ==> !Divides(d, n)
    ensures forall j :: 0 <= j < |factors| ==> factors[j].base < i + 1
  {
    n := n0;
    factors := factors0;
    ghost var k: nat := 0;
    while n % i == 0
      invariant 1 <= n <= n0 && n0 == n * Pow(i, k)
      invariant factors == factors0 + (if k == 0 then [] else [Power(i, k)])
      invariant forall d :: 2 <= d < i ==> !Divides(d, n)
      decreases n
    {
      if k == 0 {
        TallyNew(factors, i);
      } else {
        TallyLast(factors0, i, k);
      }
      factors := Tally(factors, i);
      DivideOnce(n0, n, i, k);
      n := n / i;
      k := k + 1;
    }
    PeelSmallest(n0, n, i, k);
    forall d | 2 <= d < i + 1 && Divides(d, n)
      ensures false
    {
      DividesMultiple(d, n, Pow(i, k));
    }
  }

  /** One turn of the inner loop keeps its invariant. */
  lemma DivideOnce(n0: int, n: int, i: int, k: nat)
    requires i >= 2 && 1 <= n && n % i == 0 && n0 == n * Pow(i, k)
    requires forall d :: 2 <= d < i ==> !Divides(d, n)
    ensures 1 <= n / i < n && n0 == (n / i) * Pow(i, k + 1)
    ensures forall d :: 2 <= d < i ==> !Divides(d, n / i)
  {
    Cofactor(i, n);
    var q := n / i;
    assert n == i * q;
    ProductGrows(q, i);
    forall d | 2 <= d < i && Divides(d, q)
      ensures false
    {
      MulDivides(q, i);
      DividesTransitive(d, q, n);
    }
    assert Pow(i, k + 1) == i * Pow(i, k);
    assert n0 == (i * q) * Pow(i, k) == q * (i * Pow(i, k));
  }

  /** `factors(n)`. `n**0.5` converts `n` to a float first, which raises
      `OverflowError` when it does not fit. */
  method Factors(n0: int) returns (r: Result<nat>)
    ensures r.Err? <==> n0 < 0 || !FitsFloat(n0)
    ensures r.Err? && r.error.OverflowError? <==> !FitsFloat(n0)
    ensures r.Err? && r.error.TypeError? <==> n0 < 0 && FitsFloat(n0)
    ensures n0 == 0 ==> r == Ok(1)
    ensures n0 >= 1 && FitsFloat(n0) ==> r == Ok(DivisorCount(n0))
  {
    if !FitsFloat(n0) {
      return Err(OverflowError("int too large to convert to float"));
    }
    if n0 < 0 {
      // `n ** 0.5` is complex and `int()` rejects it
      return Err(TypeError("int() argument must be a string, a bytes-like object or a real number"));
    }
    var n := n0;
    var factors: seq<Power> := [];
    var bound := Isqrt(n0);
    IsqrtOfSmall(n0);
    var i := 2;
    while i <= bound
      invariant 2 <= i && (i <= bound + 1 || bound < 2)
      invariant bound < 2 ==> i == 2
      invariant 0 <= n <= n0
      invariant n0 == 0 ==> factors == [] && n == 0
      invariant n0 >= 1 ==> n >= 1 && factors + Factorization(n) == Factorization(n0)
      invariant forall d :: 2 <= d < i ==> !Divides(d, n)
      invariant forall j :: 0 <= j < |factors| ==> factors[j].base < i
    {
      n, factors := DivideOutCounting(n, i, factors);
      i := i + 1;
    }
    if n0 >= 1 {
      FactorsComplete(factors, n, n0, bound, i);
    }
    if n > 1 {
      factors := Tally(factors, n);
    }
    return Ok(CountProduct(factors));
  }

  /** After the trial divisions the remainder is 1 or one last prime, so
      tallying it completes the factorisation. */
  lemma FactorsComplete(factors: seq<Power>, n: int, n0: int, bound: nat, i: int)
    requires 1 <= n <= n0 && n0 < (bound + 1) * (bound + 1)
    requires 2 <= i && bound + 1 <= i
    requires factors + Factorization(n) == Factorization(n0)
    requires forall d :: 2 <= d < i ==> !Divides(d, n)
    requires forall j :: 0 <= j < |factors| ==> factors[j].base < i
    ensures (if n > 1 then Tally(factors, n) else factors) == Factorization(n0)
  {
    if n > 1 {
      FinalRemainder(n, n0, bound, i);
      TallyNew(factors, n);
    } else {
      assert Factorization(n) == [];
      assert factors + [] == factors;
    }
  }

  lemma IsqrtOfSmall(n: nat)
    ensures Isqrt(n) >= 2 ==> n >= 4
  {
    var b := Isqrt(n);
    if b >= 2 {
      MulMonotone(2, 2, b, b);
    }
  }

  /** What trial division up to the square root leaves above 1 is a prime
      larger than every candidate tried. */
  lemma FinalRemainder(n: int, n0: int, bound: nat, i: int)
    requires 2 <= i && 2 <= n <= n0 && n0 < (bound + 1) * (bound + 1)
    requires bound + 1 <= i
    requires forall d :: 2 <= d < i ==> !Divides(d, n)
    ensures IsPrime(n) && n >= i && Factorization(n) == [Power(n, 1)]
  {
    MulMonotone(bound + 1, bound + 1, i, i);
    PrimeBelowSquare(n, i);
    PrimeFactorization(n);
    MulDivides(n, 1);
  }

  /** The divisor count of a product of coprime numbers is the product of
      their divisor counts. */
  lemma {:induction false} DivisorCountMultiplicative(a: int, b: int)
    requires a >= 1 && b >= 1 && Coprime(a, b)
    ensures a * b >= 1 && DivisorCount(a * b) == DivisorCount(a) * DivisorCount(b)
    decreases a + b, 1
  {
    PositiveProduct(a, b);
    if a == 1 {
      assert Factorization(1) == [];
    } else if b == 1 {
      assert Factorization(1) == [];
    } else {
      var p := SmallestFactor(a * b);
      Euclid(p, a, b);
      if Divides(p, a) {
        PeelCoprime(a, b);
      } else {
        CoprimeSymmetric(a, b);
        PeelCoprime(b, a);
        assert b * a == a * b;
      }
    }
  }

  lemma CoprimeSymmetric(a: int, b: int)
    requires Coprime(a, b)
    ensures Coprime(b, a)
  {
  }

  /** The smallest prime of `a * b` divides `a`: its whole power sits in `a`,
      and what remains of `a` is still coprime to `b`. */
  lemma {:induction false} PeelCoprime(a: int, b: int)
    requires a >= 2 && b >= 1 && Coprime(a, b)
    requires a * b >= 2 && Divides(SmallestFactor(a * b), a)
    ensures a * b >= 1 && DivisorCount(a * b) == DivisorCount(a) * DivisorCount(b)
    decreases a + b, 0
  {
    var n := a * b;
    var p := SmallestFactor(n);
    var e, a' := PeelCoprimeFacts(a, b);
    DivisorCountMultiplicative(a', b);
    FactorizationUnfold(n);
    FactorizationUnfold(a);
    var ca := DivisorCount(a');
    var cb := DivisorCount(b);
    assert DivisorCount(a) == (e + 1) * ca;
    assert DivisorCount(n) == (e + 1) * (ca * cb);
    MulAssoc(e + 1, ca, cb);
  }

  /** The arithmetic behind `PeelCoprime`. */
  lemma PeelCoprimeFacts(a: int, b: int) returns (e: nat, a': int)
    requires a >= 2 && b >= 1 && Coprime(a, b)
    requires a * b >= 2 && Divides(SmallestFactor(a * b), a)
    ensures SmallestFactor(a) == SmallestFactor(a * b)
    ensures e == Multiplicity(a, SmallestFactor(a)) && e >= 1
    ensures a' == DivideOut(a, SmallestFactor(a)) && 1 <= a' < a
    ensures Coprime(a', b)
    ensures Multiplicity(a * b, SmallestFactor(a * b)) == e
    ensures DivideOut(a * b, SmallestFactor(a * b)) == a' * b
  {
    var n := a * b;
    var p := SmallestFactor(n);
    DividesBound(p, a);
    forall d | 2 <= d < p && Divides(d, a)
      ensures false
    {
      DividesMultiple(d, a, b);
    }
    SmallestFactorIs(a, p);
    FactorizationStep(a);
    e := Multiplicity(a, p);
    a' := DivideOut(a, p);
    forall d | 2 <= d && Divides(d, a')
      ensures !Divides(d, b)
    {
      DivideOutKeepsDivisors(a, p, d);
    }
    assert !Divides(p, b);
    assert !Divides(p, a') by {
      assert !Divides(p, DivideOut(a, p));
    }
    if Divides(p, a' * b) {
      Euclid(p, a', b);
    }
    PositiveProduct(a', b);
    assert a == Pow(p, e) * a';
    MulRotate(Pow(p, e), a', b);
    PowerSplit(n, a' * b, p, e);
  }

  /** The divisor count of the `m`-th triangle number. */
  function TriangleDivisors(m: int): (r: nat)
    requires m >= 1
    ensures r >= 1
  {
    TriAtLeast(m);
    DivisorCount(Tri(m))
  }

  /** `m` is the first index from 2 on whose triangle number has at least
      `fac` divisors. */
  ghost predicate FirstReaching(fac: int, m: int) {
    m >= 2 && TriangleDivisors(m) >= fac
    && forall k :: 2 <= k < m ==> TriangleDivisors(k) < fac
  }

  /** `tri(2n) == n * (2n + 1)` with coprime factors. */
  lemma EvenTriangle(n: int)
    requires n >= 1
    ensures Tri(2 * n) == n * (2 * n + 1)
    ensures TriangleDivisors(2 * n) == DivisorCount(n) * DivisorCount(2 * n + 1)
  {
    assert 2 * Tri(2 * n) == (2 * n) * (2 * n + 1) == 2 * (n * (2 * n + 1));
    forall d | 2 <= d && Divides(d, n)
      ensures !Divides(d, 2 * n + 1)
    {
      if Divides(d, 2 * n + 1) {
        DividesMultiple(d, n, 2);
        DividesDifference(d, 2 * n + 1, n * 2);
      }
    }
    DivisorCountMultiplicative(n, 2 * n + 1);
  }

  /** `tri(2n + 1) == (n + 1) * (2n + 1)` with coprime factors. */
  lemma OddTriangle(n: int)
    requires n >= 1
    ensures Tri(2 * n + 1) == (n + 1) * (2 * n + 1)
    ensures TriangleDivisors(2 * n + 1) == DivisorCount(n + 1) * DivisorCount(2 * n + 1)
  {
    assert 2 * Tri(2 * n + 1) == (2 * n + 1) * (2 * n + 2) == 2 * ((n + 1) * (2 * n + 1));
    var m := n + 1;
    var o := 2 * n + 1;
    forall d | 2 <= d && Divides(d, m)
      ensures !Divides(d, o)
    {
      if Divides(d, o) {
        DividesDifference(d, o, m);
        DividesDifference(d, m, n);
      }
    }
    DivisorCountMultiplicative(n + 1, 2 * n + 1);
  }

  /** A power of two has one more divisor than its exponent. */
  lemma PowerOfTwoDivisors(k: nat)
    ensures Pow(2, k) >= 1 && DivisorCount(Pow(2, k)) == k + 1
  {
    PowPositive(2, k);
    var n := Pow(2, k);
    assert Factorization(1) == [];
    if k > 0 {
      assert n == 1 * n;
      PeelSmallest(n, 1, 2, k);
      var fs := Factorization(n);
      assert fs == [Power(2, k)];
      assert fs[1..] == [];
      assert CountProduct(fs) == (k + 1) * 1;
    }
  }

  /** `problem_12(fac)`. The search over `count(1)` is unbounded; `fuel` caps
      the number of rounds, and the `ValueError` after the loop is what
      running out of fuel returns. The first call, `factors(2n + 1)`, is the
      largest argument: it raises `OverflowError` once `2n + 1` leaves the
      float range, at `n == FloatOverflow / 2`. */
  method Problem12(fac: int, fuel: nat) returns (r: Result<int>)
    ensures r.Ok? ==> exists m :: FirstReaching(fac, m) && r.value == Tri(m)
    ensures r.Err? ==> r.error.ValueError? || r.error.OverflowError?
    ensures r.Err? && r.error.ValueError? ==>
              forall k :: 2 <= k <= 2 * fuel + 1 ==> TriangleDivisors(k) < fac
    ensures r.Err? && r.error.OverflowError? ==>
              2 * fuel >= FloatOverflow && forall k :: 2 <= k < FloatOverflow ==> TriangleDivisors(k) < fac
    ensures fuel >= Pow(2, if fac > 0 then fac else 0) && FitsFloat(2 * Pow(2, if fac > 0 then fac else 0))
            ==> r.Ok?
  {
    var n := 1;
    while n <= fuel
      invariant 1 <= n <= fuel + 1
      invariant 2 * n - 1 < FloatOverflow
      invariant forall k :: 2 <= k < 2 * n ==> TriangleDivisors(k) < fac
    {
      var nTwice := 2 * n;
      var x := Factors(nTwice + 1);
      if x.Err? {
        OverflowReached(fac, n);
        return Err(x.error);
      }
      SmallerFit(n);
      var fn := Factors(n);
      EvenTriangle(n);
      if fn.value * x.value >= fac {
        Found(fac, nTwice);
        return Ok(Tri(nTwice));
      }
      CheckedOneMore(fac, nTwice);
      var fn1 := Factors(n + 1);
      OddTriangle(n);
      if fn1.value * x.value >= fac {
        Found(fac, nTwice + 1);
        return Ok(Tri(nTwice + 1));
      }
      CheckedOneMore(fac, nTwice + 1);
      n := n + 1;
    }
    EnoughFuel(fac, fuel);
    return Err(ValueError("No solution found"));
  }

  /** Once `2n + 1` fits a float, so do the other two arguments of the round. */
  lemma SmallerFit(n: int)
    requires n >= 1 && FitsFloat(2 * n + 1)
    ensures FitsFloat(n) && FitsFloat(n + 1)
  {
  }

  /** The search stops on `OverflowError` only at `n == FloatOverflow / 2`,
      after every smaller index, and only when `2^fac` rounds did not fit
      below it. */
  lemma OverflowReached(fac: int, n: int)
    requires n >= 1 && 2 * n - 1 < FloatOverflow && !FitsFloat(2 * n + 1)
    requires forall k :: 2 <= k < 2 * n ==> TriangleDivisors(k) < fac
    ensures 2 * n == FloatOverflow
    ensures !FitsFloat(2 * Pow(2, if fac > 0 then fac else 0))
  {
    assert FloatOverflow % 2 == 0;
    EnoughFuel(fac, n - 1);
  }

  lemma {:induction false} PowOfTwo(k: nat)
    ensures Pow(2, k) == Pow2(k)
  {
    if k > 0 {
      PowOfTwo(k - 1);
    }
  }

  /** For the default `fac`, 500, the rounds that guarantee an answer stay
      inside the float range, so `problem_12()` cannot raise `OverflowError`
      before it answers. */
  lemma DefaultSearchFits()
    ensures FitsFloat(2 * Pow(2, 500))
  {
    PowOfTwo(500);
    assert Pow2(501) == 2 * Pow2(500);
    PowersOfTwoFit(501);
  }

  lemma CheckedOneMore(fac: int, m: int)
    requires m >= 2 && TriangleDivisors(m) < fac
    requires forall k :: 2 <= k < m ==> TriangleDivisors(k) < fac
    ensures forall k :: 2 <= k < m + 1 ==> TriangleDivisors(k) < fac
  {
  }

  lemma Found(fac: int, m: int)
    requires m >= 2 && TriangleDivisors(m) >= fac
    requires forall k :: 2 <= k < m ==> TriangleDivisors(k) < fac
    ensures exists j :: FirstReaching(fac, j) && Tri(m) == Tri(j)
  {
    assert FirstReaching(fac, m);
  }

  /** With `2^fac` rounds the search cannot miss: at `n == 2^fac` the first
      factor alone has `fac + 1` divisors. */
  lemma EnoughFuel(fac: int, fuel: nat)
    requires forall k :: 2 <= k < 2 * (fuel + 1) ==> TriangleDivisors(k) < fac
    ensures fuel < Pow(2, if fac > 0 then fac else 0)
  {
    var K: nat := if fac > 0 then fac else 0;
    var n := Pow(2, K);
    PowerOfTwoDivisors(K);
    if fuel >= n {
      EvenTriangle(n);
      var c := DivisorCount(2 * n + 1);
      MulAtLeast(K + 1, c);
    }
  }
}
