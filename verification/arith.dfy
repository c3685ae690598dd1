/** Facts about Euclidean division on integers that several modules share. */
module Arith {

  /** How `n // d` moves when `n` grows by one. */
  lemma DivStep(n: int, d: int)
    requires d > 0
    ensures n % d == 0 ==> n / d == (n - 1) / d + 1
    ensures n % d != 0 ==> n / d == (n - 1) / d
  {
    var q := (n - 1) / d;
    var r := (n - 1) % d;
    assert n == d * q + (r + 1);
    if r + 1 < d {
      DivUnique(n, d, q, r + 1);
    } else {
      assert n == d * (q + 1) + 0;
      DivUnique(n, d, q + 1, 0);
    }
  }

  lemma DivUnique(n: int, d: int, q: int, r: int)
    requires d > 0 && 0 <= r < d && n == d * q + r
    ensures n / d == q && n % d == r
  {
    var t := q - n / d;
    assert d * t == n % d - r by {
      assert d * t == d * q - d * (n / d);
    }
    if t >= 1 {
      MulAtLeast(d, t);
    } else if t <= -1 {
      MulAtLeast(d, -t);
    }
  }

  lemma MulAtLeast(d: int, t: int)
    requires d > 0 && t >= 1
    ensures d * t >= d
  {
  }

  lemma MultipleIsProduct(n: int, d: int)
    requires d > 0 && n % d == 0
    ensures d * (n / d) == n
  {
  }

  lemma MulMonotone(a: int, b: int, c: int, d: int)
    requires 0 <= a <= c && 0 <= b <= d
    ensures a * b <= c * d
  {
    assert a * b <= c * b;
    assert c * b <= c * d;
  }

  /** Cancelling a positive factor keeps an inequality. */
  lemma MulCancelLe(a: int, b: int, c: int)
    requires a > 0 && a * b <= a * c
    ensures b <= c
  {
    if b > c {
      assert a * (b - c) == a * b - a * c;
      MulAtLeast(a, b - c);
    }
  }

  /** Python's `a % b`: the remainder takes the sign of the divisor. */
  function PyMod(a: int, b: int): (r: int)
    requires b != 0
    ensures b > 0 ==> 0 <= r < b
    ensures b < 0 ==> b < r <= 0
    ensures (a - r) % b == 0
  {
    var e := a % b;
    assert a == b * (a / b) + e;
    if b > 0 || e == 0 then
      MultipleHasNoRemainder(a - e, b, a / b);
      e
    else
      assert a - (e + b) == b * (a / b - 1);
      MultipleHasNoRemainder(a - (e + b), b, a / b - 1);
      e + b
  }

  /** `(b * q) % b == 0` for a divisor of either sign. */
  lemma MultipleHasNoRemainder(n: int, b: int, q: int)
    requires b != 0 && n == b * q
    ensures n % b == 0
  {
    var t := q - n / b;
    assert b * t == n % b by {
      assert n == b * (n / b) + n % b;
      assert b * t == b * q - b * (n / b);
    }
    if t >= 1 || t <= -1 {
      var ab := if b > 0 then b else -b;
      var at := if t > 0 then t else -t;
      assert ab * at == (if b * t >= 0 then b * t else -(b * t));
      MulAtLeast(ab, at);
    }
  }

  lemma MulAssoc(x: int, y: int, z: int)
    ensures x * (y * z) == (x * y) * z
  {
  }

  /** `(p * q) * r == (q * r) * p` */
  lemma MulRotate(p: int, q: int, r: int)
    ensures (p * q) * r == (q * r) * p
  {
  }
}
