/** The set of divisors of a positive number, and how a prime power factor
    multiplies its size: the divisors of `p^e * m` are the divisors of `m`
    scaled by `p^0, ..., p^e`. */
module Divisors {
  import opened Arith
  import opened Divisibility

  ghost function DivisorSet(n: int): set<int>
    requires n >= 1
  {
    set d | 1 <= d <= n && Divides(d, n)
  }

  /** Every element of `s` multiplied by `c`. */
  ghost function Scaled(s: set<int>, c: int): set<int> {
    set d | d in s :: c * d
  }

  lemma MulCancelEq(c: int, x: int, y: int)
    requires c >= 1 && c * x == c * y
    ensures x == y
  {
    if x < y {
      assert c * y == c * x + c * (y - x);
      MulAtLeast(c, y - x);
    } else if y < x {
      assert c * x == c * y + c * (x - y);
      MulAtLeast(c, x - y);
    }
  }

  lemma Pick(s: set<int>) returns (x: int)
    requires |s| > 0
    ensures x in s
  {
    if forall y :: y !in s {
      assert false;
    }
    var y :| y in s;
    x := y;
  }

  /** Scaling by a positive number keeps the size of a set. */
  lemma {:induction false} ScaledSize(s: set<int>, c: int)
    requires c >= 1
    ensures |Scaled(s, c)| == |s|
    decreases |s|
  {
    if |s| > 0 {
      var x := Pick(s);
      var t := s - {x};
      ScaledSize(t, c);
      ScaledRemove(s, c, x);
    }
  }

  lemma ScaledRemove(s: set<int>, c: int, x: int)
    requires c >= 1 && x in s
    ensures Scaled(s, c) == Scaled(s - {x}, c) + {c * x}
    ensures c * x !in Scaled(s - {x}, c)
  {
    var t := s - {x};
    forall y | y in Scaled(s, c)
      ensures y in Scaled(t, c) + {c * x}
    {
      var d :| d in s && y == c * d;
      if d != x {
        assert d in t;
      }
    }
    if c * x in Scaled(t, c) {
      var y :| y in t && c * y == c * x;
      MulCancelEq(c, y, x);
    }
  }

  /** `s` scaled by each of `p^0, ..., p^e`, all together. */
  ghost function Layers(s: set<int>, p: int, e: nat): set<int>
    decreases e
  {
    if e == 0 then Scaled(s, Pow(p, 0)) else Layers(s, p, e - 1) + Scaled(s, Pow(p, e))
  }

  /** `x` is in a layer when it is some `p^i * d` with `i <= e` and `d` in `s`. */
  ghost predicate InLayer(s: set<int>, p: int, e: nat, x: int, i: nat, d: int) {
    i <= e && d in s && x == Pow(p, i) * d
  }

  lemma {:induction false} LayersMembers(s: set<int>, p: int, e: nat, x: int)
    ensures x in Layers(s, p, e) <==> exists i: nat, d :: InLayer(s, p, e, x, i, d)
    decreases e
  {
    if x in Layers(s, p, e) {
      if e > 0 && x in Layers(s, p, e - 1) {
        LayersMembers(s, p, e - 1, x);
        var i: nat, d :| InLayer(s, p, e - 1, x, i, d);
        assert InLayer(s, p, e, x, i, d);
      } else {
        var d :| d in s && x == Pow(p, e) * d;
        assert InLayer(s, p, e, x, e, d);
      }
    }
    if exists i: nat, d :: InLayer(s, p, e, x, i, d) {
      var i: nat, d :| InLayer(s, p, e, x, i, d);
      if i == e {
        assert x in Scaled(s, Pow(p, e));
      } else {
        assert InLayer(s, p, e - 1, x, i, d);
        LayersMembers(s, p, e - 1, x);
      }
    }
  }

  /** Numbers that `p` does not divide, scaled by different powers of `p`,
      never meet. */
  lemma LayersDisjoint(s: set<int>, p: int, e: nat)
    requires p >= 2 && e >= 1
    requires forall d :: d in s ==> d >= 1 && !Divides(p, d)
    ensures Layers(s, p, e - 1) * Scaled(s, Pow(p, e)) == {}
  {
    forall x | x in Layers(s, p, e - 1) && x in Scaled(s, Pow(p, e))
      ensures false
    {
      LayersMembers(s, p, e - 1, x);
      var i: nat, d :| InLayer(s, p, e - 1, x, i, d);
      var d' :| d' in s && x == Pow(p, e) * d';
      PowerPartUnique(p, x, i, d, e, d');
    }
  }

  /** The power of `p` in `p^i * d`, for `d` not divisible by `p`, is `i`. */
  lemma PowerPartUnique(p: int, x: int, i: nat, d: int, j: nat, d': int)
    requires p >= 2
    requires d >= 1 && !Divides(p, d) && x == Pow(p, i) * d
    requires d' >= 1 && !Divides(p, d') && x == Pow(p, j) * d'
    ensures i == j
  {
    MultiplicityOfLayer(p, x, i, d);
    MultiplicityOfLayer(p, x, j, d');
  }

  lemma MultiplicityOfLayer(p: int, x: int, i: nat, d: int)
    requires p >= 2 && d >= 1 && !Divides(p, d) && x == Pow(p, i) * d
    ensures x >= 1 && Multiplicity(x, p) == i
  {
    var pi := Pow(p, i);
    assert x == d * pi;
    PowerSplit(x, d, p, i);
  }

  lemma {:induction false} LayersSize(s: set<int>, p: int, e: nat)
    requires p >= 2
    requires forall d :: d in s ==> d >= 1 && !Divides(p, d)
    ensures |Layers(s, p, e)| == (e + 1) * |s|
    decreases e
  {
    PowPositive(p, e);
    ScaledSize(s, Pow(p, e));
    if e > 0 {
      LayersSize(s, p, e - 1);
      LayersDisjoint(s, p, e);
    }
  }

  lemma {:induction false} PowAdd(p: int, i: nat, j: nat)
    ensures Pow(p, i + j) == Pow(p, i) * Pow(p, j)
    decreases i
  {
    if i > 0 {
      PowAdd(p, i - 1, j);
      MulAssoc(p, Pow(p, i - 1), Pow(p, j));
    }
  }

  /** A number that a prime does not divide, dividing `p * x`, divides `x`. */
  lemma CancelPrime(d: int, p: int, x: int)
    requires IsPrime(p) && Divides(d, p * x) && !Divides(p, d)
    ensures Divides(d, x)
  {
    var c := (p * x) / d;
    assert p * x == d * c;
    MulDivides(p, x);
    assert Divides(p, d * c);
    Euclid(p, d, c);
    var c' := c / p;
    assert c == p * c';
    assert p * x == p * (d * c');
    MulCancelEq(p, x, d * c');
    MulDivides(d, c');
  }

  lemma {:induction false} CancelPrimePower(d: int, p: int, e: nat, m: int)
    requires IsPrime(p) && Divides(d, Pow(p, e) * m) && !Divides(p, d)
    ensures Divides(d, m)
    decreases e
  {
    if e == 0 {
      assert Pow(p, e) * m == m;
    } else {
      MulAssoc(p, Pow(p, e - 1), m);
      CancelPrime(d, p, Pow(p, e - 1) * m);
      CancelPrimePower(d, p, e - 1, m);
    }
  }

  /** `p^i` with `i > e` does not divide `p^e * m` when `p` does not divide `m`. */
  lemma PowerBound(p: int, e: nat, m: int, i: nat)
    requires IsPrime(p) && m >= 1 && !Divides(p, m)
    requires Divides(Pow(p, i), Pow(p, e) * m)
    ensures i <= e
  {
    if i > e {
      var a := Pow(p, e);
      var b := Pow(p, i - e);
      var c := Pow(p, i - e - 1);
      PowPositive(p, e);
      PowAdd(p, e, i - e);
      assert Pow(p, i) == a * b;
      var t := (a * m) / (a * b);
      MultipleIsProduct(a * m, a * b);
      assert a * m == (a * b) * t;
      MulAssoc(a, b, t);
      MulCancelEq(a, m, b * t);
      assert b == p * c;
      MulAssoc(p, c, t);
      assert m == p * (c * t);
      MulDivides(p, c * t);
    }
  }

  /** A divisor of `p^e * m` is `p^i` times a divisor of `m`, with `i <= e`. */
  lemma DivisorInLayers(p: int, e: nat, m: int, x: int)
    requires IsPrime(p) && m >= 1 && !Divides(p, m)
    requires 1 <= x && Divides(x, Pow(p, e) * m)
    ensures x in Layers(DivisorSet(m), p, e)
  {
    PowPositive(p, e);
    PositiveProduct(Pow(p, e), m);
    var n := Pow(p, e) * m;
    var i := Multiplicity(x, p);
    var d := DivideOut(x, p);
    DivideOutRemovesPower(x, p);
    PowPositive(p, i);
    assert x == d * Pow(p, i);
    MulDivides(d, Pow(p, i));
    DividesTransitive(d, x, n);
    CancelPrimePower(d, p, e, m);
    DividesBound(d, m);
    MulDivides(Pow(p, i), d);
    assert x == Pow(p, i) * d;
    DividesTransitive(Pow(p, i), x, n);
    PowerBound(p, e, m, i);
    assert InLayer(DivisorSet(m), p, e, x, i, d);
    LayersMembers(DivisorSet(m), p, e, x);
  }

  /** The divisors of `p^e * m`, for a prime `p` not dividing `m`, are the
      divisors of `m` times `p^0, ..., p^e`. */
  lemma DivisorsOfPrimePowerTimes(p: int, e: nat, m: int)
    requires IsPrime(p) && m >= 1 && !Divides(p, m)
    ensures Pow(p, e) * m >= 1
    ensures DivisorSet(Pow(p, e) * m) == Layers(DivisorSet(m), p, e)
  {
    PowPositive(p, e);
    PositiveProduct(Pow(p, e), m);
    var n := Pow(p, e) * m;
    forall x | x in DivisorSet(n)
      ensures x in Layers(DivisorSet(m), p, e)
    {
      DivisorInLayers(p, e, m, x);
    }
    forall x | x in Layers(DivisorSet(m), p, e)
      ensures x in DivisorSet(n)
    {
      LayersMembers(DivisorSet(m), p, e, x);
      var i: nat, d :| InLayer(DivisorSet(m), p, e, x, i, d);
      LayerDivides(p, e, m, i, d);
    }
  }

  lemma MulSwapMiddle(a: int, b: int, c: int, d: int)
    ensures (a * b) * (c * d) == (a * c) * (b * d)
  {
    MulAssoc(a, b, c * d);
    MulAssoc(b, c, d);
    assert b * c == c * b;
    MulAssoc(c, b, d);
    MulAssoc(a, c, b * d);
  }

  /** `p^i * d` divides `p^e * m` when `i <= e` and `d` divides `m`. */
  lemma LayerDivides(p: int, e: nat, m: int, i: nat, d: int)
    requires p >= 2 && m >= 1 && i <= e && 1 <= d && Divides(d, m)
    ensures Pow(p, e) * m >= 1
    ensures 1 <= Pow(p, i) * d <= Pow(p, e) * m && Divides(Pow(p, i) * d, Pow(p, e) * m)
  {
    PowPositive(p, e);
    PowPositive(p, i);
    PositiveProduct(Pow(p, e), m);
    PositiveProduct(Pow(p, i), d);
    PowAdd(p, i, e - i);
    var k := m / d;
    MultipleIsProduct(m, d);
    var x := Pow(p, i) * d;
    var y := Pow(p, e - i) * k;
    MulSwapMiddle(Pow(p, i), Pow(p, e - i), d, k);
    assert Pow(p, e) * m == x * y;
    MulDivides(x, y);
    DividesBound(x, Pow(p, e) * m);
  }

  /** Hence the number of divisors of `p^e * m` is `e + 1` times that of `m`. */
  lemma DivisorCountOfPrimePowerTimes(p: int, e: nat, m: int)
    requires IsPrime(p) && m >= 1 && !Divides(p, m)
    ensures Pow(p, e) * m >= 1
    ensures |DivisorSet(Pow(p, e) * m)| == (e + 1) * |DivisorSet(m)|
  {
    DivisorsOfPrimePowerTimes(p, e, m);
    forall d | d in DivisorSet(m)
      ensures d >= 1 && !Divides(p, d)
    {
      if Divides(p, d) {
        DividesTransitive(p, d, m);
      }
    }
    LayersSize(DivisorSet(m), p, e);
  }

  lemma DivisorsOfOne()
    ensures DivisorSet(1) == {1}
  {
    assert 1 in DivisorSet(1);
  }
}
