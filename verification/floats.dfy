/** The range of an IEEE 754 double, as CPython meets it when it converts an
    integer to a float (`PyLong_AsDouble`): a float operation with an integer
    operand converts it first, and raises `OverflowError` when it does not fit. */
module Floats {
  function Pow2(n: nat): nat
  {
    if n == 0 then 1 else 2 * Pow2(n - 1)
  }

  lemma {:induction false} Pow2Positive(n: nat)
    ensures Pow2(n) >= 1
  {
    if n > 0 {
      Pow2Positive(n - 1);
    }
  }

  /** The smallest magnitude `float(n)` rejects with `OverflowError`:
      2^1024 - 2^970 (`FloatOverflowIsHalfway`) lies halfway between the
      largest double and 2^1024, and round-half-even takes it up to 2^1024. */
  const FloatOverflow: int :=
    0xffff_ffff_ffff_fc00_0000_0000_0000_0000_0000_0000_0000_0000_0000_0000_0000_0000_0000_0000_0000_0000_0000_0000_0000_0000_0000_0000_0000_0000_0000_0000_0000_0000_0000_0000_0000_0000_0000_0000_0000_0000_0000_0000_0000_0000_0000_0000_0000_0000_0000_0000_0000_0000_0000_0000_0000_0000_0000_0000_0000_0000_0000_0000_0000_0000

  /** By doubling from `2^10`. */
  lemma FloatOverflowIsHalfway()
    ensures FloatOverflow == Pow2(1024) - Pow2(970)
  {
    assert Pow2(4) == 16 && Pow2(10) == 1024;
    Pow2Add(10, 10);
    assert Pow2(20) == 0x10_0000;
    Pow2Add(20, 20);
    assert Pow2(40) == 0x100_0000_0000;
    Pow2Add(40, 40);
    assert Pow2(80) == 0x1_0000_0000_0000_0000_0000;
    Pow2Add(80, 80);
    assert Pow2(160) == 0x1_0000_0000_0000_0000_0000_0000_0000_0000_0000_0000;
    Pow2Add(160, 160);
    assert Pow2(320) == 0x1_0000_0000_0000_0000_0000_0000_0000_0000_0000_0000_0000_0000_0000_0000_0000_0000_0000_0000_0000_0000;
    Pow2Add(320, 320);
    assert Pow2(640) == 0x1_0000_0000_0000_0000_0000_0000_0000_0000_0000_0000_0000_0000_0000_0000_0000_0000_0000_0000_0000_0000_0000_0000_0000_0000_0000_0000_0000_0000_0000_0000_0000_0000_0000_0000_0000_0000_0000_0000_0000_0000;
    Pow2Add(640, 320);
    assert Pow2(960) == 0x1_0000_0000_0000_0000_0000_0000_0000_0000_0000_0000_0000_0000_0000_0000_0000_0000_0000_0000_0000_0000_0000_0000_0000_0000_0000_0000_0000_0000_0000_0000_0000_0000_0000_0000_0000_0000_0000_0000_0000_0000_0000_0000_0000_0000_0000_0000_0000_0000_0000_0000_0000_0000_0000_0000_0000_0000_0000_0000_0000_0000;
    Pow2Add(960, 10);
    assert Pow2(970) == 0x400_0000_0000_0000_0000_0000_0000_0000_0000_0000_0000_0000_0000_0000_0000_0000_0000_0000_0000_0000_0000_0000_0000_0000_0000_0000_0000_0000_0000_0000_0000_0000_0000_0000_0000_0000_0000_0000_0000_0000_0000_0000_0000_0000_0000_0000_0000_0000_0000_0000_0000_0000_0000_0000_0000_0000_0000_0000_0000_0000_0000;
    Pow2Add(40, 10);
    assert Pow2(50) == 0x4_0000_0000_0000;
    Pow2Add(50, 4);
    assert Pow2(54) == 0x40_0000_0000_0000;
    Pow2Add(54, 970);
  }

  lemma {:induction false} Pow2Add(a: nat, b: nat)
    ensures Pow2(a + b) == Pow2(a) * Pow2(b)
  {
    if a > 0 {
      Pow2Add(a - 1, b);
      assert Pow2(a + b) == 2 * Pow2(a - 1 + b);
    }
  }

  lemma {:induction false} Pow2Increasing(a: nat, b: nat)
    requires a < b
    ensures Pow2(a) < Pow2(b)
    decreases b
  {
    Pow2Positive(a);
    if a < b - 1 {
      Pow2Increasing(a, b - 1);
    }
  }

  /** `float(i)` succeeds: `i` rounds to a finite double. */
  predicate FitsFloat(i: int) {
    -FloatOverflow < i < FloatOverflow
  }

  /** Every power of two up to `2^1023` is a finite double. */
  lemma PowersOfTwoFit(n: nat)
    requires n <= 1023
    ensures FitsFloat(Pow2(n))
  {
    FloatOverflowIsHalfway();
    if n < 1023 {
      Pow2Increasing(n, 1023);
    }
    Pow2Increasing(970, 1023);
  }
}
