/** python/problem_36.py: add up the numbers below a bound that read the same
    backwards in decimal and in binary. */
module Problem36 {
  import opened Text
  import opened Digits

  /** `bin(n)[2:]`: the digits after the `0b` prefix; for a negative number
      the prefix is `-0b`, so the cut leaves `b` in front of the digits. */
  function Base2(n: int): (s: string)
    ensures n >= 0 ==> s == BinaryString(n)
    ensures |s| > 0
    ensures n < 0 ==> s[0] == 'b' && s[1..] == BinaryString(-n)
  {
    if n >= 0 then BinaryString(n) else "b" + BinaryString(-n)
  }

  /** `_palindromic_in_base_10_and_2(n)`: `n` itself when both renderings are
      palindromes, otherwise 0. */
  function PalindromicIn10And2(n: int): (r: int)
    ensures r == n || r == 0
    ensures r != 0 ==> IsPalindromicNumber(n) && IsPalindrome(Base2(n))
    ensures n != 0 && IsPalindromicNumber(n) && IsPalindrome(Base2(n)) ==> r == n
  {
    if IsPalindrome(PyStr(n)) && IsPalindrome(Base2(n)) then n else 0
  }

  /** Only positive odd numbers not ending in 0 can count: a negative number
      keeps its sign in front, an even one ends its binary digits in 0, and a
      multiple of ten would need a leading zero. */
  lemma QualifyingNumbers(n: int)
    requires PalindromicIn10And2(n) != 0
    ensures n > 0 && n % 2 == 1 && n % 10 != 0
  {
    if n < 0 {
      NegativeNotPalindromic(n);
    }
    BinaryPalindromeIsOdd(n);
    DecimalPalindromeNotMultipleOf10(n);
  }

  lemma ContributionBound(k: nat)
    ensures 0 <= PalindromicIn10And2(k) <= k
  {
  }

  /** `0 + 1 + ... + (num - 1)`, the sum of everything below `num`. */
  function SumBelow(num: nat): nat {
    if num == 0 then 0 else SumBelow(num - 1) + (num - 1)
  }

  /** The sum below `num` in closed form. */
  lemma {:induction false} SumBelowClosedForm(num: nat)
    ensures 2 * SumBelow(num) == num * (num - 1)
  {
    if num > 0 {
      SumBelowClosedForm(num - 1);
      assert num * (num - 1) == (num - 1) * (num - 2) + 2 * (num - 1);
    }
  }

  /** `sum(_palindromic_in_base_10_and_2(k) for k in range(num))` */
  function Problem36(num: int): (r: nat)
    ensures num <= 0 ==> r == 0
    ensures num > 0 ==> r <= SumBelow(num)
    decreases if num > 0 then num else 0
  {
    if num <= 0 then 0
    else
      var k := num - 1;
      ContributionBound(k);
      Problem36(k) + PalindromicIn10And2(k)
  }

  /** A natural number that reads the same backwards in decimal and in
      binary, both without a sign or prefix. */
  predicate DoublePalindrome(k: nat) {
    IsPalindrome(DecimalString(k)) && IsPalindrome(BinaryString(k))
  }

  /** The sum of the odd double palindromes `2j + 1` with `j < m`. */
  function OddDoublePalindromeSum(m: nat): nat {
    if m == 0 then 0
    else OddDoublePalindromeSum(m - 1) + (if DoublePalindrome(2 * m - 1) then 2 * m - 1 else 0)
  }

  /** On a natural number the contribution is the number exactly when it is a
      double palindrome. */
  lemma ContributionOfNatural(k: nat)
    ensures PalindromicIn10And2(k) == (if DoublePalindrome(k) then k else 0)
  {
  }

  /** The sum below `num` is the sum of the odd double palindromes below
      `num`: even numbers drop out. */
  lemma Problem36IsOddSum(num: nat)
    ensures Problem36(num) == OddDoublePalindromeSum(num / 2)
  {
    var m := num / 2;
    EvenBoundIsOddSum(m);
    if num % 2 == 1 {
      assert num == 2 * m + 1;
      PastEven(m);
    } else {
      assert num == 2 * m;
    }
  }

  lemma {:induction false} EvenBoundIsOddSum(m: nat)
    ensures Problem36(2 * m) == OddDoublePalindromeSum(m)
  {
    if m > 0 {
      var j := m - 1;
      EvenBoundIsOddSum(j);
      PastEven(j);
      PastOdd(j);
      assert 2 * j + 2 == 2 * m;
    }
  }

  /** Extending the range past the even number `2m` adds nothing. */
  lemma PastEven(m: nat)
    ensures Problem36(2 * m + 1) == Problem36(2 * m)
  {
    var n := 2 * m;
    EvenContributesNothing(n);
    Problem36Unfold(n);
  }

  /** The odd number `2m + 1` adds itself exactly when it is a double palindrome. */
  lemma PastOdd(m: nat)
    requires Problem36(2 * m + 1) == OddDoublePalindromeSum(m)
    ensures Problem36(2 * m + 2) == OddDoublePalindromeSum(m + 1)
  {
    var n := 2 * m + 1;
    Problem36Unfold(n);
    ContributionOfNatural(n);
  }

  lemma Problem36Unfold(k: nat)
    ensures Problem36(k + 1) == Problem36(k) + PalindromicIn10And2(k)
  {
  }

  /** An even number never contributes. */
  lemma EvenContributesNothing(n: int)
    requires n % 2 == 0
    ensures PalindromicIn10And2(n) == 0
  {
    if PalindromicIn10And2(n) != 0 {
      QualifyingNumbers(n);
    }
  }

  /** 33 = 100001 in binary qualifies. */
  lemma ThirtyThree()
    ensures PalindromicIn10And2(33) == 33
  {
    assert DecimalString(3) == "3";
    assert DecimalString(33) == "33";
    assert BinaryString(1) == "1";
    assert BinaryString(2) == "10";
    assert BinaryString(4) == "100";
    assert BinaryString(8) == "1000";
    assert BinaryString(16) == "10000";
    assert BinaryString(33) == "100001";
    assert Reverse("33") == "33";
    assert Reverse("100001") == "100001";
  }
}
