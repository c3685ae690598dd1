/** python/problem_55.py: Lychrel numbers, those for which repeated
    reverse-and-add never reaches a palindrome within a depth bound. */
module Problem55 {
  import opened Wrappers
  import opened Text
  import opened Digits

  /** The keyword default of `max_depth`. */
  const MAX_DEPTH: int := 50

  /** `k + int(str(k)[::-1])`. The reversal of a negative number ends in its
      sign, which `int()` rejects. */
  function ReverseAdd(k: int): (r: Result<int>)
    ensures r.Ok? <==> k >= 0
    ensures r.Ok? ==> r.value == k + ReverseNumber(k) && r.value >= k
    ensures r.Err? ==> r.error.ValueError?
  {
    ReversalReads(k);
    match PyInt(Reverse(PyStr(k)))
    case Err(e) => Err(e)
    case Ok(v) => Ok(k + v)
  }

  /** What `int()` makes of the reversed rendering. */
  lemma ReversalReads(k: int)
    ensures k < 0 ==> PyInt(Reverse(PyStr(k))).Err? && PyInt(Reverse(PyStr(k))).error.ValueError?
    ensures k >= 0 ==> PyInt(Reverse(PyStr(k))) == Ok(ReverseNumber(k) as int)
  {
    if k < 0 {
      NegativeReversalRejected(k);
    } else {
      ReversedDigitsParse(k);
    }
  }

  /** The reversed digits of a natural number read back as its reversal. */
  lemma ReversedDigitsParse(n: nat)
    ensures PyInt(Reverse(PyStr(n))) == Ok(ReverseNumber(n) as int)
  {
    var s := Reverse(DecimalString(n));
    assert AllDigits(s);
    PyIntOfDigits(s);
  }

  lemma NegativeReversalRejected(k: int)
    requires k < 0
    ensures PyInt(Reverse(PyStr(k))).Err?
    ensures PyInt(Reverse(PyStr(k))).error.ValueError?
  {
    var s := Reverse(PyStr(k));
    assert s[|s| - 1] == '-';
    assert PyStr(k)[|s| - 1] == DecimalString(-k)[|s| - 2];
    assert IsDigit(s[0]);
    RejectedUnpadded(s);
  }

  /** `_is_lychrel(k, _level, max_depth=max_depth)` as written: the recursive
      call does not pass `max_depth` on, so every deeper level uses 50. */
  function IsLychrel(k: int, level: int, maxDepth: int): (r: Result<bool>)
    ensures r.Err? <==> k < 0 && level <= maxDepth
    ensures r.Err? ==> r.error.ValueError?
    ensures level > 1 && IsPalindromicNumber(k) ==> r == Ok(false)
    ensures level > maxDepth && !(level > 1 && IsPalindromicNumber(k)) ==> r == Ok(true)
    decreases (if maxDepth > MAX_DEPTH then maxDepth else MAX_DEPTH) + 1 - level
  {
    if IsPalindromicNumber(k) && level > 1 then Ok(false)
    else if level > maxDepth then Ok(true)
    else
      match ReverseAdd(k)
      case Err(e) => Err(e)
      case Ok(num) => IsLychrel(num, level + 1, MAX_DEPTH)
  }

  /** The same search with `max_depth` passed on to every level. */
  function IsLychrelWithin(k: int, level: int, maxDepth: int): (r: Result<bool>)
    ensures r.Err? <==> k < 0 && level <= maxDepth
    ensures r.Err? ==> r.error.ValueError?
    ensures level > 1 && IsPalindromicNumber(k) ==> r == Ok(false)
    ensures level > maxDepth && !(level > 1 && IsPalindromicNumber(k)) ==> r == Ok(true)
    decreases maxDepth + 1 - level
  {
    if IsPalindromicNumber(k) && level > 1 then Ok(false)
    else if level > maxDepth then Ok(true)
    else
      match ReverseAdd(k)
      case Err(e) => Err(e)
      case Ok(num) => IsLychrelWithin(num, level + 1, maxDepth)
  }

  /** One reverse-and-add step on a natural number. */
  function Step(n: nat): nat {
    n + ReverseNumber(n)
  }

  /** The number after `i` reverse-and-add steps. */
  function Iterate(n: nat, i: nat): nat
    decreases i
  {
    if i == 0 then n else Iterate(Step(n), i - 1)
  }

  /** None of the first `d` reverse-and-add results is a palindrome. */
  predicate NoPalindromeWithin(n: nat, d: int) {
    forall i :: 1 <= i <= d ==> !IsPalindromicNumber(Iterate(n, i))
  }

  lemma WithinUnfold(n: nat, level: int, d: int)
    requires level <= d && !(level > 1 && IsPalindromicNumber(n))
    ensures IsLychrelWithin(n, level, d) == IsLychrelWithin(Step(n), level + 1, d)
  {
    ReverseAddOfNatural(n);
  }

  lemma ReverseAddOfNatural(n: nat)
    ensures ReverseAdd(n) == Ok(Step(n))
  {
    ReversalReads(n);
  }

  /** From a level above the first, the search checks the current number and
      the following ones up to the bound. */
  lemma {:induction false} WithinFromLevel(n: nat, level: int, d: int)
    requires 2 <= level <= d + 1
    ensures IsLychrelWithin(n, level, d) == Ok(CheckedFrom(n, d + 1 - level))
    decreases d + 1 - level
  {
    assert Iterate(n, 0) == n;
    if !IsPalindromicNumber(n) && level <= d {
      WithinUnfold(n, level, d);
      WithinFromLevel(Step(n), level + 1, d);
      CheckedShift(n, d - level);
    }
  }

  /** None of `n` and its next `m` reverse-and-add results is a palindrome. */
  predicate CheckedFrom(n: nat, m: int) {
    forall i :: 0 <= i <= m ==> !IsPalindromicNumber(Iterate(n, i))
  }

  lemma CheckedShift(n: nat, m: nat)
    ensures CheckedFrom(n, m + 1) <==> !IsPalindromicNumber(n) && CheckedFrom(Step(n), m)
  {
    assert Iterate(n, 0) == n;
    assert forall i :: 0 <= i <= m ==> Iterate(Step(n), i) == Iterate(n, i + 1);
    if !IsPalindromicNumber(n) && CheckedFrom(Step(n), m) {
      forall i | 0 <= i <= m + 1
        ensures !IsPalindromicNumber(Iterate(n, i))
      {
        if i > 0 {
          assert Iterate(n, i) == Iterate(Step(n), i - 1);
        }
      }
    }
  }

  /** Forwarding the bound, `_is_lychrel(n, max_depth=d)` holds exactly when
      none of the first `d` reverse-and-add results is a palindrome. */
  lemma LychrelWithinMeaning(n: nat, d: int)
    ensures IsLychrelWithin(n, 1, d) == Ok(NoPalindromeWithin(n, d))
  {
    if d >= 1 {
      WithinUnfold(n, 1, d);
      WithinFromLevel(Step(n), 2, d);
      ShiftedWindow(n, d);
    }
  }

  lemma ShiftedWindow(n: nat, d: int)
    requires d >= 1
    ensures CheckedFrom(Step(n), d - 1) <==> NoPalindromeWithin(n, d)
  {
    assert forall i :: 0 <= i <= d - 1 ==> Iterate(Step(n), i) == Iterate(n, i + 1);
    assert forall i :: 1 <= i <= d ==> Iterate(n, i) == Iterate(Step(n), i - 1);
  }

  /** At the default depth the missing forwarding makes no difference. */
  lemma {:induction false} DefaultDepthAgrees(k: int, level: int)
    ensures IsLychrel(k, level, MAX_DEPTH) == IsLychrelWithin(k, level, MAX_DEPTH)
    decreases MAX_DEPTH + 1 - level
  {
    if !(IsPalindromicNumber(k) && level > 1) && level <= MAX_DEPTH {
      if k < 0 {
        BothRaise(k, level);
      } else {
        LychrelUnfold(k, level);
        WithinUnfold(k, level, MAX_DEPTH);
        DefaultDepthAgrees(Step(k), level + 1);
      }
    }
  }

  lemma LychrelUnfold(n: nat, level: int)
    requires level <= MAX_DEPTH && !(level > 1 && IsPalindromicNumber(n))
    ensures IsLychrel(n, level, MAX_DEPTH) == IsLychrel(Step(n), level + 1, MAX_DEPTH)
  {
    ReverseAddOfNatural(n);
  }

  /** Both searches pass on the error of the first negative reversal. */
  lemma BothRaise(k: int, level: int)
    requires k < 0 && level <= MAX_DEPTH && !(level > 1 && IsPalindromicNumber(k))
    ensures IsLychrel(k, level, MAX_DEPTH) == IsLychrelWithin(k, level, MAX_DEPTH)
  {
    var r := ReverseAdd(k);
    assert r.Err?;
    assert IsLychrel(k, level, MAX_DEPTH) == Err(r.error);
    assert IsLychrelWithin(k, level, MAX_DEPTH) == Err(r.error);
  }

  /** `sum(1 for n in range(num) if _is_lychrel(n))` */
  function Problem55(num: int): (r: nat)
    ensures num <= 0 ==> r == 0
    ensures num > 0 ==> r <= num
    decreases if num > 0 then num else 0
  {
    if num <= 0 then 0
    else
      var found := IsLychrel(num - 1, 1, MAX_DEPTH);
      Problem55(num - 1) + (if found.Ok? && found.value then 1 else 0)
  }

  /** Each number below the bound counts once when fifty reverse-and-add
      steps produce no palindrome. */
  lemma Problem55Step(num: nat)
    ensures Problem55(num + 1) == Problem55(num) + (if NoPalindromeWithin(num, MAX_DEPTH) then 1 else 0)
  {
    DefaultDepthAgrees(num, 1);
    LychrelWithinMeaning(num, MAX_DEPTH);
  }

  lemma AsWrittenUnfold(n: nat, level: int, maxDepth: int)
    requires level <= maxDepth && !(level > 1 && IsPalindromicNumber(n))
    ensures IsLychrel(n, level, maxDepth) == IsLychrel(Step(n), level + 1, MAX_DEPTH)
  {
    ReverseAddOfNatural(n);
  }

  /** 19 + 91 = 110, and 110 + 11 = 121: the reversal of 110 loses its zero. */
  lemma StepsFromNineteen()
    ensures Step(19) == 110 && Step(110) == 121
  {
    assert DecimalString(1) == "1";
    assert DecimalString(19) == "19";
    assert Reverse("19") == "91";
    assert ParseDecimal("9") == 9;
    assert ParseDecimal("91") == 91;
    assert DecimalString(11) == "11";
    assert DecimalString(110) == "110";
    assert Reverse("110") == "011";
    assert ParseDecimal("0") == 0;
    assert ParseDecimal("01") == 1;
    assert ParseDecimal("011") == 11;
  }

  lemma PalindromesNearNineteen()
    ensures !IsPalindromicNumber(110) && IsPalindromicNumber(121)
  {
    assert DecimalString(1) == "1";
    assert DecimalString(11) == "11";
    assert DecimalString(110) == "110";
    assert Reverse("110")[0] == '0';
    assert DecimalString(12) == "12";
    assert DecimalString(121) == "121";
    assert Reverse("121") == "121";
  }

  /** Asked to stop after one step, the search still runs on with the default
      depth, reaches the palindrome 121 and answers no. */
  lemma AsWrittenIgnoresDepth()
    ensures IsLychrel(19, 1, 1) == Ok(false)
  {
    StepsFromNineteen();
    PalindromesNearNineteen();
    AsWrittenUnfold(19, 1, 1);
    AsWrittenUnfold(110, 2, MAX_DEPTH);
  }

  /** With the bound passed on, one step to the non-palindrome 110 is enough
      to answer yes. */
  lemma ForwardedHonoursDepth()
    ensures IsLychrelWithin(19, 1, 1) == Ok(true)
    ensures NoPalindromeWithin(19, 1)
  {
    StepsFromNineteen();
    PalindromesNearNineteen();
    LychrelWithinMeaning(19, 1);
    assert Iterate(19, 1) == Iterate(110, 0) == 110;
  }
}
