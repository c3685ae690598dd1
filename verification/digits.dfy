/** Decimal and binary renderings of integers: `str(int)`, `int(str)`,
    `bin(n)`, and the digit sums and reversals the puzzles build on them. */
module Digits {
  import opened Wrappers
  import opened Text

  predicate IsDigit(c: char) {
    '0' <= c <= '9'
  }

  predicate AllDigits(s: string) {
    forall i :: 0 <= i < |s| ==> IsDigit(s[i])
  }

  function DigitChar(d: nat): (c: char)
    requires d < 10
    ensures IsDigit(c)
  {
    ('0' as int + d) as char
  }

  /** `int(c)` on one ASCII digit. */
  function DigitValue(c: char): (d: nat)
    requires IsDigit(c)
    ensures d < 10 && DigitChar(d) == c
  {
    c as int - '0' as int
  }

  /** `str(n)` for `n >= 0`: most significant digit first, no leading zero. */
  function DecimalString(n: nat): (s: string)
    ensures |s| > 0 && AllDigits(s)
    ensures s[|s| - 1] == DigitChar(n % 10)
    ensures s[0] == '0' ==> n == 0
  {
    if n < 10 then [DigitChar(n)] else DecimalString(n / 10) + [DigitChar(n % 10)]
  }

  /** `int(s)` on a non-empty run of ASCII digits (leading zeros allowed). */
  function ParseDecimal(s: string): nat
    requires AllDigits(s)
  {
    if |s| == 0 then 0 else 10 * ParseDecimal(s[..|s| - 1]) + DigitValue(s[|s| - 1])
  }

  /** Rendering then parsing gives back the number. */
  lemma {:induction false} ParseDecimalString(n: nat)
    ensures ParseDecimal(DecimalString(n)) == n
    decreases n
  {
    var s := DecimalString(n);
    if n >= 10 {
      ParseDecimalString(n / 10);
      assert s[..|s| - 1] == DecimalString(n / 10);
    }
  }

  lemma {:induction false} ParseDecimalZero(s: string)
    requires AllDigits(s)
    requires ParseDecimal(s) == 0
    ensures forall i :: 0 <= i < |s| ==> s[i] == '0'
    decreases |s|
  {
    if |s| > 0 {
      var p := s[..|s| - 1];
      ParseDecimalZero(p);
      assert forall i :: 0 <= i < |s| - 1 ==> s[i] == p[i];
    }
  }

  /** Parsing a canonical digit string then rendering it gives back the string. */
  lemma {:induction false} DecimalStringParse(s: string)
    requires |s| > 0 && AllDigits(s)
    requires s[0] == '0' ==> |s| == 1
    ensures DecimalString(ParseDecimal(s)) == s
    decreases |s|
  {
    if |s| > 1 {
      var p := s[..|s| - 1];
      assert p[0] == s[0];
      DecimalStringParse(p);
      if ParseDecimal(p) == 0 {
        ParseDecimalZero(p);
      }
      var n := ParseDecimal(s);
      assert n / 10 == ParseDecimal(p) && n % 10 == DigitValue(s[|s| - 1]);
      assert s == p + [s[|s| - 1]];
    }
  }

  /** `str(i)` for any integer. */
  function PyStr(i: int): (s: string)
    ensures |s| > 0 && (i < 0 <==> s[0] == '-')
    ensures i >= 0 ==> s == DecimalString(i)
  {
    if i < 0 then "-" + DecimalString(-i) else DecimalString(i)
  }

  /** `abs(i)` */
  function Magnitude(i: int): nat {
    if i < 0 then -i else i
  }

  function Pow10(k: nat): nat
  {
    if k == 0 then 1 else 10 * Pow10(k - 1)
  }

  lemma {:induction false} Pow10Positive(k: nat)
    ensures Pow10(k) >= 1
  {
    if k > 0 {
      Pow10Positive(k - 1);
    }
  }

  /** A number has more than `k` decimal digits exactly when it reaches `10^k`. */
  lemma {:induction false} DecimalLength(n: nat, k: nat)
    requires k > 0
    ensures |DecimalString(n)| > k <==> n >= Pow10(k)
    decreases n
  {
    if n >= 10 {
      assert |DecimalString(n)| == |DecimalString(n / 10)| + 1;
      if k > 1 {
        DecimalLength(n / 10, k - 1);
      }
    } else if k > 0 {
      Pow10Positive(k - 1);
    }
  }

  lemma {:induction false} Pow10Increasing(a: nat, b: nat)
    requires a < b
    ensures Pow10(a) < Pow10(b)
    decreases b
  {
    Pow10Positive(a);
    if a < b - 1 {
      Pow10Increasing(a, b - 1);
    }
  }

  /** CPython's default limit on the decimal digits `str(int)` writes and
      `int(str)` reads (`sys.get_int_max_str_digits()`). */
  const MaxStrDigits: nat := 4300

  /** `n` has more decimal digits than `str` converts by default. */
  predicate TooLongToPrint(n: nat) {
    |DecimalString(n)| > MaxStrDigits
  }

  /** The numbers too long to print are those from `10^4300` on. */
  lemma TooLongFrom(n: nat)
    ensures TooLongToPrint(n) <==> n >= Pow10(MaxStrDigits)
  {
    DecimalLength(n, MaxStrDigits);
  }

  /** A number below `10^9` prints. */
  lemma SmallPrints(n: nat)
    requires n < 1_000_000_000
    ensures !TooLongToPrint(n)
  {
    DecimalLength(n, 9);
  }

  /** `str(i)` under the default limit: a magnitude of more than
      `MaxStrDigits` decimal digits raises `ValueError`. */
  function StrOfInt(i: int): (r: Result<string>)
    ensures r.Err? <==> TooLongToPrint(Magnitude(i))
    ensures r.Err? ==> r.error.ValueError?
    ensures r.Ok? ==> r.value == PyStr(i)
    ensures r.Ok? ==> |r.value| <= MaxStrDigits + 1
  {
    if TooLongToPrint(Magnitude(i)) then
      Err(ValueError("Exceeds the limit (4300 digits) for integer string conversion"))
    else Ok(PyStr(i))
  }

  /** The digits of an integer literal as `int()` reads them (PEP 515):
      ASCII digits, where a single underscore may stand between two digits. */
  predicate IsDigitPart(s: string) {
    && |s| > 0 && IsDigit(s[0]) && IsDigit(s[|s| - 1])
    && (forall i :: 0 <= i < |s| ==> IsDigit(s[i]) || s[i] == '_')
    && (forall i :: 0 <= i < |s| - 1 && s[i] == '_' ==> IsDigit(s[i + 1]))
  }

  /** What `int()` accepts once surrounding whitespace is stripped: an
      optional sign and a digit part. */
  predicate IsIntLiteral(t: string) {
    IsDigitPart(t) || (|t| > 1 && (t[0] == '+' || t[0] == '-') && IsDigitPart(t[1..]))
  }

  /** The number the digits of `s` spell, read in order; underscores and any
      other non-digits are passed over. */
  function DigitsValue(s: string): nat
  {
    if |s| == 0 then 0
    else if IsDigit(s[|s| - 1]) then 10 * DigitsValue(s[..|s| - 1]) + DigitValue(s[|s| - 1])
    else DigitsValue(s[..|s| - 1])
  }

  /** On plain digits the reading is the decimal value. */
  lemma {:induction false} DigitsValueOfDigits(s: string)
    requires AllDigits(s)
    ensures DigitsValue(s) == ParseDecimal(s)
  {
    if |s| > 0 {
      DigitsValueOfDigits(s[..|s| - 1]);
    }
  }

  /** A digit part means the number its digits spell once the underscores
      are dropped. */
  lemma {:induction false} UnderscoresDropped(s: string)
    requires forall i :: 0 <= i < |s| ==> IsDigit(s[i]) || s[i] == '_'
    ensures AllDigits(Remove(s, '_'))
    ensures DigitsValue(s) == ParseDecimal(Remove(s, '_'))
  {
    if |s| > 0 {
      var init, last := s[..|s| - 1], s[|s| - 1];
      UnderscoresDropped(init);
      RemoveLast(s, '_');
      var d := Remove(init, '_');
      assert DigitsValue(s) == if IsDigit(last) then 10 * DigitsValue(init) + DigitValue(last)
                               else DigitsValue(init);
      if last == '_' {
        assert Remove(s, '_') == d;
      } else {
        var r := d + [last];
        assert Remove(s, '_') == r;
        assert r[..|r| - 1] == d && r[|r| - 1] == last;
        assert AllDigits(r);
        assert ParseDecimal(r) == 10 * ParseDecimal(d) + DigitValue(last);
      }
    }
  }

  lemma RemoveLast(s: string, c: char)
    requires |s| > 0
    ensures Remove(s, c) == Remove(s[..|s| - 1], c) + (if s[|s| - 1] == c then [] else [s[|s| - 1]])
  {
    var init, last := s[..|s| - 1], s[|s| - 1];
    assert s == init + [last];
    RemoveAppend(init, [last], c);
    assert [last][1..] == [];
  }

  /** The characters `int()` skips around a literal (below U+0100): the
      ASCII space and `\t`..`\r`, and NEL and NO-BREAK SPACE, which `int()`
      first turns into a space. The separators U+001C..U+001F count as
      whitespace for `str.isspace()` but are not skipped. */
  predicate IsIntSpace(c: char) {
    c == ' ' || ('\t' <= c <= '\r') || c == '\U{85}' || c == '\U{A0}'
  }

  /** `int()` skips exactly the whitespace other than the four separators. */
  lemma IntSpaceIsWhitespace(c: char)
    ensures IsIntSpace(c) <==> IsWhitespace(c) && !('\U{1C}' <= c <= '\U{1F}')
  {
  }

  /** `s` without the surrounding whitespace `int()` skips. */
  function IntStrip(s: string): string {
    StripBy(s, IsIntSpace)
  }

  /** `int(s)` in base 10: surrounding whitespace is ignored; what is left
      must be an optional sign and a digit part, or `ValueError` is raised. */
  function PyInt(s: string): (r: Result<int>)
    ensures r.Ok? <==> IsIntLiteral(IntStrip(s))
    ensures r.Err? ==> r.error.ValueError?
    ensures r.Ok? && IsDigitPart(IntStrip(s)) ==> r.value >= 0
    ensures r.Ok? && IntStrip(s)[0] == '-' ==> r.value <= 0
  {
    var t := IntStrip(s);
    if IsDigitPart(t) then Ok(DigitsValue(t) as int)
    else if |t| > 1 && (t[0] == '+' || t[0] == '-') && IsDigitPart(t[1..]) then
      var v := DigitsValue(t[1..]) as int;
      Ok(if t[0] == '-' then -v else v)
    else Err(ValueError("invalid literal for int() with base 10"))
  }

  /** A run of ASCII digits, leading zeros allowed, reads as its decimal value. */
  lemma PyIntOfDigits(s: string)
    requires |s| > 0 && AllDigits(s)
    ensures PyInt(s) == Ok(ParseDecimal(s) as int)
  {
    StripByUntouched(s, IsIntSpace);
    assert IsDigitPart(s);
    DigitsValueOfDigits(s);
  }

  /** `int(str(i)) == i` */
  lemma PyIntPyStr(i: int)
    ensures PyInt(PyStr(i)) == Ok(i)
  {
    if i < 0 {
      var t := DecimalString(-i);
      assert PyStr(i) == "-" + t;
      NegativeLiteral(t, -i);
    } else {
      ParseDecimalString(i);
      PyIntOfDigits(PyStr(i));
    }
  }

  /** A minus sign followed by the digits of `n` parses to `-n`. */
  lemma NegativeLiteral(t: string, n: nat)
    requires t == DecimalString(n)
    ensures PyInt("-" + t) == Ok(-(n as int))
  {
    var s := "-" + t;
    assert s[1..] == t;
    StripByUntouched(s, IsIntSpace);
    DigitsValueOfDigits(t);
    ParseDecimalString(n);
  }

  /** One character reads as a number exactly when it is an ASCII digit. */
  lemma PyIntOfChar(c: char)
    ensures PyInt([c]).Ok? <==> IsDigit(c)
    ensures IsDigit(c) ==> PyInt([c]) == Ok(DigitValue(c) as int)
  {
    if IsDigit(c) {
      PyIntOfDigits([c]);
      assert [c][..0] == [];
    } else if IsIntSpace(c) {
      assert LeadingSpace([c], IsIntSpace) == 1;
    } else {
      StripByUntouched([c], IsIntSpace);
    }
  }

  /** A literal without sign or padding reads as its digits without underscores. */
  lemma PyIntOfDigitPart(t: string)
    requires IsDigitPart(t)
    ensures PyInt(t) == Ok(DigitsValue(t) as int)
  {
    StripByUntouched(t, IsIntSpace);
  }

  /** A single underscore between digits groups them: `int("1_0") == 10`. */
  lemma GroupedLiteral()
    ensures PyInt("1_0") == Ok(10)
  {
    GroupedDigitPart();
    PyIntOfDigitPart("1_0");
  }

  lemma GroupedDigitPart()
    ensures IsDigitPart("1_0") && DigitsValue("1_0") == 10
  {
    var t := "1_0";
    assert t[0] == '1' && t[1] == '_' && t[2] == '0';
    assert t[..2] == "1_" && t[..2][..1] == "1" && t[..2][..1][..0] == [];
    assert DigitsValue("1") == 1;
    assert DigitsValue("1_") == 1;
    assert DigitsValue(t) == 10 * DigitsValue("1_") + DigitValue('0');
  }

  /** A doubled, leading or trailing underscore is rejected. */
  lemma MisplacedUnderscores()
    ensures PyInt("1__0").Err? && PyInt("_1").Err? && PyInt("1_").Err?
  {
    var t := "1__0";
    assert t[1] == '_' && !IsDigit(t[2]);
    RejectedUnpadded(t);
    var u, v := "_1", "1_";
    assert !IsDigit(u[0]) && !IsDigit(v[1]);
    RejectedUnpadded(u);
    RejectedUnpadded(v);
  }

  /** Text with no padding to strip is rejected exactly when it is not a literal. */
  lemma RejectedUnpadded(t: string)
    requires |t| > 0 && !IsIntSpace(t[0]) && !IsIntSpace(t[|t| - 1])
    requires !IsIntLiteral(t)
    ensures PyInt(t).Err?
  {
    StripByUntouched(t, IsIntSpace);
  }

  /** An information separator is not padding to `int()`, although
      `str.strip()` removes it: `int("\x1c7")` raises. */
  lemma SeparatorNotSkipped()
    ensures Strip("\U{1C}7") == "7"
    ensures PyInt("\U{1C}7").Err?
  {
    var s := "\U{1C}7";
    assert LeadingSpace(s[1..], IsWhitespace) == 0;
    assert LeadingSpace(s, IsWhitespace) == 1;
    assert s[1..] == "7";
    assert TrailingStart(s[1..], IsWhitespace) == 1;
    assert !IsDigit(s[0]);
    RejectedUnpadded(s);
  }

  /** Surrounding whitespace is ignored: `int(" -7\n") == -7`. */
  lemma PaddedLiteral()
    ensures PyInt(" -7\n") == Ok(-7)
  {
    StripSevenExample();
    NegativeLiteral("7", 7);
  }

  lemma StripSevenExample()
    ensures IntStrip(" -7\n") == "-7"
  {
    var s := " -7\n";
    assert LeadingSpace(s[1..], IsIntSpace) == 0;
    assert LeadingSpace(s, IsIntSpace) == 1;
    var m := s[1..];
    assert m == "-7\n";
    assert m[..2] == "-7";
    assert TrailingStart(m[..2], IsIntSpace) == 2;
    assert TrailingStart(m, IsIntSpace) == 2;
  }

  /** `bin(n)[2:]` for `n >= 0`. */
  function BinaryString(n: nat): (s: string)
    ensures |s| > 0
    ensures forall i :: 0 <= i < |s| ==> s[i] == '0' || s[i] == '1'
    ensures s[|s| - 1] == (if n % 2 == 0 then '0' else '1')
    ensures n > 0 ==> s[0] == '1'
  {
    if n < 2 then [DigitChar(n)] else BinaryString(n / 2) + [DigitChar(n % 2)]
  }

  function ParseBinary(s: string): nat
    requires forall i :: 0 <= i < |s| ==> s[i] == '0' || s[i] == '1'
  {
    if |s| == 0 then 0 else 2 * ParseBinary(s[..|s| - 1]) + (if s[|s| - 1] == '1' then 1 else 0)
  }

  /** `int(bin(n)[2:], 2) == n` */
  lemma {:induction false} ParseBinaryString(n: nat)
    ensures ParseBinary(BinaryString(n)) == n
    decreases n
  {
    var s := BinaryString(n);
    if n >= 2 {
      ParseBinaryString(n / 2);
      assert s[..|s| - 1] == BinaryString(n / 2);
    }
  }

  /** `sum(map(int, s))` on a string of ASCII digits. */
  function StringDigitSum(s: string): (r: nat)
    requires AllDigits(s)
    ensures r <= 9 * |s|
  {
    if |s| == 0 then 0 else DigitValue(s[0]) + StringDigitSum(s[1..])
  }

  /** The arithmetic digit sum: last digit plus the digit sum of the rest. */
  function DigitSum(n: nat): nat {
    if n == 0 then 0 else n % 10 + DigitSum(n / 10)
  }

  lemma {:induction false} StringDigitSumAppend(s: string, c: char)
    requires AllDigits(s) && IsDigit(c)
    ensures StringDigitSum(s + [c]) == StringDigitSum(s) + DigitValue(c)
    decreases |s|
  {
    if |s| > 0 {
      assert (s + [c])[1..] == s[1..] + [c];
      StringDigitSumAppend(s[1..], c);
    }
  }

  /** Summing the characters of `str(n)` is the arithmetic digit sum of `n`. */
  lemma {:induction false} StringDigitSumIsDigitSum(n: nat)
    ensures StringDigitSum(DecimalString(n)) == DigitSum(n)
    decreases n
  {
    if n >= 10 {
      StringDigitSumIsDigitSum(n / 10);
      StringDigitSumAppend(DecimalString(n / 10), DigitChar(n % 10));
    } else if n > 0 {
      assert DecimalString(n)[1..] == [];
    }
  }

  lemma {:induction false} DigitSumPositive(n: nat)
    requires n > 0
    ensures DigitSum(n) >= 1
    decreases n
  {
    if n % 10 == 0 {
      DigitSumPositive(n / 10);
    }
  }

  /** `sum(map(int, str(n)))` for `n >= 0`. */
  function DecimalDigitSum(n: nat): (r: nat)
    ensures r == DigitSum(n)
    ensures r <= 9 * |DecimalString(n)|
    ensures n > 0 ==> r >= 1
  {
    StringDigitSumIsDigitSum(n);
    if n > 0 then
      DigitSumPositive(n);
      StringDigitSum(DecimalString(n))
    else
      StringDigitSum(DecimalString(n))
  }

  /** `int(str(n)[::-1])` for `n >= 0`: leading zeros of the reversal vanish. */
  function ReverseNumber(n: nat): (r: nat)
    ensures n % 10 != 0 ==> DecimalString(r) == Reverse(DecimalString(n))
  {
    var s := Reverse(DecimalString(n));
    assert AllDigits(s);
    if n % 10 != 0 then
      assert s[0] == DecimalString(n)[|s| - 1];
      DecimalStringParse(s);
      ParseDecimal(s)
    else
      ParseDecimal(s)
  }

  /** The reversal drops what were trailing zeros: 10 reverses to 1. */
  lemma ReverseNumberOfTen()
    ensures ReverseNumber(10) == 1
  {
    assert DecimalString(1) == "1";
    assert DecimalString(10) == DecimalString(1) + "0" == "10";
    var r := Reverse("10");
    assert r[0] == '0' && r[1] == '1';
    assert r == "01" && r[..1] == "0";
    assert ParseDecimal("0"[..0]) == 0;
  }

  /** `str(n) == str(n)[::-1]` */
  predicate IsPalindromicNumber(n: int) {
    IsPalindrome(PyStr(n))
  }

  /** A negative number never reads the same backwards: its sign stays in front. */
  lemma NegativeNotPalindromic(n: int)
    requires n < 0
    ensures !IsPalindromicNumber(n)
  {
    var s := PyStr(n);
    assert Reverse(s)[0] == s[|s| - 1];
  }

  /** A positive decimal palindrome does not end in zero (its first digit is non-zero). */
  lemma DecimalPalindromeNotMultipleOf10(n: nat)
    requires n > 0 && IsPalindromicNumber(n)
    ensures n % 10 != 0
  {
    var s := DecimalString(n);
    assert Reverse(s)[0] == s[|s| - 1];
  }

  /** A positive binary palindrome is odd (its leading bit is 1). */
  lemma BinaryPalindromeIsOdd(n: nat)
    requires n > 0 && IsPalindrome(BinaryString(n))
    ensures n % 2 == 1
  {
    var s := BinaryString(n);
    assert Reverse(s)[0] == s[|s| - 1];
  }
}
