/** python/problem_8.py: the greatest product of `adjacent` consecutive
    digits of a digit string.

    As written, the loop visits every start `i` below
    `len(data) - len(data) % adjacent`, and Python slicing cuts the windows
    near the end short: a shorter window can win. `Problem8` models the
    loop as written; `Problem8FullWindows` visits exactly the full windows. */
module Problem8 {
  import opened Wrappers
  import opened Arith
  import opened Text
  import opened Digits

  /** `prod(map(int, s))`: the digits are converted left to right, so the
      first character that is not a digit raises `ValueError`; an empty
      product is 1. */
  function DigitProduct(s: string): (r: Result<int>)
    ensures r.Ok? <==> AllDigits(s)
    ensures r.Err? ==> r.error.ValueError?
    ensures r.Ok? ==> r.value >= 0
    ensures r.Ok? ==> (r.value == 0 <==> exists i :: 0 <= i < |s| && s[i] == '0')
    ensures |s| == 0 ==> r == Ok(1)
  {
    if |s| == 0 then Ok(1)
    else if !IsDigit(s[0]) then Err(ValueError("invalid literal for int() with base 10"))
    else
      var rest := DigitProduct(s[1..]);
      if rest.Err? then
        Err(rest.error)
      else
        var d := DigitValue(s[0]);
        assert forall i :: 1 <= i < |s| ==> s[1..][i - 1] == s[i];
        assert d * rest.value == 0 <==> d == 0 || rest.value == 0;
        Ok(d * rest.value)
  }

  /** `prod(map(int, data[i : i + adjacent]))` */
  function Window(data: string, adjacent: int, i: int): Result<int> {
    DigitProduct(Slice(data, i, i + adjacent))
  }

  /** `r` is what scanning the starts `0 .. count - 1` yields, where
      `window(i)` is the product at start `i`: the first failing window's
      `ValueError`, or else the largest product, and 0 when there is no
      window (the initial `largest`). */
  predicate LargestOver(window: int -> Result<int>, count: int, r: Result<int>) {
    && (r.Err? <==> exists i :: 0 <= i < count && window(i).Err?)
    && (r.Err? ==> exists i :: 0 <= i < count && window(i) == r)
    && (r.Ok? ==> r.value >= 0)
    && (r.Ok? ==> forall i :: 0 <= i < count ==> window(i).value <= r.value)
    && (r.Ok? ==> r.value == 0 || exists i :: 0 <= i < count && window(i) == r)
  }

  /** The loop of `problem_8` over the starts `0 .. count - 1`. */
  method LargestProduct(window: int -> Result<int>, count: int) returns (r: Result<int>)
    ensures LargestOver(window, count, r)
  {
    var largest := 0;
    ghost var best := 0;
    var i := 0;
    while i < count
      invariant 0 <= i && (i <= count || i == 0)
      invariant forall j :: 0 <= j < i ==> window(j).Ok?
      invariant forall j :: 0 <= j < i ==> window(j).value <= largest
      invariant largest >= 0
      invariant largest == 0 || (0 <= best < i && window(best) == Ok(largest))
    {
      var w := window(i);
      if w.Err? {
        return w;
      }
      if w.value > largest {
        largest, best := w.value, i;
      }
      i := i + 1;
    }
    r := Ok(largest);
  }

  /** The windows of `problem_8`, start by start. */
  function Windows(data: string, adjacent: int): int -> Result<int> {
    i => Window(data, adjacent, i)
  }

  /** `problem_8(data, adjacent)` as written; `adjacent == 0` fails in `%`. */
  method Problem8(data: string, adjacent: int) returns (r: Result<int>)
    ensures adjacent == 0 ==> r == Err(ZeroDivisionError)
    ensures adjacent != 0 ==> LargestOver(Windows(data, adjacent), |data| - PyMod(|data|, adjacent), r)
    ensures |data| < adjacent ==> r == Ok(0)
    ensures adjacent != 0 && r.Err? ==> r.error.ValueError?
  {
    if adjacent == 0 {
      return Err(ZeroDivisionError);
    }
    var length := |data|;
    r := LargestProduct(Windows(data, adjacent), length - PyMod(length, adjacent));
    if r.Err? {
      var i :| 0 <= i < length - PyMod(length, adjacent) && Windows(data, adjacent)(i) == r;
      assert Window(data, adjacent, i) == r;
    }
    if length < adjacent {
      ModOfSmaller(length, adjacent);
      NothingExamined(Windows(data, adjacent), length - PyMod(length, adjacent), r);
    }
  }

  lemma ModOfSmaller(a: nat, b: int)
    requires a < b
    ensures PyMod(a, b) == a
  {
    DivUnique(a, b, 0, a);
  }

  /** With no start to visit the result is the initial 0. */
  lemma NothingExamined(window: int -> Result<int>, count: int, r: Result<int>)
    requires count <= 0 && LargestOver(window, count, r)
    ensures r == Ok(0)
  {
  }

  /** Near the end a window holds only the digits that are left. */
  lemma WindowLength(data: string, adjacent: int, i: int)
    requires adjacent >= 1 && 0 <= i <= |data|
    ensures |Slice(data, i, i + adjacent)| == if i + adjacent <= |data| then adjacent else |data| - i
  {
  }

  /** The intended search: every full window, and only those. */
  method Problem8FullWindows(data: string, adjacent: int) returns (r: Result<int>)
    requires adjacent >= 1
    ensures LargestOver(Windows(data, adjacent), |data| - adjacent + 1, r)
    ensures forall i :: 0 <= i < |data| - adjacent + 1 ==> FullWindow(data, adjacent, i)
  {
    r := LargestProduct(Windows(data, adjacent), |data| - adjacent + 1);
    forall i | 0 <= i < |data| - adjacent + 1
      ensures FullWindow(data, adjacent, i)
    {
      WindowLength(data, adjacent, i);
    }
  }

  predicate FullWindow(data: string, adjacent: int, i: int) {
    |Slice(data, i, i + adjacent)| == adjacent
  }

  /** The loop as written visits every full window (and some cut-short ones). */
  lemma AsWrittenCoversFullWindows(length: nat, adjacent: int)
    requires adjacent >= 1
    ensures length - adjacent + 1 <= length - PyMod(length, adjacent)
  {
  }

  /** Visiting more starts can only raise the answer. */
  lemma LargestOverMonotone(window: int -> Result<int>, c1: int, c2: int, r1: Result<int>, r2: Result<int>)
    requires c1 <= c2
    requires LargestOver(window, c1, r1) && LargestOver(window, c2, r2)
    requires r2.Ok?
    ensures r1.Ok? && r1.value <= r2.value
  {
    if r1.value != 0 {
      var i :| 0 <= i < c1 && window(i) == r1;
      assert window(i).value <= r2.value;
    }
  }

  lemma WindowsOfExample()
    ensures Window("1110099", 3, 0) == Ok(1)
    ensures Window("1110099", 3, 1) == Ok(0)
    ensures Window("1110099", 3, 2) == Ok(0)
    ensures Window("1110099", 3, 3) == Ok(0)
    ensures Window("1110099", 3, 4) == Ok(0)
    ensures Window("1110099", 3, 5) == Ok(81)
  {
    SlicesOfExample();
    DigitProductsOfExample();
  }

  lemma SlicesOfExample()
    ensures Slice("1110099", 0, 3) == "111" && Slice("1110099", 1, 4) == "110"
    ensures Slice("1110099", 2, 5) == "100" && Slice("1110099", 3, 6) == "009"
    ensures Slice("1110099", 4, 7) == "099" && Slice("1110099", 5, 8) == "99"
  {
    var s := "1110099";
    assert s[0..3] == "111" && s[1..4] == "110" && s[2..5] == "100";
    assert s[3..6] == "009" && s[4..7] == "099" && s[5..7] == "99";
  }

  lemma DigitProductsOfExample()
    ensures DigitProduct("111") == Ok(1) && DigitProduct("99") == Ok(81)
    ensures DigitProduct("110") == Ok(0) && DigitProduct("100") == Ok(0)
    ensures DigitProduct("009") == Ok(0) && DigitProduct("099") == Ok(0)
  {
    assert "111"[1..] == "11" && "11"[1..] == "1" && "1"[1..] == "";
    assert "99"[1..] == "9" && "9"[1..] == "";
    assert "110"[1..] == "10" && "10"[1..] == "0" && "0"[1..] == "";
    assert "100"[1..] == "00" && "00"[1..] == "0";
    assert "009"[1..] == "09" && "09"[1..] == "9";
    assert "099"[1..] == "99";
  }

  lemma ExampleWindows()
    ensures var w := Windows("1110099", 3);
      w(0) == Ok(1) && w(1) == Ok(0) && w(2) == Ok(0) && w(3) == Ok(0) && w(4) == Ok(0) && w(5) == Ok(81)
  {
    WindowsOfExample();
  }

  /** The scan's answer is determined: when every window succeeds, it is
      the largest product (or 0 when that is not positive). */
  lemma LargestOverIsMaximum(window: int -> Result<int>, count: int, r: Result<int>, k: int)
    requires LargestOver(window, count, r)
    requires 0 <= k < count && window(k).Ok? && window(k).value >= 0
    requires forall i :: 0 <= i < count ==> window(i).Ok? && window(i).value <= window(k).value
    ensures r == window(k)
  {
  }

  /** For "1110099" and 3 the loop as written visits the cut-short window
      "99" at start 5 and answers 81. */
  lemma TruncatedWindowCounterexample(r: Result<int>)
    requires LargestOver(Windows("1110099", 3), 7 - PyMod(7, 3), r)
    ensures r == Ok(81)
  {
    ExampleStarts();
    ExampleWindows();
    ScanOfExample(Windows("1110099", 3), 6, r);
  }

  /** Scanning windows with the products of the example: the first six
      starts give 81, the first five give 1. */
  lemma ScanOfExample(w: int -> Result<int>, count: int, r: Result<int>)
    requires w(0) == Ok(1) && w(1) == Ok(0) && w(2) == Ok(0)
    requires w(3) == Ok(0) && w(4) == Ok(0) && w(5) == Ok(81)
    requires count == 5 || count == 6
    requires LargestOver(w, count, r)
    ensures r == if count == 6 then Ok(81) else Ok(1)
  {
    var k := if count == 6 then 5 else 0;
    forall i | 0 <= i < count
      ensures w(i).Ok? && w(i).value <= w(k).value
    {
      if i == 0 { assert w(i) == w(0); }
      else if i == 1 { assert w(i) == w(1); }
      else if i == 2 { assert w(i) == w(2); }
      else if i == 3 { assert w(i) == w(3); }
      else if i == 4 { assert w(i) == w(4); }
      else { assert w(i) == w(5); }
    }
    LargestOverIsMaximum(w, count, r, k);
  }

  /** `7 - 7 % 3` is 6: the loop as written tries the starts 0..5. */
  lemma ExampleStarts()
    ensures 7 - PyMod(7, 3) == 6
  {
    DivUnique(7, 3, 2, 1);
  }

  /** The full windows of "1110099" are 111, 110, 100, 009 and 099: the
      intended answer is 1. */
  lemma FullWindowsExample(c: Result<int>)
    requires LargestOver(Windows("1110099", 3), 7 - 3 + 1, c)
    ensures c == Ok(1)
  {
    ExampleWindows();
    ScanOfExample(Windows("1110099", 3), 5, c);
  }
}
