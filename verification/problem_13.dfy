/** python/problem_13.py: the first ten digits of a sum of integers. */
module Problem13 {
  import opened Wrappers
  import opened Digits

  /** `sum(data)`: left to right from 0. */
  function Sum(data: seq<int>): int {
    if |data| == 0 then 0 else Sum(data[..|data| - 1]) + data[|data| - 1]
  }

  /** `str(sum(data))[:10]`; `str` raises `ValueError` for a sum of more
      than `MaxStrDigits` digits. */
  function Problem13(data: seq<int>): (r: Result<string>)
    ensures r.Err? <==> TooLongToPrint(Magnitude(Sum(data)))
    ensures r.Err? ==> r.error.ValueError?
    ensures r.Ok? ==> |r.value| == if |PyStr(Sum(data))| < 10 then |PyStr(Sum(data))| else 10
    ensures r.Ok? ==> r.value == PyStr(Sum(data))[..|r.value|]
    ensures |data| == 0 ==> r == Ok("0")
  {
    match StrOfInt(Sum(data))
    case Err(e) => Err(e)
    case Ok(s) => Ok(if |s| <= 10 then s else s[..10])
  }

  /** A sum of at most ten characters comes back whole. */
  lemma ShortSumIsWhole(data: seq<int>)
    requires |PyStr(Sum(data))| <= 10
    ensures Problem13(data) == Ok(PyStr(Sum(data)))
  {
    assert |DecimalString(Magnitude(Sum(data)))| <= |PyStr(Sum(data))|;
  }

  /** The answer is the leading digits of the sum: reading them back and
      appending the digits cut off gives the sum again. */
  lemma Problem13Leading(data: seq<int>)
    requires Sum(data) >= 0
    ensures var s := DecimalString(Sum(data));
      Problem13(data).Ok? ==>
        ParseDecimal(Problem13(data).value + s[|Problem13(data).value|..]) == Sum(data)
  {
    var s := DecimalString(Sum(data));
    if Problem13(data).Ok? {
      var p := Problem13(data).value;
      assert PyStr(Sum(data)) == s;
      assert p == s[..|p|];
      assert p + s[|p|..] == s;
      ParseDecimalString(Sum(data));
    }
  }

  /** The default argument is a `map` object, built once and consumed by
      the first call that uses it: a call returns its answer and what is
      left of the iterator, which is nothing. */
  function Problem13OnIterator(remaining: seq<int>): (r: (Result<string>, seq<int>))
  {
    (Problem13(remaining), [])
  }

  /** A second call that relies on the default sees an exhausted iterator. */
  lemma SecondDefaultCall(numbers: seq<int>)
    ensures Problem13OnIterator(Problem13OnIterator(numbers).1).0 == Ok("0")
  {
  }
}
