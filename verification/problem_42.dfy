/** src/problem_42.py and python/problem_42.py: count the words of a word
    file whose alphabetical value is a triangle number. The parser and the
    converter are the same in both files; the final count differs in form. */
module Problem42 {
  import opened Wrappers
  import opened Text
  import opened Words
  import opened Triangular
  import opened Floats

  /** `d.strip().replace('"', "").upper()`: quotes go, surrounding blanks go,
      blanks inside the quotes stay. */
  function CleanField(d: string): (r: string)
    ensures '"' !in r
    ensures forall i :: 0 <= i < |r| ==> !('a' <= r[i] <= 'z')
    ensures |r| <= |d|
  {
    Upper(Remove(Strip(d), '"'))
  }

  function CleanFields(fields: seq<string>): (r: seq<string>)
    ensures |r| == |fields|
    ensures forall i :: 0 <= i < |fields| ==> r[i] == CleanField(fields[i])
  {
    if |fields| == 0 then [] else [CleanField(fields[0])] + CleanFields(fields[1..])
  }

  /** `_parse(data)`: one entry per comma-separated field. */
  function Parse(data: string): (r: seq<string>)
    ensures |r| == multiset(data)[','] + 1
    ensures forall i :: 0 <= i < |r| ==> '"' !in r[i] && ',' !in r[i]
  {
    var fields := SplitOn(data, ',');
    var r := CleanFields(fields);
    SplitOnFieldCount(data, ',');
    forall i | 0 <= i < |r|
      ensures ',' !in r[i]
    {
      CleanFieldKeepsAbsent(fields[i], ',');
    }
    r
  }

  /** Cleaning a field introduces no character other than capitals. */
  lemma CleanFieldKeepsAbsent(d: string, c: char)
    requires c !in d && !('A' <= c <= 'Z')
    ensures c !in CleanField(d)
  {
    var s := Strip(d);
    assert c !in s;
    assert multiset(Remove(s, '"'))[c] == 0;
  }

  /** Parsing the file of a list of capitalised words gives back the list. */
  lemma ParseOfListing(words: seq<string>)
    requires |words| > 0 && Listable(words)
    requires forall i :: 0 <= i < |words| ==> IsUpperWord(words[i])
    ensures Parse(Listing(words)) == words
  {
    SplitListing(words);
    var q := Quoted(words);
    var r := Parse(Listing(words));
    forall i | 0 <= i < |words|
      ensures r[i] == words[i]
    {
      CleanQuoted(words[i]);
    }
  }

  lemma CleanQuoted(w: string)
    requires '"' !in w && IsUpperWord(w)
    ensures CleanField(Quote(w)) == w
  {
    var q := Quote(w);
    assert q[0] == '"' && q[|q| - 1] == '"';
    StripUntouched(q);
    RemoveQuotesOfWord(w);
  }

  /** Blanks inside the quotes are part of the word. */
  lemma InnerBlankSurvives()
    ensures CleanField(" \" A\" ") == " A"
  {
    var w := " A";
    StripPaddedQuote();
    assert Strip(" \" A\" ") == Quote(w);
    RemoveQuotesOfWord(w);
    UpperOfBlankA();
  }

  lemma UpperOfBlankA()
    ensures Upper(" A") == " A"
  {
    var u := Upper(" A");
    assert u[0] == UpperChar(' ') == ' ';
    assert u[1] == UpperChar('A') == 'A';
  }

  lemma StripPaddedQuote()
    ensures Strip(" \" A\" ") == "\" A\""
  {
    var d := " \" A\" ";
    assert LeadingSpace(d[1..], IsWhitespace) == 0;
    assert LeadingSpace(d, IsWhitespace) == 1;
    var m := d[1..];
    assert m == "\" A\" ";
    assert TrailingStart(m[..4], IsWhitespace) == 4;
    assert TrailingStart(m, IsWhitespace) == 4;
  }

  /** `_convert(data)`: the alphabetical value of every word. */
  function Convert(data: seq<string>): (r: seq<int>)
    ensures |r| == |data|
    ensures forall i :: 0 <= i < |data| ==> r[i] == WordValue(data[i])
    ensures forall i :: 0 <= i < |data| && IsUpperWord(data[i])
                        ==> |data[i]| <= r[i] <= 26 * |data[i]|
  {
    if |data| == 0 then [] else [WordValue(data[0])] + Convert(data[1..])
  }

  /** `_is_triange_number(t)`: `0.25 + (2 * t)` first converts `2 * t` to a
      float, which raises `OverflowError` when it does not fit. For a
      negative `t` the square root of `0.25 + 2t` is complex and `% 1` raises
      `TypeError`; otherwise the test holds exactly for triangle numbers. */
  function TriangleTest(t: int): (r: Result<bool>)
    ensures r.Err? <==> t < 0 || !FitsFloat(2 * t)
    ensures r.Err? && r.error.OverflowError? <==> !FitsFloat(2 * t)
    ensures r.Err? && r.error.TypeError? <==> t < 0 && FitsFloat(2 * t)
    ensures r.Ok? ==> (r.value <==> TriangleNumber(t))
  {
    if !FitsFloat(2 * t) then Err(OverflowError("int too large to convert to float"))
    else if t < 0 then Err(TypeError("unsupported operand type(s) for %: 'complex' and 'int'"))
    else Ok(IsTriangular(t))
  }

  /** The triangle test raises on `t`. */
  predicate TestRaises(t: int) {
    t < 0 || !FitsFloat(2 * t)
  }

  /** The triangle test raises on some score. */
  predicate SomeTestRaises(data: seq<int>) {
    exists i :: 0 <= i < |data| && TestRaises(data[i])
  }

  /** The first score the triangle test raises on: the one whose exception
      leaves the sum. */
  function FirstRaising(data: seq<int>): (i: nat)
    requires SomeTestRaises(data)
    ensures i < |data| && TestRaises(data[i])
    ensures forall j :: 0 <= j < i ==> !TestRaises(data[j])
  {
    RaisingCons(data);
    if TestRaises(data[0]) then 0
    else
      var i := FirstRaising(data[1..]);
      TailIndex(data, i);
      1 + i
  }

  /** Past a score the test accepts, the first raising score is the tail's. */
  lemma FirstRaisingTail(data: seq<int>)
    requires |data| > 0 && !TestRaises(data[0]) && SomeTestRaises(data[1..])
    ensures SomeTestRaises(data)
    ensures data[FirstRaising(data)] == data[1..][FirstRaising(data[1..])]
  {
    RaisingCons(data);
  }

  lemma TailIndex(data: seq<int>, i: nat)
    requires 0 < |data| && i < |data| - 1
    ensures data[1 + i] == data[1..][i]
    ensures forall j :: 1 <= j <= i ==> data[j] == data[1..][j - 1]
  {
  }

  /** Every score is a triangle number. */
  ghost predicate AllTriangular(data: seq<int>) {
    |data| == 0 || (TriangleNumber(data[0]) && AllTriangular(data[1..]))
  }

  /** No score is a triangle number. */
  ghost predicate NoneTriangular(data: seq<int>) {
    |data| == 0 || (!TriangleNumber(data[0]) && NoneTriangular(data[1..]))
  }

  lemma RaisingCons(data: seq<int>)
    requires |data| > 0
    ensures SomeTestRaises(data) <==> TestRaises(data[0]) || SomeTestRaises(data[1..])
  {
    assert forall i :: 1 <= i < |data| ==> data[i] == data[1..][i - 1];
  }

  /** src/problem_42.py: `sum(1 for n in data if is_triangle(n))`. The
      exception of the first score the test raises on leaves the sum. */
  function CountTriangular(data: seq<int>): (r: Result<nat>)
    ensures r.Err? <==> SomeTestRaises(data)
    ensures r.Err? ==> (r.error.OverflowError? <==> !FitsFloat(2 * data[FirstRaising(data)]))
    ensures r.Err? ==> (r.error.TypeError? <==> FitsFloat(2 * data[FirstRaising(data)]))
    ensures r.Ok? ==> r.value <= |data|
    ensures r.Ok? ==> (r.value == |data| <==> AllTriangular(data))
    ensures r.Ok? ==> (r.value == 0 <==> NoneTriangular(data))
  {
    if |data| == 0 then Ok(0)
    else
      RaisingCons(data);
      match TriangleTest(data[0])
      case Err(e) => Err(e)
      case Ok(b) =>
        match CountTriangular(data[1..])
        case Err(e) =>
          FirstRaisingTail(data);
          Err(e)
        case Ok(rest) => Ok((if b then 1 else 0) + rest)
  }

  /** `[is_triangle(n) for n in data]`, as far as the sum draws it: the first
      score the test raises on ends it. */
  function TriangleFlags(data: seq<int>): (r: Result<seq<bool>>)
    ensures r.Err? <==> SomeTestRaises(data)
    ensures r.Err? ==> (r.error.OverflowError? <==> !FitsFloat(2 * data[FirstRaising(data)]))
    ensures r.Err? ==> (r.error.TypeError? <==> FitsFloat(2 * data[FirstRaising(data)]))
    ensures r.Ok? ==> |r.value| == |data|
    ensures r.Ok? ==> forall i :: 0 <= i < |data| ==> (r.value[i] <==> IsTriangular(data[i]))
  {
    if |data| == 0 then Ok([])
    else
      RaisingCons(data);
      match TriangleTest(data[0])
      case Err(e) => Err(e)
      case Ok(b) =>
        match TriangleFlags(data[1..])
        case Err(e) =>
          FirstRaisingTail(data);
          Err(e)
        case Ok(rest) =>
          assert forall i :: 1 <= i < |data| ==> data[i] == data[1..][i - 1];
          Ok([b] + rest)
  }

  /** `sum(flags)`: `True` adds one, `False` adds nothing. */
  function SumBools(flags: seq<bool>): (r: nat)
    ensures r <= |flags|
  {
    if |flags| == 0 then 0 else (if flags[0] then 1 else 0) + SumBools(flags[1..])
  }

  /** python/problem_42.py: `sum(is_triangle(n) for n in data)` */
  function Problem42(data: seq<int>): (r: Result<nat>)
    ensures r.Err? <==> SomeTestRaises(data)
    ensures r.Err? ==> (r.error.OverflowError? <==> !FitsFloat(2 * data[FirstRaising(data)]))
    ensures r.Err? ==> (r.error.TypeError? <==> FitsFloat(2 * data[FirstRaising(data)]))
    ensures r.Ok? ==> r.value <= |data|
  {
    match TriangleFlags(data)
    case Err(e) => Err(e)
    case Ok(flags) => Ok(SumBools(flags))
  }

  /** Summing the test's booleans counts the words that pass it: both files
      compute the same number, and raise the same error. */
  lemma {:induction false} RevisionsAgree(data: seq<int>)
    ensures Problem42(data) == CountTriangular(data)
    decreases |data|
  {
    if |data| > 0 {
      RevisionsAgree(data[1..]);
      match TriangleTest(data[0])
      case Err(e) => HeadRaises(data, e);
      case Ok(b) =>
        match TriangleFlags(data[1..])
        case Err(e) => TailRaises(data, b, e);
        case Ok(rest) =>
          SumOfFlags(data[1..], rest);
          BothCount(data, b, rest);
    }
  }

  lemma HeadRaises(data: seq<int>, e: PyError)
    requires |data| > 0 && TriangleTest(data[0]) == Err(e)
    ensures Problem42(data) == Err(e) == CountTriangular(data)
  {
    assert TriangleFlags(data) == Err(e);
  }

  lemma TailRaises(data: seq<int>, b: bool, e: PyError)
    requires |data| > 0 && TriangleTest(data[0]) == Ok(b)
    requires TriangleFlags(data[1..]) == Err(e)
    requires Problem42(data[1..]) == CountTriangular(data[1..])
    ensures Problem42(data) == Err(e) == CountTriangular(data)
  {
    assert TriangleFlags(data) == Err(e);
  }

  lemma BothCount(data: seq<int>, b: bool, rest: seq<bool>)
    requires |data| > 0 && TriangleTest(data[0]) == Ok(b)
    requires TriangleFlags(data[1..]) == Ok(rest)
    requires CountTriangular(data[1..]) == Ok(SumBools(rest))
    ensures Problem42(data) == CountTriangular(data)
  {
    CountCons(data, b, SumBools(rest));
    FlagsCons(data, b, rest);
    SumBoolsCons(b, rest);
  }

  lemma SumOfFlags(data: seq<int>, flags: seq<bool>)
    requires TriangleFlags(data) == Ok(flags)
    ensures Problem42(data) == Ok(SumBools(flags))
  {
  }

  lemma SumBoolsCons(b: bool, rest: seq<bool>)
    ensures SumBools([b] + rest) == (if b then 1 else 0) + SumBools(rest)
  {
    assert ([b] + rest)[1..] == rest;
  }

  lemma CountCons(data: seq<int>, b: bool, n: nat)
    requires |data| > 0 && TriangleTest(data[0]) == Ok(b) && CountTriangular(data[1..]) == Ok(n)
    ensures CountTriangular(data) == Ok((if b then 1 else 0) + n)
  {
  }

  lemma FlagsCons(data: seq<int>, b: bool, rest: seq<bool>)
    requires |data| > 0 && TriangleTest(data[0]) == Ok(b) && TriangleFlags(data[1..]) == Ok(rest)
    ensures Problem42(data) == Ok(SumBools([b] + rest))
  {
    assert TriangleFlags(data) == Ok([b] + rest);
  }

  /** A blank kept inside the quotes scores `ord(' ') - 64 = -31`, so the
      count over a word file holding `" A"` raises `TypeError`. */
  lemma BlankWordRaises()
    ensures CleanField(" \" A\" ") == " A" && WordValue(" A") == -31
    ensures CountTriangular(Convert([" A"])).Err?
    ensures Problem42(Convert([" A"])).error.TypeError?
  {
    InnerBlankSurvives();
    BlankAScore();
    var scores := Convert([" A"]);
    assert scores[0] == -31;
    assert TriangleTest(scores[0]).Err?;
  }

  /** Of two raising scores, the first one's exception is the one seen: a
      negative score before a huge one gives `TypeError`, the other order
      `OverflowError`. */
  lemma FirstExceptionWins()
    ensures CountTriangular([-1, FloatOverflow]).error.TypeError?
    ensures CountTriangular([FloatOverflow, -1]).error.OverflowError?
  {
    assert TriangleTest([-1, FloatOverflow][0]).Err?;
    assert TriangleTest([FloatOverflow, -1][0]).Err?;
  }

  lemma BlankAScore()
    ensures WordValue(" A") == -31
  {
    assert " A"[1..] == "A";
    WordValueOfLetter('A');
  }

  /** SKY is worth 19 + 11 + 25 = 55, the tenth triangle number. */
  lemma SkyIsTriangular()
    ensures IsTriangular(WordValue("SKY"))
  {
    assert "SKY" == "S" + "KY" && "KY" == "K" + "Y";
    WordValueAppend("S", "KY");
    WordValueAppend("K", "Y");
    WordValueOfLetter('S');
    WordValueOfLetter('K');
    WordValueOfLetter('Y');
    assert Tri(10) == 55;
  }
}
