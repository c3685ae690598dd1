/** Console colouring of python/tools/colorize.py. The colours are Select
    Graphic Rendition control sequences (section 8.3.117 of ECMA-48):
    CSI, a parameter, and the final byte `m`. */
module Colorize {

  const CSI: string := "\U{1B}["
  const M: string := "m"

  const RED: string := CSI + "31" + M
  const GREEN: string := CSI + "32" + M
  const YELLOW: string := CSI + "33" + M
  const RESET: string := CSI + "0" + M

  /** `range(lo, hi)` used as a dictionary key, paired with its colour. */
  datatype Span = Span(lo: int, hi: int, color: string) {
    predicate Contains(n: int) {
      lo <= n < hi
    }
  }

  /** `COLOR_RANGE`, in the dictionary's insertion order. */
  const COLOR_RANGE: seq<Span> := [Span(0, 140, GREEN), Span(140, 300, YELLOW)]

  /** `colorize(obj, color)` where `text` is `str(obj)`: the text framed by the
      colour and the reset sequence. */
  function Colorize(text: string, color: string): (r: string)
    ensures |r| == |color| + |text| + |RESET|
    ensures r[..|color|] == color
    ensures r[|color|..|color| + |text|] == text
    ensures r[|color| + |text|..] == RESET
  {
    color + text + RESET
  }

  /** Python's `round()` on a number: to the nearest integer, ties to even. */
  function RoundHalfEven(x: real): (r: int)
    ensures r as real - 0.5 <= x <= r as real + 0.5
    ensures (x == r as real - 0.5 || x == r as real + 0.5) ==> r % 2 == 0
  {
    var f := x.Floor;
    var d := x - f as real;
    if d < 0.5 then f
    else if d > 0.5 then f + 1
    else if f % 2 == 0 then f
    else f + 1
  }

  /** The two conditions of `RoundHalfEven` single out one integer. */
  lemma RoundHalfEvenUnique(x: real, k: int)
    requires k as real - 0.5 <= x <= k as real + 0.5
    requires (x == k as real - 0.5 || x == k as real + 0.5) ==> k % 2 == 0
    ensures k == RoundHalfEven(x)
  {
    var r := RoundHalfEven(x);
    assert (k - r) as real <= 1.0 && (r - k) as real <= 1.0;
    assert k - r == 1 ==> x == r as real + 0.5 && x == k as real - 0.5;
    assert r - k == 1 ==> x == k as real + 0.5 && x == r as real - 0.5;
  }

  /** The loop of `time_format`: the colour of the first span holding `n`. */
  function SelectColor(spans: seq<Span>, n: int, fallback: string): (c: string)
    ensures (forall i :: 0 <= i < |spans| ==> !spans[i].Contains(n)) ==> c == fallback
    ensures forall i :: (0 <= i < |spans| && spans[i].Contains(n)
                         && forall j :: 0 <= j < i ==> !spans[j].Contains(n)) ==> c == spans[i].color
  {
    if |spans| == 0 then fallback
    else if spans[0].Contains(n) then spans[0].color
    else SelectColor(spans[1..], n, fallback)
  }

  /** A dictionary is iterated in some order; any listing of the same spans
      selects the same colour, because the spans of `COLOR_RANGE` are disjoint. */
  lemma SelectColorOrderIrrelevant(spans: seq<Span>, n: int, fallback: string)
    requires forall s :: s in spans <==> s in COLOR_RANGE
    ensures SelectColor(spans, n, fallback) == SelectColor(COLOR_RANGE, n, fallback)
  {
    SelectColorRange(n, fallback);
    if exists i :: 0 <= i < |spans| && spans[i].Contains(n) {
      var k := FirstContaining(spans, n);
      assert spans[k] in COLOR_RANGE;
      assert spans[k] == COLOR_RANGE[0] || spans[k] == COLOR_RANGE[1];
    } else {
      assert COLOR_RANGE[0] in spans && COLOR_RANGE[1] in spans;
      assert !COLOR_RANGE[0].Contains(n) && !COLOR_RANGE[1].Contains(n);
    }
  }

  /** The colour `COLOR_RANGE` selects, tier by tier. */
  lemma SelectColorRange(n: int, fallback: string)
    ensures SelectColor(COLOR_RANGE, n, fallback)
            == if 0 <= n < 140 then GREEN else if 140 <= n < 300 then YELLOW else fallback
  {
    assert COLOR_RANGE[1..] == [Span(140, 300, YELLOW)];
    assert COLOR_RANGE[1..][1..] == [];
  }

  function FirstContaining(spans: seq<Span>, n: int): (k: nat)
    requires exists i :: 0 <= i < |spans| && spans[i].Contains(n)
    ensures k < |spans| && spans[k].Contains(n)
    ensures forall j :: 0 <= j < k ==> !spans[j].Contains(n)
  {
    if spans[0].Contains(n) then 0
    else
      var i :| 0 <= i < |spans| && spans[i].Contains(n);
      assert spans[1..][i - 1] == spans[i];
      1 + FirstContaining(spans[1..], n)
  }

  /** `time_format(number, fallback)`: `render(number)` stands for `str(number)`.
      The rounded value only chooses the colour; the text is the number itself. */
  function TimeFormat(number: real, render: real -> string, fallback: string := RED): (r: string)
    ensures 0 <= RoundHalfEven(number) < 140 ==> r == Colorize(render(number), GREEN)
    ensures 140 <= RoundHalfEven(number) < 300 ==> r == Colorize(render(number), YELLOW)
    ensures !(0 <= RoundHalfEven(number) < 300) ==> r == Colorize(render(number), fallback)
  {
    SelectColorRange(RoundHalfEven(number), fallback);
    Colorize(render(number), SelectColor(COLOR_RANGE, RoundHalfEven(number), fallback))
  }
}
