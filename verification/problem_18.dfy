/** python/problem_18.py: the maximum total from top to bottom of a number
    triangle, by folding the bottom row into the one above until one row
    is left. The list is mutated in place; the model returns the list as it
    is left alongside the answer. */
module Problem18 {
  import opened Wrappers
  import opened Text
  import opened Digits

  type Triangle = seq<seq<int>>

  function Max(a: int, b: int): int {
    if a >= b then a else b
  }

  /** From row `i` down, every row is at least one longer than the row above. */
  predicate GoodBelow(t: Triangle, i: nat) {
    forall k :: i <= k < |t| - 1 ==> |t[k + 1]| >= |t[k]| + 1
  }

  /** The triangles `problem_18` answers without an `IndexError`. */
  predicate Solvable(t: Triangle) {
    |t| >= 1 && |t[0]| >= 1 && GoodBelow(t, 0)
  }

  /** Reference: the best total from entry `j` of row `i` to the bottom row,
      moving to one of the two adjacent entries below at each step. */
  function Best(t: Triangle, i: nat, j: nat): int
    requires i < |t| && j < |t[i]| && GoodBelow(t, i)
    decreases |t| - i
  {
    if i == |t| - 1 then t[i][j]
    else t[i][j] + Max(Best(t, i + 1, j), Best(t, i + 1, j + 1))
  }

  /** `row` holds the best totals from the entries of row `i`. */
  predicate RowIsBest(t: Triangle, i: nat, row: seq<int>)
    requires i < |t| && GoodBelow(t, i)
  {
    |row| == |t[i]| && forall j :: 0 <= j < |row| ==> row[j] == Best(t, i, j)
  }

  /** A path from entry `j` of row `i` to the bottom: one column per row,
      each the same as or one right of the column above. */
  predicate IsPath(t: Triangle, i: nat, j: nat, p: seq<nat>) {
    && i < |t|
    && |p| == |t| - i
    && p[0] == j
    && (forall k :: 0 <= k < |p| ==> p[k] < |t[i + k]|)
    && (forall k :: 0 <= k < |p| - 1 ==> p[k + 1] == p[k] || p[k + 1] == p[k] + 1)
  }

  function PathSum(t: Triangle, i: nat, p: seq<nat>): int
    requires i + |p| <= |t|
    requires forall k :: 0 <= k < |p| ==> p[k] < |t[i + k]|
    decreases |p|
  {
    if |p| == 0 then 0 else t[i][p[0]] + PathSum(t, i + 1, p[1..])
  }

  /** No path does better than `Best`. */
  lemma {:induction false} BestBoundsEveryPath(t: Triangle, i: nat, j: nat, p: seq<nat>)
    requires IsPath(t, i, j, p) && j < |t[i]| && GoodBelow(t, i)
    ensures PathSum(t, i, p) <= Best(t, i, j)
    decreases |t| - i
  {
    if i < |t| - 1 {
      var q := p[1..];
      assert IsPath(t, i + 1, p[1], q) by {
        forall k | 0 <= k < |q|
          ensures q[k] < |t[i + 1 + k]|
        {
          assert q[k] == p[k + 1];
        }
      }
      BestBoundsEveryPath(t, i + 1, p[1], q);
    }
  }

  /** Some path achieves `Best`. */
  lemma {:induction false} BestIsAttained(t: Triangle, i: nat, j: nat)
    requires i < |t| && j < |t[i]| && GoodBelow(t, i)
    ensures exists p :: IsPath(t, i, j, p) && PathSum(t, i, p) == Best(t, i, j)
    decreases |t| - i
  {
    if i == |t| - 1 {
      var p: seq<nat> := [j];
      assert IsPath(t, i, j, p) && PathSum(t, i, p) == Best(t, i, j);
    } else {
      var c := BetterBelow(t, i, j);
      BestIsAttained(t, i + 1, c);
      var q :| IsPath(t, i + 1, c, q) && PathSum(t, i + 1, q) == Best(t, i + 1, c);
      ExtendPath(t, i, j, c, q);
      assert IsPath(t, i, j, [j] + q) && PathSum(t, i, [j] + q) == Best(t, i, j);
    }
  }

  /** The entry below `j` that `Best` continues through. */
  lemma BetterBelow(t: Triangle, i: nat, j: nat) returns (c: nat)
    requires i + 1 < |t| && j < |t[i]| && GoodBelow(t, i)
    ensures (c == j || c == j + 1) && c < |t[i + 1]| && GoodBelow(t, i + 1)
    ensures Best(t, i, j) == t[i][j] + Best(t, i + 1, c)
  {
    c := if Best(t, i + 1, j) >= Best(t, i + 1, j + 1) then j else j + 1;
  }

  /** A path from one of the two entries below entry `j` extends upwards to `j`. */
  lemma ExtendPath(t: Triangle, i: nat, j: nat, c: nat, q: seq<nat>)
    requires i + 1 < |t| && j < |t[i]| && IsPath(t, i + 1, c, q)
    requires c == j || c == j + 1
    ensures IsPath(t, i, j, [j] + q)
    ensures PathSum(t, i, [j] + q) == t[i][j] + PathSum(t, i + 1, q)
  {
    var p := [j] + q;
    assert p[1..] == q;
    forall k | 0 <= k < |p|
      ensures p[k] < |t[i + k]|
    {
      if k > 0 {
        assert p[k] == q[k - 1];
      }
    }
    forall k | 0 <= k < |p| - 1
      ensures p[k + 1] == p[k] || p[k + 1] == p[k] + 1
    {
      if k > 0 {
        assert p[k] == q[k - 1] && p[k + 1] == q[k];
      }
    }
  }

  /** The new bottom row: `max(lrow[i], lrow[i + 1]) + v` for each entry `v` above. */
  function Combine(last: seq<int>, above: seq<int>): (r: seq<int>)
    requires |above| == 0 || |last| >= |above| + 1
    ensures |r| == |above|
    ensures forall i :: 0 <= i < |above| ==> r[i] == Max(last[i], last[i + 1]) + above[i]
  {
    seq(|above|, i requires 0 <= i < |above| => Max(last[i], last[i + 1]) + above[i])
  }

  /** `_reform(triangle)`: replace the last two rows by their combination.
      Indexing fails, before anything is changed, when there are fewer than
      two rows or the last row is too short for the row above. */
  function Reform(t: Triangle): (r: Result<Triangle>)
    ensures r.Err? <==> |t| < 2 || (|t[|t| - 2]| > 0 && |t[|t| - 1]| < |t[|t| - 2]| + 1)
    ensures r.Err? ==> r.error == IndexError
    ensures r.Ok? ==> |r.value| == |t| - 1 && r.value[..|t| - 2] == t[..|t| - 2]
    ensures r.Ok? ==> r.value[|t| - 2] == Combine(t[|t| - 1], t[|t| - 2])
  {
    if |t| < 2 then Err(IndexError)
    else
      var last := t[|t| - 1];
      var above := t[|t| - 2];
      if |above| > 0 && |last| < |above| + 1 then Err(IndexError)
      else Ok(t[..|t| - 2] + [Combine(last, above)])
  }

  /** `problem_18(data)`: the answer is the best top-to-bottom total exactly
      when the triangle is solvable, and then the list is left holding only
      the folded top row. */
  method Problem18(data: Triangle) returns (r: Result<int>, final: Triangle)
    ensures r.Ok? <==> Solvable(data)
    ensures r.Ok? ==> r.value == Best(data, 0, 0)
    ensures r.Ok? ==> |final| == 1 && RowIsBest(data, 0, final[0])
    ensures r.Err? ==> r.error == IndexError
  {
    final := data;
    if |data| == 0 {
      return Err(IndexError), final;
    }
    var m := |data|;
    while m != 1
      invariant 1 <= m <= |data| && |final| == m
      invariant final[..m - 1] == data[..m - 1]
      invariant |final[m - 1]| == |data[m - 1]|
      invariant GoodBelow(data, m - 1) ==> RowIsBest(data, m - 1, final[m - 1])
      invariant !GoodBelow(data, m - 1) ==> |data[m - 1]| == 0
      decreases m
    {
      var next := Reform(final);
      if next.Err? {
        assert !GoodBelow(data, 0) by {
          assert |data[m - 1]| < |data[m - 2]| + 1;
        }
        return Err(next.error), final;
      }
      FoldKeepsInvariant(data, final, m);
      final := next.value;
      m := m - 1;
    }
    if |final[0]| == 0 {
      return Err(IndexError), final;
    }
    r := Ok(final[0][0]);
  }

  /** One fold takes the invariant from `m` rows to `m - 1`. */
  lemma FoldKeepsInvariant(data: Triangle, cur: Triangle, m: nat)
    requires 2 <= m <= |data| && |cur| == m
    requires cur[..m - 1] == data[..m - 1]
    requires |cur[m - 1]| == |data[m - 1]|
    requires GoodBelow(data, m - 1) ==> RowIsBest(data, m - 1, cur[m - 1])
    requires !GoodBelow(data, m - 1) ==> |data[m - 1]| == 0
    requires Reform(cur).Ok?
    ensures var next := Reform(cur).value;
      && next[..m - 2] == data[..m - 2]
      && |next[m - 2]| == |data[m - 2]|
      && (GoodBelow(data, m - 2) ==> RowIsBest(data, m - 2, next[m - 2]))
      && (!GoodBelow(data, m - 2) ==> |data[m - 2]| == 0)
  {
    var next := Reform(cur).value;
    assert cur[m - 2] == data[m - 2];
    assert next[..m - 2] == cur[..m - 2];
    if GoodBelow(data, m - 2) {
      assert GoodBelow(data, m - 1);
    }
  }

  /** Folding the answer's list again answers the same. */
  lemma RerunOnResult(v: int)
    ensures Solvable([[v]]) && Best([[v]], 0, 0) == v
  {
  }

  /** Every token is accepted by `int()`. */
  predicate EveryTokenIsInt(tokens: seq<string>) {
    forall j :: 0 <= j < |tokens| ==> PyInt(tokens[j]).Ok?
  }

  /** `row` holds, entry by entry, what `int()` reads from `tokens`. */
  predicate ReadsAs(tokens: seq<string>, row: seq<int>) {
    |row| == |tokens| && forall j :: 0 <= j < |tokens| ==> PyInt(tokens[j]) == Ok(row[j])
  }

  /** `[int(x) for x in tokens]`: the first token that is not an integer raises. */
  function ParseInts(tokens: seq<string>): (r: Result<seq<int>>)
    ensures r.Ok? <==> EveryTokenIsInt(tokens)
    ensures r.Err? ==> r.error.ValueError?
    ensures r.Ok? ==> ReadsAs(tokens, r.value)
  {
    if |tokens| == 0 then Ok([])
    else
      match PyInt(tokens[0])
      case Err(e) => Err(e)
      case Ok(v) =>
        TokensCons(tokens);
        match ParseInts(tokens[1..])
        case Err(e) => Err(e)
        case Ok(vs) =>
          ReadsAsCons(tokens, v, vs);
          Ok([v] + vs)
  }

  lemma TokensCons(tokens: seq<string>)
    requires |tokens| > 0
    ensures EveryTokenIsInt(tokens) <==> PyInt(tokens[0]).Ok? && EveryTokenIsInt(tokens[1..])
  {
    assert forall j :: 0 <= j < |tokens| - 1 ==> tokens[1..][j] == tokens[j + 1];
  }

  lemma ReadsAsCons(tokens: seq<string>, v: int, vs: seq<int>)
    requires |tokens| > 0 && PyInt(tokens[0]) == Ok(v) && ReadsAs(tokens[1..], vs)
    ensures ReadsAs(tokens, [v] + vs)
  {
    ReadingsCons(PyInt, tokens, v, vs);
  }

  /** Prepending one reading to readings that match the rest keeps them matched. */
  lemma ReadingsCons(read: string -> Result<int>, tokens: seq<string>, v: int, vs: seq<int>)
    requires |tokens| > 0 && read(tokens[0]) == Ok(v) && |vs| == |tokens| - 1
    requires forall j :: 0 <= j < |vs| ==> read(tokens[1..][j]) == Ok(vs[j])
    ensures forall j :: 0 <= j < |tokens| ==> read(tokens[j]) == Ok(([v] + vs)[j])
  {
    var row := [v] + vs;
    forall j | 1 <= j < |tokens|
      ensures read(tokens[j]) == Ok(row[j])
    {
      assert tokens[1..][j - 1] == tokens[j] && row[j] == vs[j - 1];
    }
  }

  /** One row per line, each row the integers of the line's tokens. */
  function ParseRows(lines: seq<string>): (r: Result<Triangle>)
    ensures r.Ok? <==> forall i :: 0 <= i < |lines| ==> EveryTokenIsInt(SplitWhitespace(lines[i]))
    ensures r.Err? ==> r.error.ValueError?
    ensures r.Ok? ==> |r.value| == |lines|
    ensures r.Ok? ==> forall i :: 0 <= i < |lines| ==> ReadsAs(SplitWhitespace(lines[i]), r.value[i])
  {
    if |lines| == 0 then Ok([])
    else
      match ParseInts(SplitWhitespace(lines[0]))
      case Err(e) => Err(e)
      case Ok(row) =>
        match ParseRows(lines[1..])
        case Err(e) => Err(e)
        case Ok(rows) => Ok([row] + rows)
  }

  /** `_parse_triangle(data)`: one row per line, one entry per token of the
      line, each entry what `int()` reads from its token. */
  function ParseTriangle(data: string): (r: Result<Triangle>)
    ensures r.Ok? <==> forall i :: 0 <= i < |SplitLines(data)| ==> EveryTokenIsInt(SplitWhitespace(SplitLines(data)[i]))
    ensures r.Err? ==> r.error.ValueError?
    ensures r.Ok? ==> |r.value| == |SplitLines(data)|
    ensures r.Ok? ==> forall i :: 0 <= i < |r.value| ==> ReadsAs(SplitWhitespace(SplitLines(data)[i]), r.value[i])
  {
    var lines := SplitLines(data);
    var r := ParseRows(lines);
    assert r.Ok? <==> forall i :: 0 <= i < |lines| ==> EveryTokenIsInt(SplitWhitespace(lines[i]));
    r
  }

  /** An entry may group its digits with an underscore, as `int()` allows. */
  lemma ParseGroupedEntry()
    ensures ParseTriangle("1_0") == Ok([[10]])
  {
    var data := "1_0";
    OneToken(data);
    GroupedLiteral();
    var r := ParseTriangle(data);
    assert EveryTokenIsInt(SplitWhitespace(SplitLines(data)[0]));
    assert r.Ok? && |r.value| == 1;
    assert ReadsAs([data], r.value[0]);
    assert r.value[0] == [10];
    assert r.value == [[10]];
  }

  lemma OneToken(data: string)
    requires data == "1_0"
    ensures SplitLines(data) == [data] && SplitWhitespace(data) == [data]
  {
    assert NoWhitespace(data);
    SplitWhitespaceJoin([data]);
    assert JoinWith([data], " ") == data;
  }

  /** The text of a triangle file: each row's numbers separated by single
      spaces, each row ended by a line feed. */
  function Render(t: Triangle): string {
    Terminated(RenderLines(t))
  }

  function RenderLines(t: Triangle): (r: seq<string>)
    ensures |r| == |t| && forall i :: 0 <= i < |t| ==> r[i] == JoinWith(Numerals(t[i]), " ")
  {
    if |t| == 0 then [] else [JoinWith(Numerals(t[0]), " ")] + RenderLines(t[1..])
  }

  function Numerals(row: seq<int>): (r: seq<string>)
    ensures |r| == |row| && forall i :: 0 <= i < |row| ==> r[i] == PyStr(row[i])
  {
    if |row| == 0 then [] else [PyStr(row[0])] + Numerals(row[1..])
  }

  lemma PyStrNoWhitespace(i: int)
    ensures NoWhitespace(PyStr(i))
  {
    var s := PyStr(i);
    if i < 0 {
      assert forall k :: 1 <= k < |s| ==> s[k] == DecimalString(-i)[k - 1];
    }
  }

  lemma {:induction false} JoinNoWhitespace(parts: seq<string>)
    requires forall i :: 0 <= i < |parts| ==> NoWhitespace(parts[i])
    ensures NoLineBoundary(JoinWith(parts, " "))
    decreases |parts|
  {
    if |parts| == 1 {
      assert forall k :: 0 <= k < |parts[0]| ==> !IsWhitespace(parts[0][k]);
    } else if |parts| > 1 {
      JoinNoWhitespace(parts[1..]);
      var a := parts[0] + " ";
      var b := JoinWith(parts[1..], " ");
      assert JoinWith(parts, " ") == a + b;
      assert forall k :: 0 <= k < |a| ==> !IsLineBoundary(a[k]) by {
        forall k | 0 <= k < |a|
          ensures !IsLineBoundary(a[k])
        {
          if k < |parts[0]| {
            assert a[k] == parts[0][k];
          }
        }
      }
    }
  }

  /** One rendered row parses back to the row. */
  lemma ParseRowRender(row: seq<int>)
    ensures ParseInts(SplitWhitespace(JoinWith(Numerals(row), " "))) == Ok(row)
  {
    var ns := Numerals(row);
    forall i | 0 <= i < |ns|
      ensures |ns[i]| > 0 && NoWhitespace(ns[i])
    {
      PyStrNoWhitespace(row[i]);
    }
    SplitWhitespaceJoin(ns);
    forall i | 0 <= i < |ns|
      ensures PyInt(ns[i]) == Ok(row[i])
    {
      PyIntPyStr(row[i]);
    }
    var r := ParseInts(ns);
    assert r.Ok?;
    assert r.value == row;
  }

  lemma {:induction false} ParseRowsRender(t: Triangle)
    ensures ParseRows(RenderLines(t)) == Ok(t)
    decreases |t|
  {
    if |t| > 0 {
      var lines := RenderLines(t);
      ParseRowRender(t[0]);
      ParseRowsRender(t[1..]);
      assert lines[0] == JoinWith(Numerals(t[0]), " ");
      assert lines[1..] == RenderLines(t[1..]);
      ParseRowsCons(lines, t[0], t[1..]);
      assert t == [t[0]] + t[1..];
    }
  }

  lemma ParseRowsCons(lines: seq<string>, row: seq<int>, rows: Triangle)
    requires |lines| > 0
    requires ParseInts(SplitWhitespace(lines[0])) == Ok(row)
    requires ParseRows(lines[1..]) == Ok(rows)
    ensures ParseRows(lines) == Ok([row] + rows)
  {
  }

  /** Parsing the text of a triangle gives back the triangle. */
  lemma ParseRender(t: Triangle)
    ensures ParseTriangle(Render(t)) == Ok(t)
  {
    var lines := RenderLines(t);
    forall i | 0 <= i < |lines|
      ensures NoLineBoundary(lines[i])
    {
      forall k | 0 <= k < |t[i]|
        ensures NoWhitespace(Numerals(t[i])[k])
      {
        PyStrNoWhitespace(t[i][k]);
      }
      JoinNoWhitespace(Numerals(t[i]));
    }
    SplitLinesTerminated(lines);
    ParseRowsRender(t);
  }
}
