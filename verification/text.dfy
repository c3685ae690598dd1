/** Python string built-ins used by the modelled code, on `seq<char>`.

    Whitespace and line boundaries are the ones below U+0100; Unicode
    whitespace beyond Latin-1 is not modelled. `.upper()` maps only `a`-`z`:
    no other case mapping, Latin-1 included, is modelled. */
module Text {

  /** `str.isspace()` (and the regular-expression class `\s`) below U+0100:
      space, tab, line feed, vertical tab, form feed, carriage return, the
      four information separators U+001C..U+001F, NEL and NO-BREAK SPACE. */
  predicate IsWhitespace(c: char) {
    c == ' ' || ('\t' <= c <= '\r') || ('\U{1C}' <= c <= '\U{1F}')
    || c == '\U{85}' || c == '\U{A0}'
  }

  /** The characters at which `str.splitlines()` breaks a line (below U+0100). */
  predicate IsLineBoundary(c: char) {
    ('\n' <= c <= '\r') || ('\U{1C}' <= c <= '\U{1E}') || c == '\U{85}'
  }

  lemma LineBoundaryIsWhitespace(c: char)
    ensures IsLineBoundary(c) ==> IsWhitespace(c)
  {
  }

  predicate NoWhitespace(s: string) {
    forall i :: 0 <= i < |s| ==> !IsWhitespace(s[i])
  }

  predicate NoLineBoundary(s: string) {
    forall i :: 0 <= i < |s| ==> !IsLineBoundary(s[i])
  }

  /** `s[::-1]` */
  function Reverse(s: string): (r: string)
    ensures |r| == |s|
    ensures forall i :: 0 <= i < |s| ==> r[i] == s[|s| - 1 - i]
  {
    if |s| == 0 then [] else Reverse(s[1..]) + [s[0]]
  }

  lemma {:induction false} ReverseInvolution(s: string)
    ensures Reverse(Reverse(s)) == s
  {
    var r := Reverse(Reverse(s));
    assert forall i :: 0 <= i < |s| ==> r[i] == s[i];
  }

  /** `s == s[::-1]` */
  predicate IsPalindrome(s: string) {
    s == Reverse(s)
  }

  /** Every character mirrors its counterpart: the index form of `IsPalindrome`. */
  lemma PalindromeMirror(s: string)
    ensures IsPalindrome(s) <==> forall i :: 0 <= i < |s| ==> s[i] == s[|s| - 1 - i]
  {
    if forall i :: 0 <= i < |s| ==> s[i] == s[|s| - 1 - i] {
      assert s == Reverse(s);
    }
  }

  /** `s.replace(c, "")` for a one-character `c`. */
  function Remove(s: string, c: char): (r: string)
    ensures c !in r
    ensures multiset(r) == multiset(s)[c := 0]
    ensures |r| == |s| - multiset(s)[c]
  {
    if |s| == 0 then []
    else
      assert s == [s[0]] + s[1..];
      if s[0] == c then Remove(s[1..], c) else [s[0]] + Remove(s[1..], c)
  }

  lemma {:induction false} RemoveAppend(a: string, b: string, c: char)
    ensures Remove(a + b, c) == Remove(a, c) + Remove(b, c)
    decreases |a|
  {
    if |a| == 0 {
      assert a + b == b;
    } else {
      assert (a + b)[1..] == a[1..] + b;
      RemoveAppend(a[1..], b, c);
    }
  }

  /** Removing a character the text does not hold changes nothing. */
  lemma {:induction false} RemoveFree(s: string, c: char)
    requires c !in s
    ensures Remove(s, c) == s
    decreases |s|
  {
    if |s| > 0 {
      assert s[1..] == s[|s| - (|s| - 1)..];
      assert c !in s[1..] by {
        forall i | 0 <= i < |s| - 1 ensures s[1..][i] != c {
          assert s[1..][i] == s[i + 1];
        }
      }
      RemoveFree(s[1..], c);
    }
  }

  /** `sep.join(parts)` */
  function JoinWith(parts: seq<string>, sep: string): string {
    if |parts| == 0 then []
    else if |parts| == 1 then parts[0]
    else parts[0] + sep + JoinWith(parts[1..], sep)
  }

  lemma {:induction false} JoinWithAppend(xs: seq<string>, ys: seq<string>, sep: string)
    requires |xs| > 0 && |ys| > 0
    ensures JoinWith(xs + ys, sep) == JoinWith(xs, sep) + sep + JoinWith(ys, sep)
    decreases |xs|
  {
    if |xs| == 1 {
      assert (xs + ys)[1..] == ys;
    } else {
      assert (xs + ys)[1..] == xs[1..] + ys;
      JoinWithAppend(xs[1..], ys, sep);
    }
  }

  /** `s.split(sep)` for a one-character separator: always one more field than separators. */
  function SplitOn(s: string, sep: char): (r: seq<string>)
    ensures |r| > 0
    ensures forall i :: 0 <= i < |r| ==> sep !in r[i]
  {
    if |s| == 0 then [[]]
    else
      var rest := SplitOn(s[1..], sep);
      if s[0] == sep then [[]] + rest
      else [[s[0]] + rest[0]] + rest[1..]
  }

  /** There is always one more field than there are separators. */
  lemma {:induction false} SplitOnFieldCount(s: string, sep: char)
    ensures |SplitOn(s, sep)| == multiset(s)[sep] + 1
    decreases |s|
  {
    if |s| > 0 {
      SplitOnFieldCount(s[1..], sep);
      SplitOnCons(s, sep);
      assert s == [s[0]] + s[1..];
    }
  }

  /** Joining the fields with the separator gives back the input. */
  lemma {:induction false} JoinSplitOn(s: string, sep: char)
    ensures JoinWith(SplitOn(s, sep), [sep]) == s
    decreases |s|
  {
    if |s| > 0 {
      var tail := s[1..];
      var rest := SplitOn(tail, sep);
      JoinSplitOn(tail, sep);
      SplitOnCons(s, sep);
      assert s == [s[0]] + tail;
      if s[0] == sep {
        JoinCons([], rest, [sep]);
      } else if |rest| > 1 {
        JoinCons([s[0]] + rest[0], rest[1..], [sep]);
        JoinCons(rest[0], rest[1..], [sep]);
        assert rest == [rest[0]] + rest[1..];
      }
    }
  }

  /** One step of `SplitOn`: a leading separator opens a new empty field,
      any other character joins the first field. */
  lemma SplitOnCons(s: string, sep: char)
    requires |s| > 0
    ensures s[0] == sep ==> SplitOn(s, sep) == [[]] + SplitOn(s[1..], sep)
    ensures s[0] != sep ==>
      SplitOn(s, sep) == [[s[0]] + SplitOn(s[1..], sep)[0]] + SplitOn(s[1..], sep)[1..]
  {
  }

  lemma JoinCons(head: string, tail: seq<string>, sep: string)
    requires |tail| > 0
    ensures JoinWith([head] + tail, sep) == head + sep + JoinWith(tail, sep)
  {
    assert ([head] + tail)[1..] == tail;
  }

  /** Splitting a join of separator-free fields gives back the fields. */
  lemma {:induction false} SplitOnJoin(parts: seq<string>, sep: char)
    requires |parts| > 0
    requires forall i :: 0 <= i < |parts| ==> sep !in parts[i]
    ensures SplitOn(JoinWith(parts, [sep]), sep) == parts
    decreases |parts|
  {
    if |parts| == 1 {
      SplitOnFree(parts[0], sep);
    } else {
      var tail := parts[1..];
      assert forall i :: 0 <= i < |tail| ==> sep !in tail[i] by {
        forall i | 0 <= i < |tail| ensures sep !in tail[i] {
          assert tail[i] == parts[i + 1];
        }
      }
      SplitOnJoin(tail, sep);
      var rest := JoinWith(tail, [sep]);
      assert JoinWith(parts, [sep]) == parts[0] + [sep] + rest;
      SplitOnPrefix(parts[0], rest, sep);
      assert [parts[0]] + tail == parts;
    }
  }

  lemma {:induction false} SplitOnFree(s: string, sep: char)
    requires sep !in s
    ensures SplitOn(s, sep) == [s]
    decreases |s|
  {
    if |s| > 0 {
      assert s[1..] == s[|s| - (|s| - 1)..];
      assert sep !in s[1..] by {
        forall i | 0 <= i < |s| - 1 ensures s[1..][i] != sep {
          assert s[1..][i] == s[i + 1];
        }
      }
      SplitOnFree(s[1..], sep);
      assert s == [s[0]] + s[1..];
    }
  }

  lemma {:induction false} SplitOnPrefix(a: string, b: string, sep: char)
    requires sep !in a
    ensures SplitOn(a + [sep] + b, sep) == [a] + SplitOn(b, sep)
    decreases |a|
  {
    if |a| == 0 {
      assert a + [sep] + b == [sep] + b;
      assert ([sep] + b)[1..] == b;
    } else {
      assert (a + [sep] + b)[1..] == a[1..] + [sep] + b;
      assert sep !in a[1..] by {
        forall i | 0 <= i < |a| - 1 ensures a[1..][i] != sep {
          assert a[1..][i] == a[i + 1];
        }
      }
      SplitOnPrefix(a[1..], b, sep);
      assert a == [a[0]] + a[1..];
    }
  }

  /** Length of the leading run of non-whitespace characters. */
  function TokenLength(s: string): (n: nat)
    ensures n <= |s|
    ensures forall i :: 0 <= i < n ==> !IsWhitespace(s[i])
    ensures n < |s| ==> IsWhitespace(s[n])
  {
    if |s| == 0 || IsWhitespace(s[0]) then 0 else 1 + TokenLength(s[1..])
  }

  /** `s.split()` with no argument: maximal runs of non-whitespace characters. */
  function SplitWhitespace(s: string): (r: seq<string>)
    ensures forall i :: 0 <= i < |r| ==> |r[i]| > 0 && NoWhitespace(r[i])
    decreases |s|
  {
    if |s| == 0 then []
    else if IsWhitespace(s[0]) then SplitWhitespace(s[1..])
    else
      var n := TokenLength(s);
      [s[..n]] + SplitWhitespace(s[n..])
  }

  /** Splitting tokens joined by single spaces gives back the tokens. */
  lemma {:induction false} SplitWhitespaceJoin(tokens: seq<string>)
    requires forall i :: 0 <= i < |tokens| ==> |tokens[i]| > 0 && NoWhitespace(tokens[i])
    ensures SplitWhitespace(JoinWith(tokens, " ")) == tokens
    decreases |tokens|
  {
    if |tokens| == 1 {
      TokenLengthOfWord(tokens[0], []);
      assert tokens[0] + [] == tokens[0];
    } else if |tokens| > 1 {
      var t := tokens[0];
      var rest := JoinWith(tokens[1..], " ");
      var s := JoinWith(tokens, " ");
      assert s == t + (" " + rest);
      TokenLengthOfWord(t, " " + rest);
      assert s[|t|..] == " " + rest;
      assert s[..|t|] == t;
      assert (" " + rest)[1..] == rest;
      SplitWhitespaceJoin(tokens[1..]);
    }
  }

  lemma {:induction false} TokenLengthOfWord(w: string, tail: string)
    requires NoWhitespace(w)
    requires |tail| == 0 || IsWhitespace(tail[0])
    ensures TokenLength(w + tail) == |w|
    decreases |w|
  {
    if |w| > 0 {
      assert (w + tail)[1..] == w[1..] + tail;
      TokenLengthOfWord(w[1..], tail);
    } else {
      assert w + tail == tail;
    }
  }

  /** Length of a line: the characters before the first line boundary. */
  function LineLength(s: string): (n: nat)
    ensures n <= |s|
    ensures NoLineBoundary(s[..n])
    ensures n < |s| ==> IsLineBoundary(s[n])
  {
    if |s| == 0 || IsLineBoundary(s[0]) then 0
    else
      var n := 1 + LineLength(s[1..]);
      assert s[..n] == [s[0]] + s[1..][..n - 1];
      n
  }

  /** `s.splitlines()`: a trailing boundary does not start an empty line,
      and `"\r\n"` is a single boundary. */
  function SplitLines(s: string): (r: seq<string>)
    ensures forall i :: 0 <= i < |r| ==> NoLineBoundary(r[i])
    ensures |s| == 0 <==> |r| == 0
    decreases |s|
  {
    if |s| == 0 then []
    else
      var n := LineLength(s);
      if n == |s| then [s]
      else
        var skip := if s[n] == '\r' && n + 1 < |s| && s[n + 1] == '\n' then 2 else 1;
        [s[..n]] + SplitLines(s[n + skip..])
  }

  /** Each line followed by `"\n"`, the usual layout of a text file. */
  function Terminated(lines: seq<string>): string {
    if |lines| == 0 then [] else lines[0] + "\n" + Terminated(lines[1..])
  }

  /** Splitting a newline-terminated text gives back its lines. */
  lemma {:induction false} SplitLinesTerminated(lines: seq<string>)
    requires forall i :: 0 <= i < |lines| ==> NoLineBoundary(lines[i])
    ensures SplitLines(Terminated(lines)) == lines
    decreases |lines|
  {
    if |lines| > 0 {
      var l := lines[0];
      var rest := Terminated(lines[1..]);
      var s := Terminated(lines);
      assert s == l + ("\n" + rest);
      LineLengthOfLine(l, "\n" + rest);
      assert s[..|l|] == l;
      assert s[|l|] == '\n';
      assert s[|l| + 1..] == rest;
      SplitLinesTerminated(lines[1..]);
    }
  }

  lemma {:induction false} LineLengthOfLine(l: string, tail: string)
    requires NoLineBoundary(l)
    requires |tail| > 0 && IsLineBoundary(tail[0])
    ensures LineLength(l + tail) == |l|
    decreases |l|
  {
    if |l| > 0 {
      assert (l + tail)[1..] == l[1..] + tail;
      LineLengthOfLine(l[1..], tail);
    } else {
      assert l + tail == tail;
    }
  }

  /** What is left of `s` once the leading and trailing characters of the
      class `space` are cut off. */
  function StripBy(s: string, space: char -> bool): (r: string)
    ensures exists i, j :: 0 <= i <= j <= |s| && r == s[i..j]
              && (forall k :: 0 <= k < i ==> space(s[k]))
              && (forall k :: j <= k < |s| ==> space(s[k]))
    ensures |r| > 0 ==> !space(r[0]) && !space(r[|r| - 1])
  {
    var i := LeadingSpace(s, space);
    var j := TrailingStart(s[i..], space);
    assert s[i..][..j] == s[i..i + j];
    s[i..i + j]
  }

  function LeadingSpace(s: string, space: char -> bool): (n: nat)
    ensures n <= |s|
    ensures forall k :: 0 <= k < n ==> space(s[k])
    ensures n < |s| ==> !space(s[n])
  {
    if |s| == 0 || !space(s[0]) then 0 else 1 + LeadingSpace(s[1..], space)
  }

  function TrailingStart(s: string, space: char -> bool): (n: nat)
    ensures n <= |s|
    ensures forall k :: n <= k < |s| ==> space(s[k])
    ensures n > 0 ==> !space(s[n - 1])
  {
    if |s| == 0 || !space(s[|s| - 1]) then |s| else TrailingStart(s[..|s| - 1], space)
  }

  /** Text that neither starts nor ends with a character of the class is
      left as it is. */
  lemma StripByUntouched(s: string, space: char -> bool)
    requires |s| > 0 ==> !space(s[0]) && !space(s[|s| - 1])
    ensures StripBy(s, space) == s
  {
    assert LeadingSpace(s, space) == 0;
    assert TrailingStart(s, space) == |s|;
    assert s[0..|s|] == s;
  }

  /** `s.strip()`: the middle of `s` that neither starts nor ends with whitespace. */
  function Strip(s: string): (r: string)
    ensures exists i, j :: 0 <= i <= j <= |s| && r == s[i..j]
              && (forall k :: 0 <= k < i ==> IsWhitespace(s[k]))
              && (forall k :: j <= k < |s| ==> IsWhitespace(s[k]))
    ensures |r| > 0 ==> !IsWhitespace(r[0]) && !IsWhitespace(r[|r| - 1])
  {
    StripBy(s, IsWhitespace)
  }

  /** Text that neither starts nor ends with whitespace is its own strip. */
  lemma StripUntouched(s: string)
    requires |s| > 0 ==> !IsWhitespace(s[0]) && !IsWhitespace(s[|s| - 1])
    ensures Strip(s) == s
  {
    StripByUntouched(s, IsWhitespace);
  }

  lemma StripIdempotent(s: string)
    ensures Strip(Strip(s)) == Strip(s)
  {
    StripUntouched(Strip(s));
  }

  /** ASCII `str.upper()` on one character. */
  function UpperChar(c: char): (u: char)
    ensures 'a' <= c <= 'z' ==> u as int == c as int - 32
    ensures !('a' <= c <= 'z') ==> u == c
    ensures !('a' <= u <= 'z')
  {
    if 'a' <= c <= 'z' then (c as int - 32) as char else c
  }

  /** `s.upper()` on ASCII text. */
  function Upper(s: string): (r: string)
    ensures |r| == |s|
    ensures forall i :: 0 <= i < |s| ==> r[i] == UpperChar(s[i])
  {
    if |s| == 0 then [] else [UpperChar(s[0])] + Upper(s[1..])
  }

  lemma UpperIdempotent(s: string)
    ensures Upper(Upper(s)) == Upper(s)
  {
    var u := Upper(s);
    assert forall i :: 0 <= i < |u| ==> UpperChar(u[i]) == u[i];
  }

  /** Where a Python slice bound lands in a sequence of length `len`: a
      negative bound counts from the end, and both ends are clamped. */
  function SliceBound(len: nat, i: int): (k: nat)
    ensures k <= len
    ensures 0 <= i <= len ==> k == i
    ensures i > len ==> k == len
    ensures i < 0 ==> k == if i + len < 0 then 0 else i + len
  {
    if i < 0 then (if i + len < 0 then 0 else i + len)
    else if i > len then len
    else i
  }

  /** `s[start:stop]` */
  function Slice<T>(s: seq<T>, start: int, stop: int): (r: seq<T>)
    ensures 0 <= start <= stop <= |s| ==> r == s[start..stop]
    ensures 0 <= start <= |s| <= stop ==> r == s[start..]
    ensures 0 <= stop && stop <= start ==> r == []
    ensures exists a :: 0 <= a <= |s| - |r| && r == s[a..][..|r|]
  {
    var a := SliceBound(|s|, start);
    var b := SliceBound(|s|, stop);
    if a <= b then
      assert s[a..b] == s[a..][..|s[a..b]|];
      s[a..b]
    else
      assert s[a..a] == s[a..][..0];
      s[a..a]
  }
}
