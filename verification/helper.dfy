/** The string utilities of python/tools/helper.py. */
module Helper {
  import opened Wrappers
  import opened Text

  const COMMA_SEP: string := ", "

  /** `re.sub(r"\s+", "", s)`: every run of whitespace replaced by nothing. */
  function CleanWhitespaces(s: string): (r: string)
    ensures NoWhitespace(r)
    ensures |r| <= |s|
    ensures NoWhitespace(s) ==> r == s
  {
    if |s| == 0 then []
    else (if IsWhitespace(s[0]) then [] else [s[0]]) + CleanWhitespaces(s[1..])
  }

  /** Cleaning distributes over concatenation: the kept characters keep their order. */
  lemma {:induction false} CleanWhitespacesAppend(a: string, b: string)
    ensures CleanWhitespaces(a + b) == CleanWhitespaces(a) + CleanWhitespaces(b)
    decreases |a|
  {
    if |a| == 0 {
      assert a + b == b;
    } else {
      assert (a + b)[1..] == a[1..] + b;
      CleanWhitespacesAppend(a[1..], b);
    }
  }

  /** Exactly the non-whitespace characters survive, with their multiplicities. */
  lemma {:induction false} CleanWhitespacesKeeps(s: string, c: char)
    ensures multiset(CleanWhitespaces(s))[c] == if IsWhitespace(c) then 0 else multiset(s)[c]
    decreases |s|
  {
    if |s| > 0 {
      CleanWhitespacesKeeps(s[1..], c);
      assert s == [s[0]] + s[1..];
    }
  }

  lemma CleanWhitespacesIdempotent(s: string)
    ensures CleanWhitespaces(CleanWhitespaces(s)) == CleanWhitespaces(s)
  {
  }

  function Concat(parts: seq<string>): string {
    if |parts| == 0 then [] else parts[0] + Concat(parts[1..])
  }

  /** The whitespace-separated tokens of `s`, glued together, are `s` cleaned. */
  lemma {:induction false} ConcatSplitIsClean(s: string)
    ensures Concat(SplitWhitespace(s)) == CleanWhitespaces(s)
    decreases |s|
  {
    if |s| > 0 {
      if IsWhitespace(s[0]) {
        ConcatSplitIsClean(s[1..]);
      } else {
        var n := TokenLength(s);
        ConcatSplitIsClean(s[n..]);
        assert SplitWhitespace(s)[1..] == SplitWhitespace(s[n..]);
        assert s == s[..n] + s[n..];
        CleanWhitespacesAppend(s[..n], s[n..]);
      }
    }
  }

  /** A Python callable: its identity and its `__name__`, when it has one. */
  datatype Callable<F> = Callable(code: F, name: Option<string>)

  /** `get_name(obj, replace_with)` where `name` is `obj.__name__` when the
      attribute exists. */
  function GetName(name: Option<string>, replaceWith: Option<string>): (r: Result<string>)
    ensures name.Some? ==> r == Ok(name.value)
    ensures name.None? && replaceWith.Some? ==> r == Ok(replaceWith.value)
    ensures r.Err? <==> name.None? && replaceWith.None?
    ensures r.Err? ==> r.error.TypeError?
  {
    if name.Some? then Ok(name.value)
    else if replaceWith.Some? then Ok(replaceWith.value)
    else Err(TypeError("object has no attribute __name__"))
  }

  function ArgReprs<V>(args: seq<V>, repr: V -> string): (r: seq<string>)
    ensures |r| == |args|
    ensures forall i :: 0 <= i < |args| ==> r[i] == repr(args[i])
  {
    if |args| == 0 then [] else [repr(args[0])] + ArgReprs(args[1..], repr)
  }

  function KwargReprs<V>(kwargs: seq<(string, V)>, repr: V -> string): (r: seq<string>)
    ensures |r| == |kwargs|
    ensures forall i :: 0 <= i < |kwargs| ==> r[i] == kwargs[i].0 + "=" + repr(kwargs[i].1)
  {
    if |kwargs| == 0 then []
    else [kwargs[0].0 + "=" + repr(kwargs[0].1)] + KwargReprs(kwargs[1..], repr)
  }

  /** `_get_args_and_kwargs_fmt(a, k)`, keyword arguments in insertion order.
      The separator between the two parts appears only when both are present,
      so the result is every rendered argument joined by `", "`. */
  function ArgsAndKwargsFmt<V>(args: seq<V>, kwargs: seq<(string, V)>, repr: V -> string): (r: string)
    ensures r == JoinWith(ArgReprs(args, repr) + KwargReprs(kwargs, repr), COMMA_SEP)
    ensures |args| == 0 && |kwargs| == 0 ==> r == ""
  {
    var a := ArgReprs(args, repr);
    var k := KwargReprs(kwargs, repr);
    var argsFmt := JoinWith(a, COMMA_SEP);
    var kwargsFmt := JoinWith(k, COMMA_SEP);
    if |args| > 0 && |kwargs| > 0 then
      JoinWithAppend(a, k, COMMA_SEP);
      argsFmt + COMMA_SEP + kwargsFmt
    else
      assert |args| == 0 ==> a + k == k;
      assert |kwargs| == 0 ==> a + k == a;
      argsFmt + kwargsFmt
  }

  /** The first argument of `repr_fmt`: a class (with its name) or any other object. */
  datatype ClassOrOther = Class(className: string) | NotAClass

  /** `repr_fmt(cls, *args, **kwargs)` */
  function ReprFmt<V>(cls: ClassOrOther, args: seq<V>, kwargs: seq<(string, V)>, repr: V -> string)
    : (r: Result<string>)
    ensures cls.NotAClass? <==> r.Err?
    ensures r.Err? ==> r.error.TypeError?
    ensures cls.Class? ==> r == Ok(cls.className + "(" + ArgsAndKwargsFmt(args, kwargs, repr) + ")")
  {
    match cls
    case NotAClass => Err(TypeError("expected a class"))
    case Class(name) => Ok(name + "(" + ArgsAndKwargsFmt(args, kwargs, repr) + ")")
  }
}
