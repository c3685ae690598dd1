/** Word lists as the name and word puzzles store them (double-quoted words
    separated by commas) and the alphabetical value of a word. */
module Words {
  import opened Text

  predicate IsUpperLetter(c: char) {
    'A' <= c <= 'Z'
  }

  predicate IsUpperWord(w: string) {
    forall i :: 0 <= i < |w| ==> IsUpperLetter(w[i])
  }

  /** `sum(ord(c) - 64 for c in w)`: on capital letters, A counts 1 and Z counts 26. */
  function WordValue(w: string): (r: int)
    ensures IsUpperWord(w) ==> |w| <= r <= 26 * |w|
  {
    if |w| == 0 then 0 else (w[0] as int - 64) + WordValue(w[1..])
  }

  lemma {:induction false} WordValueAppend(a: string, b: string)
    ensures WordValue(a + b) == WordValue(a) + WordValue(b)
    decreases |a|
  {
    if |a| == 0 {
      assert a + b == b;
    } else {
      assert (a + b)[1..] == a[1..] + b;
      WordValueAppend(a[1..], b);
    }
  }

  /** Each capital letter counts its place in the alphabet. */
  lemma WordValueOfLetter(c: char)
    requires IsUpperLetter(c)
    ensures WordValue([c]) == c as int - 'A' as int + 1
  {
    assert [c][1..] == [];
  }

  function Quote(w: string): string {
    "\"" + w + "\""
  }

  function Quoted(words: seq<string>): (r: seq<string>)
    ensures |r| == |words| && forall i :: 0 <= i < |words| ==> r[i] == Quote(words[i])
  {
    if |words| == 0 then [] else [Quote(words[0])] + Quoted(words[1..])
  }

  /** The text of a word file: `"A","B",...,"Z"`. */
  function Listing(words: seq<string>): string {
    JoinWith(Quoted(words), ",")
  }

  /** No quote and no comma inside a word: the words a listing can hold. */
  predicate Listable(words: seq<string>) {
    forall i :: 0 <= i < |words| ==> '"' !in words[i] && ',' !in words[i]
  }

  lemma RemoveQuotesOfWord(w: string)
    requires '"' !in w
    ensures Remove(Quote(w), '"') == w
  {
    RemoveFree(w, '"');
    RemoveAppend("\"", w, '"');
    RemoveAppend("\"" + w, "\"", '"');
  }

  lemma {:induction false} RemoveQuotesOfListing(words: seq<string>)
    requires Listable(words)
    ensures Remove(Listing(words), '"') == JoinWith(words, ",")
    decreases |words|
  {
    if |words| == 1 {
      RemoveQuotesOfWord(words[0]);
    } else if |words| > 1 {
      RemoveQuotesOfListing(words[1..]);
      RemoveQuotesOfWord(words[0]);
      ListingCons(words);
      RemoveAroundComma(Quote(words[0]), Listing(words[1..]));
    }
  }

  lemma ListingCons(words: seq<string>)
    requires |words| > 1
    ensures Listing(words) == Quote(words[0]) + "," + Listing(words[1..])
    ensures JoinWith(words, ",") == words[0] + "," + JoinWith(words[1..], ",")
  {
    assert Quoted(words)[1..] == Quoted(words[1..]);
  }

  lemma RemoveAroundComma(a: string, b: string)
    ensures Remove(a + "," + b, '"') == Remove(a, '"') + "," + Remove(b, '"')
  {
    RemoveAppend(a + ",", b, '"');
    RemoveAppend(a, ",", '"');
    assert Remove(",", '"') == ",";
  }

  /** Splitting a listing at its commas gives the quoted words. */
  lemma SplitListing(words: seq<string>)
    requires |words| > 0 && Listable(words)
    ensures SplitOn(Listing(words), ',') == Quoted(words)
  {
    var q := Quoted(words);
    forall i | 0 <= i < |q|
      ensures ',' !in q[i]
    {
      assert q[i] == "\"" + words[i] + "\"";
    }
    SplitOnJoin(q, ',');
  }
}
