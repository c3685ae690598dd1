/** python/problem_22.py: sort the names of a word file and add up each
    name's alphabetical value times its place in the sorted list. */
module Problem22 {
  import opened Text
  import opened Ordering
  import opened Words

  /** `sorted(data.replace('"', "").split(","))` */
  function ParseNames(data: string): (r: seq<string>)
    ensures Sorted(r)
    ensures multiset(r) == multiset(SplitOn(Remove(data, '"'), ','))
    ensures |r| == multiset(data)[','] + 1
    ensures forall i :: 0 <= i < |r| ==> '"' !in r[i] && ',' !in r[i]
  {
    var text := Remove(data, '"');
    var fields := SplitOn(text, ',');
    var r := Sort(fields);
    SplitOnFieldCount(text, ',');
    assert multiset(text)[','] == multiset(data)[','];
    assert |r| == |multiset(r)| == |multiset(fields)| == |fields|;
    forall j | 0 <= j < |fields|
      ensures '"' !in fields[j]
    {
      SplitOnKeepsAbsent(text, ',', '"', j);
    }
    AbsentAfterPermutation(fields, r, '"');
    AbsentAfterPermutation(fields, r, ',');
    r
  }

  /** Rearranging the fields keeps a character out of all of them. */
  lemma AbsentAfterPermutation(fields: seq<string>, r: seq<string>, c: char)
    requires multiset(r) == multiset(fields)
    requires forall j :: 0 <= j < |fields| ==> c !in fields[j]
    ensures forall i :: 0 <= i < |r| ==> c !in r[i]
  {
    forall i | 0 <= i < |r|
      ensures c !in r[i]
    {
      assert r[i] in multiset(fields);
      var j :| 0 <= j < |fields| && fields[j] == r[i];
    }
  }

  /** A character missing from the text is missing from every field. */
  lemma {:induction false} SplitOnKeepsAbsent(s: string, sep: char, c: char, j: nat)
    requires c !in s
    requires j < |SplitOn(s, sep)|
    ensures c !in SplitOn(s, sep)[j]
    decreases |s|
  {
    if |s| > 0 {
      assert c !in s[1..] by {
        forall k | 0 <= k < |s| - 1 ensures s[1..][k] != c {
          assert s[1..][k] == s[k + 1];
        }
      }
      var rest := SplitOn(s[1..], sep);
      if s[0] == sep {
        if j > 0 {
          SplitOnKeepsAbsent(s[1..], sep, c, j - 1);
        }
      } else if j == 0 {
        SplitOnKeepsAbsent(s[1..], sep, c, 0);
        assert SplitOn(s, sep)[0] == [s[0]] + rest[0];
      } else {
        SplitOnKeepsAbsent(s[1..], sep, c, j);
        assert SplitOn(s, sep)[j] == rest[j];
      }
    }
  }

  /** Parsing the file of a sorted list of names gives back the list. */
  lemma ParseNamesOfListing(names: seq<string>)
    requires |names| > 0 && Listable(names) && Sorted(names)
    ensures ParseNames(Listing(names)) == names
  {
    RemoveQuotesOfListing(names);
    SplitOnJoin(names, ',');
    SortedUnique(ParseNames(Listing(names)), names);
  }

  /** The order of the names in the file does not matter. */
  lemma ParseNamesOrderFree(a: seq<string>, b: seq<string>)
    requires |a| > 0 && Listable(a) && Listable(b)
    requires multiset(a) == multiset(b)
    ensures ParseNames(Listing(a)) == ParseNames(Listing(b))
  {
    assert |b| == |multiset(b)| == |multiset(a)| == |a|;
    RemoveQuotesOfListing(a);
    SplitOnJoin(a, ',');
    RemoveQuotesOfListing(b);
    SplitOnJoin(b, ',');
    SortPermutationInvariant(a, b);
  }

  /** `sum(WordValue(val) * pos for pos, val in enumerate(names, start=pos))` */
  function Weighted(names: seq<string>, pos: int): (r: int)
    ensures |names| == 0 ==> r == 0
    ensures pos >= 0 && (forall i :: 0 <= i < |names| ==> IsUpperWord(names[i])) ==> r >= 0
  {
    if |names| == 0 then 0
    else WordValue(names[0]) * pos + Weighted(names[1..], pos + 1)
  }

  /** `problem_22(sorted_data)` */
  function Problem22(sortedData: seq<string>): (r: int)
    ensures |sortedData| == 0 ==> r == 0
    ensures (forall i :: 0 <= i < |sortedData| ==> IsUpperWord(sortedData[i])) ==> r >= 0
  {
    Weighted(sortedData, 1)
  }

  /** Appending names adds their scores at the positions they land on. */
  lemma {:induction false} WeightedAppend(a: seq<string>, b: seq<string>, pos: int)
    ensures Weighted(a + b, pos) == Weighted(a, pos) + Weighted(b, pos + |a|)
    decreases |a|
  {
    if |a| == 0 {
      assert a + b == b;
    } else {
      assert (a + b)[1..] == a[1..] + b;
      WeightedAppend(a[1..], b, pos + 1);
    }
  }

  /** The name in place `k` (counting from 0) contributes its value times `k + 1`. */
  lemma Problem22Last(names: seq<string>, w: string)
    ensures Problem22(names + [w]) == Problem22(names) + WordValue(w) * (|names| + 1)
  {
    WeightedAppend(names, [w], 1);
    assert [w][1..] == [];
  }

  /** COLIN is worth 3 + 15 + 12 + 9 + 14 = 53. */
  lemma ValueOfColin()
    ensures WordValue("COLIN") == 53
  {
    assert "COLIN" == "C" + "OLIN" && "OLIN" == "O" + "LIN" && "LIN" == "L" + "IN"
      && "IN" == "I" + "N";
    WordValueAppend("C", "OLIN");
    WordValueAppend("O", "LIN");
    WordValueAppend("L", "IN");
    WordValueAppend("I", "N");
    WordValueOfLetter('C');
    WordValueOfLetter('O');
    WordValueOfLetter('L');
    WordValueOfLetter('I');
    WordValueOfLetter('N');
  }
}
