/** The two read-only queries against one language's dictionary: does a
    word exist, and which words start with a prefix. */
module Lookup {
  import opened JsString
  import opened StringOrder
  import opened Words

  /** `s.toLowerCase().trim()`: the form a query word or prefix is looked up
      in. It is lower-case and has no white space at either end. */
  function Normalize(s: string): (r: string)
    ensures IsLower(r) && IsTrimmed(r)
    ensures r == Lower(Trim(s))
  {
    LowerTrim(s);
    LowerIdempotent(Trim(s));
    TrimShape(Lower(s));
    Trim(Lower(s))
  }

  /** Normalizing twice is normalizing once. */
  lemma NormalizeIdempotent(s: string)
    ensures Normalize(Normalize(s)) == Normalize(s)
  {
    var n := Normalize(s);
    LowerOfLower(n);
    TrimOfTrimmed(n);
  }

  /** A word or prefix made only of white space normalizes to the empty
      string. */
  lemma NormalizeBlank(s: string)
    requires forall k :: 0 <= k < |s| ==> IsWhiteSpace(s[k])
    ensures Normalize(s) == []
  {
    TrimEmpty(s);
  }

  /** `words[lang].has(word.toLowerCase().trim())`. */
  predicate Exists(dict: seq<string>, word: string)
  {
    Normalize(word) in dict
  }

  /** The answer depends only on the normalized word. */
  lemma ExistsNormalized(dict: seq<string>, word: string)
    ensures Exists(dict, word) <==> Exists(dict, Normalize(word))
  {
    NormalizeIdempotent(word);
  }

  /** Case and surrounding white space do not matter: " Gatto " is looked
      up as "gatto". */
  lemma ExistsIgnoresCaseAndSpace(dict: seq<string>, padded: string, plain: string)
    requires padded == " Gatto " && plain == "gatto"
    ensures Exists(dict, padded) <==> Exists(dict, plain)
  {
    ExampleLower(padded, plain);
    TrimOfTrimmed(plain);
    TrimPadded(plain);
    assert Normalize(padded) == plain;
    assert Normalize(plain) == plain;
  }

  /** The lower-case forms of the two spellings in the example above. */
  lemma ExampleLower(padded: string, plain: string)
    requires padded == " Gatto " && plain == "gatto"
    ensures Lower(padded) == [' '] + plain + [' ']
    ensures Lower(plain) == plain && plain != [] && IsTrimmed(plain)
  {
  }

  /** One space on either side of a trimmed word is cut off again. */
  lemma TrimPadded(core: string)
    requires core != [] && IsTrimmed(core)
    ensures Trim([' '] + core + [' ']) == core
  {
    var s := [' '] + core + [' '];
    assert s[1..] == core + [' '];
    assert TrimStart(s) == core + [' '];
    assert (core + [' '])[..|core|] == core;
    assert TrimEnd(core + [' ']) == TrimEnd(core);
    TrimOfTrimmed(core);
  }

  /** A blank query is never found in a dictionary built from a file. */
  lemma BlankWordNeverExists(dict: seq<string>, word: string)
    requires WellFormed(dict)
    requires forall k :: 0 <= k < |word| ==> IsWhiteSpace(word[k])
    ensures !Exists(dict, word)
  {
    NormalizeBlank(word);
    assert Trim([]) == [];
  }

  /** Entries are stored untrimmed, while queries are trimmed: an entry with
      white space at either end (such as "casa\r" from a file with CRLF line
      ends) is never found. */
  lemma UntrimmedEntryUnreachable(dict: seq<string>, entry: string, word: string)
    requires entry in dict && !IsTrimmed(entry)
    ensures Normalize(word) != entry
  {
  }

  /** `filter(word => word.startsWith(prefix))`: each word occurs as often as
      in the input if it starts with the prefix, and not at all otherwise. */
  function Matches(dict: seq<string>, prefix: string): (r: seq<string>)
    ensures forall w :: multiset(r)[w] == if StartsWith(w, prefix) then multiset(dict)[w] else 0
    ensures forall w :: w in r <==> w in dict && StartsWith(w, prefix)
  {
    if dict == [] then []
    else
      assert dict == [dict[0]] + dict[1..];
      (if StartsWith(dict[0], prefix) then [dict[0]] else []) + Matches(dict[1..], prefix)
  }

  function Min(a: int, b: int): int
  {
    if a < b then a else b
  }

  /** `filter(...).sort().slice(0, limit)`: the matches, sorted, cut to at
      most `limit`. Every result is a dictionary word with the prefix, the
      results are in order, there are as many as the limit allows, and any
      match left out sorts at or after every result returned. */
  function PrefixResults(dict: seq<string>, prefix: string, limit: nat): (r: seq<string>)
    ensures forall w :: w in r ==> w in dict && StartsWith(w, prefix)
    ensures Sorted(r)
    ensures |r| == Min(|Matches(dict, prefix)|, limit)
    ensures forall w :: w in dict && StartsWith(w, prefix) && w !in r ==>
      forall x :: x in r ==> LessEq(x, w)
  {
    var m := Matches(dict, prefix);
    var sorted := Sort(m);
    SameElements(sorted, m);
    var k := Min(|sorted|, limit);
    SortedTake(sorted, k);
    sorted[..k]
  }

  /** Two sequences with the same multiset have the same length and
      elements. */
  lemma SameElements(a: seq<string>, b: seq<string>)
    requires multiset(a) == multiset(b)
    ensures |a| == |b|
    ensures forall w :: w in a <==> w in b
  {
    assert |multiset(a)| == |multiset(b)|;
    forall w ensures w in a <==> w in b {
      assert w in a <==> w in multiset(a);
      assert w in b <==> w in multiset(b);
    }
  }

  /** The first `k` elements of a sorted sequence are sorted, and each
      element left behind is at least as large as each one taken. */
  lemma SortedTake(s: seq<string>, k: nat)
    requires Sorted(s) && k <= |s|
    ensures Sorted(s[..k])
    ensures forall w :: w in s && w !in s[..k] ==> forall x :: x in s[..k] ==> LessEq(x, w)
  {
    forall w, x | w in s && w !in s[..k] && x in s[..k] ensures LessEq(x, w) {
      var i :| 0 <= i < |s| && s[i] == w;
      var j :| 0 <= j < k && s[..k][j] == x;
      assert i >= k;
      assert s[j] == x;
    }
  }

  /** The words of the dictionary that start with the prefix. */
  ghost function MatchSet(dict: seq<string>, prefix: string): set<string>
  {
    set w | w in dict && StartsWith(w, prefix)
  }

  /** On a dictionary without repeats (a `Set`), the results are strictly
      ascending, there are min(number of matching words, limit) of them, and
      every matching word left out sorts after all of them: the results are
      the smallest matches. */
  lemma PrefixResultsOfSet(dict: seq<string>, prefix: string, limit: nat)
    requires Distinct(dict)
    ensures var r := PrefixResults(dict, prefix, limit);
      && StrictlySorted(r)
      && |r| == Min(|MatchSet(dict, prefix)|, limit)
      && forall w :: w in MatchSet(dict, prefix) && w !in r ==> forall x :: x in r ==> Less(x, w)
  {
    var m := Matches(dict, prefix);
    var sorted := Sort(m);
    var r := PrefixResults(dict, prefix, limit);
    DistinctCounts(dict);
    DistinctCounts(m);
    DistinctCounts(sorted);
    assert r == sorted[..Min(|sorted|, limit)] by {
      assert |sorted| == |m| by { assert |multiset(sorted)| == |multiset(m)|; }
    }
    assert Distinct(r);
    SortedDistinct(r);
    assert (set w | w in m) == MatchSet(dict, prefix);
    DistinctCardinality(m);
  }

  /** The results do not depend on the order the words were inserted in:
      two enumerations of the same set give the same answer. */
  lemma PrefixResultsOrderFree(d1: seq<string>, d2: seq<string>, prefix: string, limit: nat)
    requires Distinct(d1) && Distinct(d2)
    requires forall w :: w in d1 <==> w in d2
    ensures PrefixResults(d1, prefix, limit) == PrefixResults(d2, prefix, limit)
  {
    DistinctCounts(d1);
    DistinctCounts(d2);
    assert multiset(d1) == multiset(d2) by {
      forall w ensures multiset(d1)[w] == multiset(d2)[w] {
        assert w in d1 <==> w in d2;
      }
    }
    var m1, m2 := Matches(d1, prefix), Matches(d2, prefix);
    assert multiset(m1) == multiset(m2) by {
      forall w ensures multiset(m1)[w] == multiset(m2)[w] {}
    }
    SortedUnique(Sort(m1), Sort(m2));
  }

  /** The empty prefix matches every word: with a limit at least the size
      of the dictionary, the answer is the whole dictionary, sorted. */
  lemma EmptyPrefixMatchesAll(dict: seq<string>, limit: nat)
    requires |dict| <= limit
    ensures PrefixResults(dict, [], limit) == Sort(dict)
  {
    assert multiset(Matches(dict, [])) == multiset(dict) by {
      forall w ensures multiset(Matches(dict, []))[w] == multiset(dict)[w] {
        assert StartsWith(w, []);
      }
    }
    SortedUnique(Sort(Matches(dict, [])), Sort(dict));
  }

  /** Words "sole", "sera", "sedia", "sasso", prefix "se", limit 2: the
      answer is "sedia" then "sera". */
  lemma PrefixExample(dict: seq<string>)
    requires dict == ["sole", "sera", "sedia", "sasso"]
    ensures PrefixResults(dict, "se", 2) == ["sedia", "sera"]
  {
    ExampleMatches(dict);
    ExampleOrder();
    SortPair("sera", "sedia");
  }

  /** Sorting two strings puts the smaller first. */
  lemma SortPair(a: string, b: string)
    requires Less(b, a)
    ensures Sort([a, b]) == [b, a]
  {
    LessAsymmetric(b, a);
    assert Sorted([b, a]);
    assert multiset([b, a]) == multiset([a, b]);
    SortedUnique(Sort([a, b]), [b, a]);
  }

  lemma ExampleMatches(dict: seq<string>)
    requires dict == ["sole", "sera", "sedia", "sasso"]
    ensures Matches(dict, "se") == ["sera", "sedia"]
  {
    assert dict[0][..2] == "so" && dict[1][..2] == "se";
    assert dict[2][..2] == "se" && dict[3][..2] == "sa";
    assert !StartsWith(dict[0], "se") && StartsWith(dict[1], "se");
    assert StartsWith(dict[2], "se") && !StartsWith(dict[3], "se");
    assert dict[1..][1..] == dict[2..] && dict[2..][1..] == dict[3..] && dict[3..][1..] == [];
    assert Matches(dict[3..], "se") == [];
    assert Matches(dict[2..], "se") == [dict[2]];
    assert Matches(dict[1..], "se") == [dict[1], dict[2]];
  }

  lemma ExampleOrder()
    ensures Less("sedia", "sera")
  {
    assert "sedia"[1..] == "edia" && "sera"[1..] == "era";
    assert "edia"[1..] == "dia" && "era"[1..] == "ra";
  }
}
