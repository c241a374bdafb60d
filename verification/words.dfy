/** The dictionaries: one word set per language, built once at start-up
    from the word-list files and only read afterwards. A JavaScript `Set`
    is modelled as a sequence without repeats, in insertion order. */
module Words {
  import opened Wrappers
  import opened JsString
  import opened StringOrder

  /** The two languages the service has a dictionary for. */
  datatype Lang = It | En

  /** Keeps the lines whose `trim()` is not empty, in order
      (`filter(word => word.trim())`). */
  function NonBlank(lines: seq<string>): (r: seq<string>)
    ensures forall l :: l in r <==> l in lines && Trim(l) != []
  {
    if lines == [] then []
    else (if Trim(lines[0]) != [] then [lines[0]] else []) + NonBlank(lines[1..])
  }

  /** `map(w => w.toLowerCase())`. */
  function LowerAll(lines: seq<string>): seq<string>
  {
    seq(|lines|, k requires 0 <= k < |lines| => Lower(lines[k]))
  }

  /** `new Set(xs)`: adds the elements one after the other, so a repeat is
      dropped and the first occurrence keeps its place. */
  function SetFrom(xs: seq<string>): (r: seq<string>)
    ensures Distinct(r)
    ensures forall x :: x in r <==> x in xs
  {
    if xs == [] then []
    else
      var r := SetFrom(xs[..|xs| - 1]);
      var x := xs[|xs| - 1];
      assert xs == xs[..|xs| - 1] + [x];
      if x in r then r else r + [x]
  }

  /** The dictionary built from the text of one word-list file: split on
      line feeds, blank lines dropped, every kept line lower-cased but NOT
      trimmed, repeats collapsed. */
  function ParseWords(text: string): (r: seq<string>)
    ensures Distinct(r)
    ensures forall l :: l in Split(text, '\n') && Trim(l) != [] ==> Lower(l) in r
    ensures forall w :: w in r ==> exists l :: l in Split(text, '\n') && Trim(l) != [] && w == Lower(l)
  {
    var kept := NonBlank(Split(text, '\n'));
    var lowered := LowerAll(kept);
    assert forall l :: l in kept ==> Lower(l) in lowered by {
      forall l | l in kept ensures Lower(l) in lowered {
        var k :| 0 <= k < |kept| && kept[k] == l;
        assert lowered[k] == Lower(l);
      }
    }
    SetFrom(lowered)
  }

  /** What every dictionary entry looks like: no repeats, and each entry
      lower-case, not blank and without a line feed. */
  ghost predicate WellFormed(d: seq<string>)
  {
    && Distinct(d)
    && forall w :: w in d ==> IsLower(w) && Trim(w) != [] && '\n' !in w
  }

  /** Every dictionary built from a file is well formed. */
  lemma ParseWordsWellFormed(text: string)
    ensures WellFormed(ParseWords(text))
  {
    var d := ParseWords(text);
    forall w | w in d ensures IsLower(w) && Trim(w) != [] && '\n' !in w {
      var l :| l in Split(text, '\n') && Trim(l) != [] && w == Lower(l);
      LowerEntry(l);
    }
  }

  lemma LowerEntry(l: string)
    requires Trim(l) != [] && '\n' !in l
    ensures IsLower(Lower(l)) && Trim(Lower(l)) != [] && '\n' !in Lower(l)
  {
    LowerIdempotent(l);
    LowerTrim(l);
    forall k | 0 <= k < |l| ensures Lower(l)[k] != '\n' {
      assert l[k] != '\n';
    }
  }

  /** The word sets of the running service (`words.it`, `words.en`). */
  class WordStore {
    var it: seq<string>
    var en: seq<string>

    ghost predicate Valid()
      reads this
    {
      WellFormed(it) && WellFormed(en)
    }

    /** Before loading, both sets are empty. */
    constructor ()
      ensures it == [] && en == []
      ensures Valid()
    {
      it := [];
      en := [];
    }

    /** `words[lang]`. */
    function Words(lang: Lang): seq<string>
      reads this
    {
      match lang
      case It => it
      case En => en
    }

    /** `loadWords()`: both files are read before either set is replaced, so
        an unreadable file (`None`) leaves the store as it was. */
    method Load(itSource: Option<string>, enSource: Option<string>) returns (ok: bool)
      modifies this
      ensures ok <==> itSource.Some? && enSource.Some?
      ensures ok ==> it == ParseWords(itSource.value) && en == ParseWords(enSource.value)
      ensures !ok ==> it == old(it) && en == old(en)
      ensures ok || old(Valid()) ==> Valid()
    {
      if itSource.None? || enSource.None? {
        return false;
      }
      var itWords := ParseWords(itSource.value);
      var enWords := ParseWords(enSource.value);
      ParseWordsWellFormed(itSource.value);
      ParseWordsWellFormed(enSource.value);
      it := itWords;
      en := enWords;
      ok := true;
    }
  }

  // ---------------------------------------------------------------------
  // Examples

  /** The dictionary built from "Casa", "gatto", an empty line and a line
      of two spaces holds exactly "casa" and "gatto". */
  lemma ParseWordsDropsBlankLines(text: string)
    requires text == "Casa\ngatto\n\n  "
    ensures ParseWords(text) == ["casa", "gatto"]
  {
    ExampleLines(text);
    ExampleTrims();
    ExampleEntries();
    NonBlankOfFour("Casa", "gatto", "", "  ");
  }

  lemma ExampleLines(text: string)
    requires text == "Casa\ngatto\n\n  "
    ensures Split(text, '\n') == ["Casa", "gatto", "", "  "]
  {
    var lines := ["Casa", "gatto", "", "  "];
    SplitJoin(lines, '\n');
    assert Join(lines[3..], '\n') == "  ";
    assert Join(lines[2..], '\n') == "\n  ";
    assert Join(lines[1..], '\n') == "gatto\n\n  ";
    assert Join(lines, '\n') == text;
  }

  lemma ExampleTrims()
    ensures Trim("Casa") != [] && Trim("gatto") != [] && Trim("") == [] && Trim("  ") == []
  {
    TrimStartsWithLetter("Casa");
    TrimStartsWithLetter("gatto");
    TrimEmpty("  ");
  }

  lemma TrimStartsWithLetter(s: string)
    requires |s| > 0 && 'A' <= s[0] <= 'z'
    ensures Trim(s) != []
  {
    TrimEmpty(s);
  }

  lemma ExampleEntries()
    ensures LowerAll(["Casa", "gatto"]) == ["casa", "gatto"]
    ensures SetFrom(["casa", "gatto"]) == ["casa", "gatto"]
  {
    assert Lower("Casa") == "casa";
    assert Lower("gatto") == "gatto";
    assert ["casa", "gatto"][..1] == ["casa"];
    assert ["casa"][..0] == [];
  }

  lemma NonBlankOfFour(a: string, b: string, c: string, d: string)
    requires Trim(a) != [] && Trim(b) != [] && Trim(c) == [] && Trim(d) == []
    ensures NonBlank([a, b, c, d]) == [a, b]
  {
    var lines := [a, b, c, d];
    assert lines[1..] == [b, c, d] && lines[2..] == [c, d];
    assert lines[3..] == [d] && lines[4..] == [];
    assert NonBlank(lines[3..]) == NonBlank(lines[4..]) == [];
    assert NonBlank(lines[2..]) == NonBlank(lines[3..]);
    assert NonBlank(lines[1..]) == [b] + NonBlank(lines[2..]);
    assert NonBlank(lines) == [a] + NonBlank(lines[1..]);
  }
}
