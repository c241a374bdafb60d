/** The two query routes, `/search` and `/prefix`, with their query
    parameters already read off the request: each parameter is `None` when
    absent and `Some(text)` otherwise. */
module Routes {
  import opened Wrappers
  import opened JsString
  import opened JsNumber
  import opened StringOrder
  import opened Words
  import opened Lookup

  datatype ErrorKind = MissingWord | MissingPrefix | InvalidLanguage

  /** A route answers with a client error (status 400) carrying the text of
      its `error` field, the bare result ("light" mode) or the full object.
      `found` is the JSON field `exists`. */
  datatype SearchResponse =
    | SearchError(kind: ErrorKind, error: string)
    | SearchLight(found: bool)
    | SearchFull(word: string, lang: Lang, found: bool, message: string)

  datatype PrefixResponse =
    | PrefixError(kind: ErrorKind, error: string)
    | PrefixLight(results: seq<string>)
    | PrefixFull(prefix: string, lang: Lang, count: nat, limit: int, results: seq<string>)

  /** The text of the error object's `error` field. */
  function ErrorMessage(e: ErrorKind): string
  {
    match e
    case MissingWord => "Il parametro \"word\" \U{E8} obbligatorio"
    case MissingPrefix => "Il parametro \"prefix\" \U{E8} obbligatorio"
    case InvalidLanguage => "Lingua non valida. Usa \"it\" o \"en\""
  }

  /** `!param`: absent or the empty string. */
  predicate Missing(param: Option<string>)
  {
    param.None? || param.value == ""
  }

  /** `lang`, defaulting to "it", must be exactly "it" or "en". */
  function ParseLang(lang: Option<string>): (r: Option<Lang>)
    ensures r == Some(It) <==> lang == None || lang == Some("it")
    ensures r == Some(En) <==> lang == Some("en")
  {
    match lang
    case None => Some(It)
    case Some(s) => if s == "it" then Some(It) else if s == "en" then Some(En) else None
  }

  /** `String(light)`: an absent parameter is the string "undefined". */
  function LightText(light: Option<string>): string
  {
    match light
    case None => "undefined"
    case Some(s) => s
  }

  /** `['true', '1', 'yes'].includes(String(light).toLowerCase())`. */
  predicate IsLight(light: Option<string>)
  {
    Lower(LightText(light)) in ["true", "1", "yes"]
  }

  /** The truth table of the light flag: "true" and "yes" in any mix of
      cases, or "1"; nothing else, and not an absent flag. */
  lemma IsLightTable(light: Option<string>)
    ensures IsLight(light) <==>
      light.Some? &&
      var s := light.value;
      || (|s| == 4 && s[0] in {'t', 'T'} && s[1] in {'r', 'R'} && s[2] in {'u', 'U'} && s[3] in {'e', 'E'})
      || s == "1"
      || (|s| == 3 && s[0] in {'y', 'Y'} && s[1] in {'e', 'E'} && s[2] in {'s', 'S'})
  {
    var s := LightText(light);
    var l := Lower(s);
    assert |l| == |s| && forall i :: 0 <= i < |s| ==> l[i] == LowerChar(s[i]);
    if l == "true" {
      assert LowerChar(s[0]) == 't' && LowerChar(s[1]) == 'r' && LowerChar(s[2]) == 'u' && LowerChar(s[3]) == 'e';
    } else if l == "yes" {
      assert LowerChar(s[0]) == 'y' && LowerChar(s[1]) == 'e' && LowerChar(s[2]) == 's';
    } else if l == "1" {
      assert LowerChar(s[0]) == '1';
      assert s == "1";
    }
    if light.Some? && |s| == 4 && s[0] in {'t', 'T'} && s[1] in {'r', 'R'} && s[2] in {'u', 'U'} && s[3] in {'e', 'E'} {
      assert l == "true";
    }
    if light.Some? && |s| == 3 && s[0] in {'y', 'Y'} && s[1] in {'e', 'E'} && s[2] in {'s', 'S'} {
      assert l == "yes";
    }
    if light.Some? && s == "1" {
      assert l == "1";
    }
    if light.None? {
      assert |l| == 9;
    }
  }

  /** `Math.max(1, Math.min(n || 100, 1000))` where `n` is the parsed limit:
      NaN and 0 become 100, then the value is clamped to [1, 1000]. */
  function Clamp(n: Option<int>): (r: int)
    ensures 1 <= r <= 1000
    ensures n.None? || n == Some(0) ==> r == 100
    ensures n.Some? && n.value < 0 ==> r == 1
    ensures n.Some? && n.value > 1000 ==> r == 1000
    ensures n.Some? && 1 <= n.value <= 1000 ==> r == n.value
  {
    var m := match n case None => 100 case Some(v) => if v == 0 then 100 else v;
    if m > 1000 then 1000 else if m < 1 then 1 else m
  }

  /** The effective limit of a `/prefix` request: the parameter defaults to
      the number 100, and `parseInt` reads its string form. */
  function LimitNum(limit: Option<string>): (r: int)
    ensures 1 <= r <= 1000
  {
    Clamp(ParseInt(match limit case None => IntToString(100) case Some(s) => s))
  }

  /** An absent limit is 100. */
  lemma LimitNumDefault()
    ensures LimitNum(None) == 100
  {
    ParseIntString(100);
  }

  /** The limit table for a rendered integer: 0 gives 100, a negative one
      gives 1, one above 1000 gives 1000 and one in [1, 1000] itself. */
  lemma LimitNumOfInteger(n: int)
    ensures LimitNum(Some(IntToString(n))) == if n == 0 then 100 else if n < 0 then 1 else if n > 1000 then 1000 else n
  {
    ParseIntString(n);
  }

  /** The limit table also holds for a limit with leading white space or
      trailing text, such as " 50" or "50abc". */
  lemma LimitNumPadded(ws: string, n: int, rest: string)
    requires forall k :: 0 <= k < |ws| ==> IsWhiteSpace(ws[k])
    requires rest == [] || (!IsDigit(rest[0], 10) && rest[0] != 'x' && rest[0] != 'X')
    ensures LimitNum(Some(ws + IntToString(n) + rest)) == if n == 0 then 100 else if n < 0 then 1 else if n > 1000 then 1000 else n
  {
    ParseIntPadded(ws, n, rest);
  }

  /** Text that `parseInt` cannot read gives 100. */
  lemma LimitNumNotANumber(text: string)
    ensures ParseInt(text).None? ==> LimitNum(Some(text)) == 100
  {
  }

  /** The database name in the message of a full `/search` answer. */
  function DatabaseName(lang: Lang): string
  {
    match lang
    case It => "italiano"
    case En => "inglese"
  }

  function Message(word: string, lang: Lang, found: bool): string
  {
    "La parola \"" + word + "\"" + (if found then " esiste" else " non esiste")
      + " nel database " + DatabaseName(lang)
  }

  /** `GET /search`: the word is checked before the language; a valid
      request answers whether the normalized word is in the chosen
      language's dictionary, bare in light mode or as the full object. */
  function Search(store: WordStore, word: Option<string>, lang: Option<string>, light: Option<string>): (r: SearchResponse)
    reads store
    ensures Missing(word) ==> r.SearchError? && r.kind == MissingWord
    ensures !Missing(word) && ParseLang(lang).None? ==> r.SearchError? && r.kind == InvalidLanguage
    ensures r.SearchError? ==> r.error == ErrorMessage(r.kind)
    ensures r.SearchError? <==> Missing(word) || ParseLang(lang).None?
    ensures r.SearchLight? <==> !r.SearchError? && IsLight(light)
    ensures !r.SearchError? ==> r.found == Exists(store.Words(ParseLang(lang).value), word.value)
    ensures r.SearchFull? ==>
      && r.word == Normalize(word.value)
      && r.lang == ParseLang(lang).value
      && r.message == Message(r.word, r.lang, r.found)
  {
    if Missing(word) then SearchError(MissingWord, ErrorMessage(MissingWord))
    else match ParseLang(lang)
      case None => SearchError(InvalidLanguage, ErrorMessage(InvalidLanguage))
      case Some(l) =>
        var clean := Normalize(word.value);
        var found := clean in store.Words(l);
        if IsLight(light) then SearchLight(found)
        else SearchFull(clean, l, found, Message(clean, l, found))
  }

  /** `GET /prefix`: the prefix is checked before the language; a valid
      request answers the sorted matches of the normalized prefix, cut to
      the effective limit, bare in light mode or as the full object whose
      count is the number of results. */
  function Prefix(store: WordStore, prefix: Option<string>, lang: Option<string>, limit: Option<string>, light: Option<string>): (r: PrefixResponse)
    reads store
    ensures Missing(prefix) ==> r.PrefixError? && r.kind == MissingPrefix
    ensures !Missing(prefix) && ParseLang(lang).None? ==> r.PrefixError? && r.kind == InvalidLanguage
    ensures r.PrefixError? ==> r.error == ErrorMessage(r.kind)
    ensures r.PrefixError? <==> Missing(prefix) || ParseLang(lang).None?
    ensures r.PrefixLight? <==> !r.PrefixError? && IsLight(light)
    ensures !r.PrefixError? ==>
      r.results == PrefixResults(store.Words(ParseLang(lang).value), Normalize(prefix.value), LimitNum(limit))
    ensures r.PrefixFull? ==>
      && r.prefix == Normalize(prefix.value)
      && r.lang == ParseLang(lang).value
      && r.count == |r.results|
      && r.limit == LimitNum(limit)
      && 1 <= r.limit <= 1000 && r.count <= r.limit
  {
    if Missing(prefix) then PrefixError(MissingPrefix, ErrorMessage(MissingPrefix))
    else match ParseLang(lang)
      case None => PrefixError(InvalidLanguage, ErrorMessage(InvalidLanguage))
      case Some(l) =>
        var clean := Normalize(prefix.value);
        var limitNum := LimitNum(limit);
        var results := PrefixResults(store.Words(l), clean, limitNum);
        if IsLight(light) then PrefixLight(results)
        else PrefixFull(clean, l, |results|, limitNum, results)
  }

  // ---------------------------------------------------------------------
  // Properties of the routes

  /** Two query words with the same normalized form get the same answer. */
  lemma SearchDependsOnNormalizedWord(store: WordStore, w1: string, w2: string, lang: Option<string>, light: Option<string>)
    requires w1 != "" && w2 != ""
    requires Normalize(w1) == Normalize(w2)
    ensures Search(store, Some(w1), lang, light) == Search(store, Some(w2), lang, light)
  {
  }

  /** The light answer of `/search` is the `exists` field of the full one. */
  lemma SearchLightIsFullExists(store: WordStore, word: Option<string>, lang: Option<string>, l1: Option<string>, l2: Option<string>)
    requires IsLight(l1) && !IsLight(l2)
    requires !Missing(word) && ParseLang(lang).Some?
    ensures Search(store, word, lang, l1) == SearchLight(Search(store, word, lang, l2).found)
  {
  }

  /** The light answer of `/prefix` is the `results` field of the full one. */
  lemma PrefixLightIsFullResults(store: WordStore, prefix: Option<string>, lang: Option<string>, limit: Option<string>, l1: Option<string>, l2: Option<string>)
    requires IsLight(l1) && !IsLight(l2)
    requires !Missing(prefix) && ParseLang(lang).Some?
    ensures Prefix(store, prefix, lang, limit, l1) == PrefixLight(Prefix(store, prefix, lang, limit, l2).results)
  {
  }

  /** A language other than "it" and "en" (given explicitly; an absent one
      means "it") is refused by both routes once the word or prefix is
      present. Language names are case-sensitive. */
  lemma OtherLanguagesRefused(store: WordStore, text: string, lang: string, limit: Option<string>, light: Option<string>)
    requires text != "" && lang != "it" && lang != "en"
    ensures Search(store, Some(text), Some(lang), light) == SearchError(InvalidLanguage, ErrorMessage(InvalidLanguage))
    ensures Prefix(store, Some(text), Some(lang), limit, light) == PrefixError(InvalidLanguage, ErrorMessage(InvalidLanguage))
  {
  }

  /** A prefix of white space only passes the check, normalizes to the empty
      string and so matches every word of the language, up to the limit. */
  lemma BlankPrefixMatchesAll(store: WordStore, prefix: string, lang: Option<string>, limit: Option<string>, light: Option<string>)
    requires prefix != "" && forall k :: 0 <= k < |prefix| ==> IsWhiteSpace(prefix[k])
    requires ParseLang(lang).Some?
    ensures var r := Prefix(store, Some(prefix), lang, limit, light);
      !r.PrefixError? &&
      (|store.Words(ParseLang(lang).value)| <= LimitNum(limit) ==> r.results == Sort(store.Words(ParseLang(lang).value)))
  {
    var d := store.Words(ParseLang(lang).value);
    NormalizeBlank(prefix);
    if |d| <= LimitNum(limit) {
      EmptyPrefixMatchesAll(d, LimitNum(limit));
      assert PrefixResults(d, Normalize(prefix), LimitNum(limit)) == Sort(d);
    }
  }

  /** On a loaded store, every `/prefix` answer lists distinct words of the
      chosen dictionary that start with the normalized prefix, in strictly
      ascending order: the smallest matches, as many as the limit allows. */
  lemma PrefixAnswerOfLoadedStore(store: WordStore, prefix: Option<string>, lang: Option<string>, limit: Option<string>, light: Option<string>)
    requires store.Valid()
    requires !Missing(prefix) && ParseLang(lang).Some?
    ensures var r := Prefix(store, prefix, lang, limit, light);
      var d := store.Words(ParseLang(lang).value);
      var p := Normalize(prefix.value);
      && StrictlySorted(r.results)
      && (forall w :: w in r.results ==> w in d && StartsWith(w, p))
      && |r.results| == Min(|MatchSet(d, p)|, LimitNum(limit))
      && forall w :: w in MatchSet(d, p) && w !in r.results ==> forall x :: x in r.results ==> Less(x, w)
  {
    var d := store.Words(ParseLang(lang).value);
    PrefixResultsOfSet(d, Normalize(prefix.value), LimitNum(limit));
  }
}
