# Word API: a Dafny model of the lookup engine

The Word API is a small read-only service over two dictionaries, one
Italian (`it`) and one English (`en`). At start-up it reads one word list
per language, one word per line. After that it answers two kinds of
query: `/search` (does a word exist?) and `/prefix` (which words start
with a prefix?). This project models that engine in Dafny and proves
what its answers mean. The engine is everything in `server.js` except the
HTTP plumbing.

Modules, following the program:

- `JsString` (`js_string.dfy`): the JavaScript string operations the
  server relies on. These are `toLowerCase`, `trim` (with the ECMAScript
  white-space and line-terminator set), `startsWith`, and `split` on
  `'\n'` with its inverse `join`.
- `JsNumber` (`js_number.dfy`): `parseInt` with no radix argument. It skips
  leading white space, reads an optional sign and an optional `0x`/`0X`
  prefix, then takes the longest run of digits; NaN is `None`.
- `StringOrder` (`string_order.dfy`): the default order of
  `Array.prototype.sort()` and a sort that returns a sorted permutation of
  its input.
- `Words` (`words.dfy`): building a dictionary from file text, and the
  `WordStore` class. The class holds the module-level `words.it` and
  `words.en` sets, which `Load` replaces once at start-up. A JavaScript
  `Set` is modelled as a sequence without repeats. The contracts state
  which words it holds and that none is repeated, which makes `has` and
  `size` exact. The bodies keep insertion order, but no contract promises
  it: the prefix query sorts the words, so its answer does not depend on
  that order (`Lookup.PrefixResultsOrderFree`).
- `Lookup` (`lookup.dfy`): normalisation (`toLowerCase().trim()`),
  membership, and the `filter().sort().slice()` prefix query.
- `Routes` (`routes.dfy`): the two request handlers, each taking the
  store, with parameter validation, the light flag, the limit clamp and
  the shape of the response. A query parameter is `None` when absent.

Three behaviours of the code that are easy to misread, which the model
follows:

- A `limit` of `0` gives 100, not 1. `parseInt("0") || 100` is 100 because
  0 is falsy, and only then is the value clamped.
- Dictionary entries are lower-cased but not trimmed. A line `" Casa "` is
  stored as `" casa "` and a CRLF line keeps its `\r`. Queries are trimmed,
  so such an entry can never be found (`Lookup.UntrimmedEntryUnreachable`).
- An empty `lang` parameter is not replaced by the default `"it"`. The
  destructuring default applies only to an absent parameter, so the empty
  string is refused as an invalid language.

## Model

| member | source | states |
|---|---|---|
| `JsString.TrimStart` | server.js:62 | the result is a suffix of the input that does not start with white space, and everything removed was white space |
| `JsString.TrimEnd` | server.js:62 | the result is a prefix of the input that does not end with white space, and everything removed was white space |
| `JsString.TrimShape` | server.js:62 | `trim()` leaves no white space at either end and returns a contiguous run of the input |
| `JsString.TrimIdempotent` | server.js:62 | trimming twice is trimming once |
| `JsString.TrimEmpty` | server.js:20-21 | `trim()` is empty exactly when every character is white space, which is what decides that a line is dropped |
| `JsString.LowerChar` | server.js:23 | lower-casing maps each capital to its small letter, leaves other characters alone, yields no capitals, and keeps white space as white space |
| `JsString.LowerIdempotent` | server.js:23 | lower-casing twice is lower-casing once, and the result is lower-case |
| `JsString.LowerTrimStart` | server.js:62 | lower-casing commutes with removing leading white space |
| `JsString.LowerTrimEnd` | server.js:62 | lower-casing commutes with removing trailing white space |
| `JsString.LowerTrim` | server.js:62 | `s.toLowerCase().trim()` equals `s.trim().toLowerCase()` |
| `JsString.Split` | server.js:20-21 | `split('\n')` yields at least one piece and no piece contains a line feed |
| `JsString.JoinSplit` | server.js:20-21 | joining the pieces of a split with line feeds gives back the file text |
| `JsString.SplitJoin` | server.js:20-21 | splitting the join of line-feed-free lines gives back those lines |
| `JsNumber.DigitPrefix` | server.js:104 | the digits `parseInt` reads are the longest prefix made of digits of the radix |
| `JsNumber.ParseUnsigned` | server.js:104 | after the sign, a number is read exactly when a digit follows (a hex digit after `0x`) |
| `JsNumber.ParseInt` | server.js:104 | NaN exactly when no digits follow the white space, sign and prefix; a negative result needs a leading minus |
| `JsNumber.ParseIntString` | server.js:104 | `parseInt` reads every integer back from its decimal form |
| `JsNumber.ParseIntPadded` | server.js:104 | `parseInt` skips leading white space and stops at the first character that cannot continue the number, so " 50" and "50abc" read as 50 |
| `StringOrder.LessIrreflexive` | server.js:108 | no string sorts before itself |
| `StringOrder.LessTransitive` | server.js:108 | the sort order is transitive |
| `StringOrder.LessTotal` | server.js:108 | any two different strings are ordered one way or the other |
| `StringOrder.Insert` | server.js:108 | inserting into a sorted sequence keeps it sorted and adds exactly the one element |
| `StringOrder.Sort` | server.js:108 | `sort()` returns a sorted permutation of its input |
| `StringOrder.SortedUnique` | server.js:108 | two sorted sequences with the same elements are equal, so the sorted answer does not depend on the input order |
| `Words.NonBlank` | server.js:20-21 | a line is kept exactly when its `trim()` is non-empty |
| `Words.SetFrom` | server.js:23-24 | `new Set(xs)` has no repeats and holds exactly the elements of `xs` |
| `Words.ParseWords` | server.js:20-24 | the dictionary has no repeats and holds exactly `toLowerCase(l)` for each non-blank line `l` of the file, untrimmed |
| `Words.ParseWordsWellFormed` | server.js:20-24 | every entry is lower-case, not blank and free of line feeds |
| `Words.ParseWordsDropsBlankLines` | server.js:20-24 | the lines "Casa", "gatto", "" and "  " give exactly ["casa", "gatto"] |
| `Words.WordStore.constructor` | server.js:9-12 | both sets start empty |
| `Words.WordStore.Load` | server.js:15-31 | on success both sets are the dictionaries of their files; if either file cannot be read, neither set changes |
| `Lookup.Normalize` | server.js:62 | the normalised word is lower-case and trimmed, and equals trimming first and lower-casing second |
| `Lookup.NormalizeIdempotent` | server.js:62 | normalising twice is normalising once |
| `Lookup.NormalizeBlank` | server.js:103 | a word or prefix made only of white space normalises to the empty string |
| `Lookup.ExistsNormalized` | server.js:62-63 | membership depends only on the normalised word |
| `Lookup.ExistsIgnoresCaseAndSpace` | server.js:62-63 | " Gatto " and "gatto" give the same answer |
| `Lookup.BlankWordNeverExists` | server.js:62-63 | a blank query is never found in a dictionary built from a file |
| `Lookup.UntrimmedEntryUnreachable` | server.js:62-63 | no query normalises to an entry with white space at either end, because stored entries are untrimmed and queries are trimmed |
| `Lookup.Matches` | server.js:107 | each word starting with the prefix is kept as often as it occurs, and no other word is kept |
| `Lookup.PrefixResults` | server.js:106-109 | every result is a dictionary word with the prefix; results are sorted; there are min(matches, limit) of them; any match left out sorts at or after every result |
| `Lookup.PrefixResultsOfSet` | server.js:106-109 | on a `Set`, results are strictly ascending, there are min(number of matching words, limit) of them, and every match left out is larger than all results |
| `Lookup.PrefixResultsOrderFree` | server.js:106-108 | two insertion orders of the same set give the same answer |
| `Lookup.EmptyPrefixMatchesAll` | server.js:107 | the empty prefix returns the whole dictionary, sorted, when the limit allows |
| `Lookup.PrefixExample` | server.js:106-109 | words "sole", "sera", "sedia", "sasso" with prefix "se" and limit 2 give ["sedia", "sera"] |
| `Routes.ParseLang` | server.js:46-60 | an absent `lang` means Italian; only exactly "it" or "en" is accepted |
| `Routes.IsLightTable` | server.js:65 | the light flag holds exactly for "true" or "yes" in any letter case, or for "1"; an absent flag is false |
| `Routes.Clamp` | server.js:104 | the limit is always in [1, 1000]; NaN and 0 give 100, a negative value 1, a value above 1000 gives 1000, one in [1, 1000] is kept |
| `Routes.LimitNum` | server.js:104 | the effective limit of any request is in [1, 1000] |
| `Routes.LimitNumDefault` | server.js:87 | an absent limit is 100 |
| `Routes.LimitNumOfInteger` | server.js:104 | the limit table for every integer written in decimal |
| `Routes.LimitNumPadded` | server.js:104 | the same limit table for an integer with leading white space or trailing non-numeric text |
| `Routes.LimitNumNotANumber` | server.js:104 | text that `parseInt` cannot read gives 100 |
| `Routes.Search` | server.js:45-78 | a missing or empty word is refused before the language; a bad language is refused; each refusal carries its own error text; otherwise the answer is the membership of the normalised word, bare in light mode or with word, language and message |
| `Routes.Prefix` | server.js:86-123 | a missing or empty prefix is refused before the language; a bad language is refused; each refusal carries its own error text; otherwise the results are the prefix query on the normalised prefix and the effective limit, and the full object's count is the number of results and its limit is the effective limit |
| `Routes.SearchDependsOnNormalizedWord` | server.js:62-63 | two words with the same normalised form get the same `/search` response |
| `Routes.SearchLightIsFullExists` | server.js:65-77 | the light answer of `/search` is the `exists` field of the full answer |
| `Routes.PrefixLightIsFullResults` | server.js:111-122 | the light answer of `/prefix` is the `results` field of the full answer |
| `Routes.OtherLanguagesRefused` | server.js:55-60 | any language other than "it" and "en" is refused by both routes, with the invalid-language error text |
| `Routes.BlankPrefixMatchesAll` | server.js:103-109 | a white-space-only prefix passes validation and, with a valid language, returns every word of that language sorted, when the limit allows |
| `Routes.PrefixAnswerOfLoadedStore` | server.js:103-109 | on a loaded store, every `/prefix` answer is strictly ascending, lists only words with the prefix, holds min(matches, limit) words, and leaves out only words larger than all of them |

## Left out

- HTTP plumbing: the Express application, the JSON middleware, routing, status codes and JSON serialisation, the 404 handler and `app.listen`. A handler's result is a tagged response value instead.
- File access: `fs.readFileSync` and `path.join` are not modelled. `Load` takes each file's text, or `None` when the file cannot be read. The console logging and `process.exit(1)` on failure are not modelled; what remains is that a failed load changes nothing.
- The `/info` route: it holds only static metadata and the two set sizes.
- `JsString.LowerChar`: maps only ASCII and Latin-1 capitals to small letters. Full Unicode case mapping, including mappings that change a string's length, is not modelled.
- `StringOrder.Less`: compares characters by code point. JavaScript compares UTF-16 code units, which gives a different order only for characters above U+FFFF.
- `JsNumber.ParseInt`: returns an exact integer. JavaScript rounds values above 2^53 to a double, which cannot change the clamped limit. Minus zero is returned as 0, which `|| 100` treats the same way.
- Query parameters given more than once, which Express turns into arrays, are not modelled. Each parameter is absent or a single string.
- Concurrency: nothing to model. The store is only read after `Load`.
