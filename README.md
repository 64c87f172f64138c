# Veteran search: the query-matching engine

A model, in Dafny, of how the veteran search page (`app.js`) decides which
roster records a query shows. It covers three parts:

- `normalizeString` reduces a string to its comparison form: lower case, with every
  run of white space deleted.
- `extractActualName` strips a rank from the front of a stored name. It works through
  the ordered `rankPrefixes` list, cuts off the first entry the lower-cased
  name starts with, and drops leading capital abbreviations such as `"XJ "`.
  When nothing is left, it falls back to the stored field.
- The matching part of `filterList` reads the query in one of three ways:
  - blank: the whole roster is shown;
  - one word: a name-only substring search;
  - two or more words: a service-type selector (`army`, `navy`, `airforce`, or
    the first word) followed by a name query.

  It then keeps, in roster order, the records that pass that test.

The roster and the query are parameters. `Filter(roster, query)` is a pure
function.

Files:

- `wrappers.dfy` — `Option`, for JSON fields that may be absent.
- `js_string.dfy` — the JavaScript string primitives the engine uses:
  - the `\s` class;
  - `toLowerCase`, `trim`, `startsWith` and `includes`;
  - `split(/\s+/)`, `join` and `replace(/\s+/g, "")`.
- `names.dfy` — `normalizeString`, the `rankPrefixes` list and `extractActualName`.
  `extractActualName` appears twice:
  - as a function that states the first-match rule;
  - as a method with the source's `for...of` loop and `break`, proved equal to
    the function.
- `search.dfy` — the record type, the selector choice, the reading of a query
  (`Decide`), `Array.filter` (`Keep`) and `Filter`, with their properties.
- `scenarios.dfy` — concrete names, queries and rosters, with the model's results on them proved.
  These include the quirks of the prefix list: `"Colin"` loses `"Col"`,
  `"Captain"` loses only `"Capt"`, and `"Lt Col"` loses only `"Lt"`.

Behaviour of `app.js` that the model keeps:

- The list puts short entries before the longer ones that extend them. So only
  12 of the 48 entries can ever be removed (`Names.OnlyLivePrefixesMatch`), and
  matching has no word boundary.
- `"LT XJ PATEL"` comes out as `"PATEL"`. `"LT"` matches the
  prefix `"lt"`, and the abbreviation `"XJ "` is then dropped
  (`Scenarios.PatelName`).
- Stripping a rank is not idempotent. `"Col Colin"` gives `"Colin"`, and
  stripping again gives `"in"` (`Scenarios.StripNotIdempotent`).
- A record's service is compared through its `serviceType` field; an absent field counts as `""`.

## Model

| member | source | states |
|---|---|---|
| JsString.IsSpace | app.js:47 | the `\s` class, which is also what `trim` removes (app.js:66) and what `split(/\s+/)` and the abbreviation pattern match (app.js:74, 99): tab through carriage return, space, no-break space, the Unicode space separators U+1680, U+2000-U+200A, U+202F, U+205F and U+3000, the line and paragraph separators and the byte-order mark |
| JsString.Lower | app.js:67 | `toLowerCase`: the same length, each character lower-cased, no capitals left |
| JsString.Contains | app.js:149 | `includes` is true exactly when the needle occurs at some index of the haystack |
| JsString.ContainsEmptyAndSelf | app.js:149 | every string includes `""` and itself |
| JsString.StartsWith | app.js:71 | `startsWith`: the prefix is no longer than the string and equals its first characters |
| JsString.Trim | app.js:66 | `trim` returns a trimmed string found right after the leading white space, with only white space after it; it is empty exactly when the input is all white space |
| JsString.TrimLower | app.js:66-67 | trimming and lower-casing commute |
| JsString.RemoveSpaces | app.js:47 | `replace(/\s+/g, "")` leaves no white space, is no longer than its input and adds no capitals |
| JsString.RemoveSpacesOfTrim | app.js:47 | deleting white space after a `trim` gives the same result as without it |
| JsString.Split | app.js:99 | `split(/\s+/)` gives at least one piece, and exactly one (the string itself) when there is no white space; no piece holds white space or, for lower-case input, capitals |
| JsString.SplitOfTrimmed | app.js:99 | on a non-empty trimmed string no piece is empty |
| JsString.SplitConcat | app.js:99 | the pieces, run together, are the input with its white space deleted |
| JsString.SplitJoin | app.js:135 | `split(/\s+/)` undoes `join(" ")` on non-empty words without white space |
| JsString.Join | app.js:135 | `join(sep)`: `""` for no words, the word itself for one, otherwise the first word, the separator and the join of the rest |
| JsString.JoinAt | app.js:135 | joining splits at any word into the two joins and the separator |
| Names.NormalizeString | app.js:46-48 | the normal form holds no white space and no capitals and is no longer than its input |
| Names.NormalizeIdempotent | app.js:46-48 | normalizing twice is normalizing once |
| Names.NormalizeOfNormal | app.js:46-48 | a string with no white space and no capitals is its own normal form |
| Names.NormalizeAppend | app.js:46-48 | normalization distributes over concatenation |
| Names.NormalizeTrim | app.js:91 | trimming the query first does not change its normal form |
| Names.NormalizeJoin | app.js:135-136 | normal words joined by spaces normalize to their concatenation |
| Names.RankPrefixes | app.js:55-64 | the 48 rank prefixes verbatim, in declared order, one source row per line |
| Names.FirstMatch | app.js:70-77 | the first entry, in list order, that the name starts with: no earlier entry matches; `None` only when no entry matches |
| Names.FirstMatchAt | app.js:70-77 | a scan that stops at the first matching index finds exactly `FirstMatch` |
| Names.ShadowedNeverFirst | app.js:55-64 | an entry that extends an earlier entry can never be the first match |
| Names.ExtendsEarlierEntry | app.js:55-64 | each of the 36 entries outside the live set extends an earlier entry |
| Names.OnlyLivePrefixesMatch | app.js:55-77 | whenever a prefix is removed, it is one of the 12 live entries (`lt`, `col`, `capt`, `maj`, `brig`, `gen`, `wg cdr`, `wg.cdr`, `squadron leader`, `squadronleader`, `commander`, `admiral`) |
| Names.DropAbbrev | app.js:74 | `replace(/^[A-Z]{1,4}\s+/, "")`: when 1-4 capitals are followed by white space, those capitals and the whole run of white space go; otherwise the string is unchanged |
| Names.AbbrevAtUpperRun | app.js:74 | the pattern can only match the whole leading run of capitals |
| Names.DropAbbrevSuffix | app.js:74 | dropping an abbreviation leaves a suffix |
| Names.StripRank | app.js:66-80 | the name after prefix removal and both abbreviation steps is trimmed |
| Names.StripRankSuffix | app.js:66-80 | on a trimmed name, stripping leaves a suffix of the name, and after a match a suffix of what follows exactly `prefix.length` characters |
| Names.ExtractActualName | app.js:51-83 | `""` exactly for an absent or empty field; otherwise the field itself or a trimmed suffix of the trimmed field |
| Names.StripFirstPrefix | app.js:70-77 | the `for...of` loop with `break` leaves the name alone when no entry matches, and otherwise cuts the first matching entry's length and one abbreviation |
| Names.ExtractActualNameLoop | app.js:51-83 | the statement-by-statement method returns `ExtractActualName` of its argument |
| Search.ChooseSelector | app.js:109-132 | the selector is the normal form of the words it consumes: the first two exactly when the first is neither `army` nor `navy` and the first two normalize to `airforce`, otherwise the first |
| Search.SelectionCoversWords | app.js:113-136 | the selector is never empty, and selector plus normalized name part spell out all the words |
| Search.Decide | app.js:91-136 | blank query: show all; no inner white space: a name search for the normal form; otherwise a non-empty selector followed by a name query that together make the query's normal form |
| Search.QueryWords | app.js:98-99 | the words of a trimmed query: two or more exactly when it holds white space; each is a non-empty normal word; together they spell its normal form |
| Search.DecideOfWords | app.js:98-136 | a query that lower-cases and trims to words joined by single spaces is read back as those words |
| Search.NormalizedName | app.js:145-146 | the record's rank-stripped name in normal form (also app.js:158-159): no white space, no capitals, and `""` for a record without a name |
| Search.Matches | app.js:138-162 | the callbacks given to `Array.filter`: everything passes a blank query; a one-word query needs the normalized stripped name to contain the normalized query; a longer one also needs a non-empty selector equal to the normalized `serviceType` (absent counts as `""`) |
| Search.Keep | app.js:138 | `Array.filter` keeps exactly the elements that pass and is no longer than its input |
| Search.KeepAppend | app.js:138-152 | filtering a concatenation filters each part, in order |
| Search.Filter | app.js:91-163 | a blank query returns the roster unchanged; otherwise a record is in the result exactly when it is in the roster and passes the query's test |
| Search.FilterAppend | app.js:138-162 | filtering works record by record and keeps roster order |
| Search.FilterOne | app.js:138-162 | one record is kept exactly when it passes the test |
| Search.FilterOneWord | app.js:153-162 | for a one-word query, a record is kept exactly when its normalized stripped name contains the normalized query; service type plays no part |
| Search.FilterSeveralWords | app.js:107-152 | for two or more words, a record is kept exactly when its normalized `serviceType` equals the selector and its normalized stripped name contains the normalized name part |
| Search.FilterServiceOnly | app.js:135-152 | an empty name part (e.g. `"air force"`) keeps every record of the selected service |
| Search.FilterIgnoresCase | app.js:98 | lower-casing the query does not change the result |
| Search.FindsItself | app.js:153-162 | every record is found by the normal form of its own stripped name |
| Scenarios.LtMatches | app.js:56 | a name starting with `lt` matches the first entry, `"lt"` |
| Scenarios.ColMatches | app.js:57 | a name starting with `col` matches `"col"` |
| Scenarios.CaptMatches | app.js:57 | a name starting with `capt` matches `"capt"` |
| Scenarios.NoRankInitial | app.js:55-64 | a name whose first letter starts no entry matches none |
| Scenarios.ExtractPrefixThenPlain | app.js:66-82 | prefix, then text with no abbreviation at its head: the text is the result |
| Scenarios.ExtractPrefixThenAbbrev | app.js:66-82 | prefix, one abbreviation, text: the text is the result |
| Scenarios.ExtractPrefixThenTwoAbbrevs | app.js:72-80 | after a prefix, two abbreviations are dropped, one at line 74 and one at line 80 |
| Scenarios.ExtractAbbrevWithoutPrefix | app.js:79-82 | without a prefix, only one abbreviation is dropped |
| Scenarios.ExtractOnlyPrefix | app.js:82 | a name that is only a prefix falls back to the untrimmed field |
| Scenarios.RaviName | app.js:51-83 | `"Lt Col Ravi Shankar"` gives `"Col Ravi Shankar"` |
| Scenarios.SmithName | app.js:51-83 | `"Col Smith"` gives `"Smith"` |
| Scenarios.PatelName | app.js:51-83 | `"LT XJ PATEL"` gives `"PATEL"` |
| Scenarios.ColinLosesCol | app.js:70-72 | `"Colin Powell"` gives `"in Powell"`: no word boundary |
| Scenarios.CaptainLosesCapt | app.js:57-62 | `"Captain Arjun Rao"` gives `"ain Arjun Rao"`: `"capt"` shadows `"captain"` |
| Scenarios.TwoAbbreviationsAfterPrefix | app.js:72-80 | `"Lt AB CD Smith"` gives `"Smith"` |
| Scenarios.OneAbbreviationWithoutPrefix | app.js:79-82 | `"NK AB Smith"` gives `"AB Smith"` |
| Scenarios.NothingLeftKeepsField | app.js:82 | `"LT "` gives `"LT "`, the untrimmed field |
| Scenarios.StripNotIdempotent | app.js:51-83 | stripping `"Col Colin"` twice differs from stripping it once |
| Scenarios.RosterNormalForms | app.js:46-48 | normal forms of the sample names and services |
| Scenarios.DecideJoined | app.js:98-136 | normal words joined by spaces are read as the selector and the rest run together |
| Scenarios.ArmyQuery | app.js:117-119 | `"army ravishankar"` selects `army` and searches `ravishankar` |
| Scenarios.NavyQuery | app.js:117-119 | `"navy ravishankar"` selects `navy` |
| Scenarios.AirForceQuery | app.js:121-126 | `"air force smith"` selects `airforce` and searches `smith` |
| Scenarios.SplitAirForceQuery | app.js:121-126 | `"airfor ce smith"` also selects `airforce` |
| Scenarios.OneWordQuery | app.js:153-155 | a lower-case word is a name search for itself |
| Scenarios.ArmyFindsRavi | app.js:107-152 | `"army ravishankar"` finds the Army record named `"Lt Col Ravi Shankar"` |
| Scenarios.NavyMissesRavi | app.js:138-152 | `"navy ravishankar"` finds nothing in the same roster |
| Scenarios.AirForceFindsSmith | app.js:107-152 | `"air force smith"` keeps only the Air Force record |
| Scenarios.NameOnlyFindsSmith | app.js:153-162 | `"smith"` finds `"Col Smith"` by name alone |
| Scenarios.NameOnlyFindsPatel | app.js:153-162 | `"patel"` finds `"LT XJ PATEL"`, a record with no service type |
| Scenarios.BlankShowsAll | app.js:91-95 | `"   "` shows the whole roster |

## Left out

- Loading `veterans.json` with `fetch`, and the `veterans`/`dataLoaded` globals with the "Loading data..." path (app.js:1-14, app.js:86-89): network I/O and page state. The roster is a parameter.
- `renderList` (app.js:16-43) and the final `renderList(filtered)` call: DOM rendering. `Filter` returns the list that would be rendered.
- `startVoice` (app.js:168-231): browser speech recognition and alerts.
- The `document.getElementById("search").value` fallback when the query is absent or empty (app.js:91): a DOM read. The query is a parameter.
- JsString.Lower: lower-cases the ASCII capitals only. The full Unicode case mapping of `toLowerCase` is not modelled.
- White space is the fixed `\s` set of code points. Strings are sequences of code points rather than UTF-16 code units, so `prefix.length` and slicing differ from JavaScript only for characters outside the Basic Multilingual Plane.
- Names.NormalizeString: takes a string. The `str || ""` default for an absent argument is written `GetOr("")` where a field may be absent.
- The `address` and `phones` fields of a record are carried but play no part in matching, as in the source.
