# minigrep in Dafny

A model of the library of `minigrep`, a small Rust take on `grep`.
The library does two things:

- `Config::new` reads the command-line arguments. The option `-i`, wherever
  it appears, turns case sensitivity off. Once every `-i` is removed, the
  second and third remaining arguments are the query and the file name.
  Fewer than three remaining arguments give the error
  `"Not enough arguments"`.
- `search` and `search_case_insensitive` return, in order, the lines of a
  text that contain the query. The case-insensitive variant lower-cases
  both the query and each line for the comparison only, and returns the
  lines as they stand in the text.

The model is made of pure functions and lemmas, like the Rust code it
follows. There are three modules:

- `Text` (text.dfy) holds the four string operations the library takes
  from Rust's standard library: substring search (`str::contains`),
  lower-casing (`to_lowercase`, here restricted to ASCII), line splitting
  (`str::lines`) and joining (`[&str]::join`).
- `Selection` (selection.dfy) holds `Filter`, the model of
  `iter().filter(..).collect()`, and what it guarantees: it keeps exactly
  the elements that pass, in their order, with their repetitions.
- `Minigrep` (lib.dfy) holds `NewConfig`, `Search`,
  `SearchCaseInsensitive` and their properties, including the unit tests
  of src/lib.rs stated as lemmas.

`Lines` follows `str::lines` as the Rust standard library defines it today:

- The text is cut after every `'\n'`.
- A piece that ends in `'\n'` loses it, and then loses one `'\r'` just
  before it.
- A final piece without `'\n'` is kept unchanged, even if it ends in `'\r'`.
- An empty text has no lines, and a final `'\n'` does not start an empty
  last line.

## Model

| member | source | states |
|---|---|---|
| Text.Lower | src/lib.rs:68-70 | `to_lowercase`, restricted to ASCII: the lowered string has the same length as the original |
| Text.Lines | src/lib.rs:62 | `contents.lines()` (also used at src/lib.rs:69): a text never has more lines than characters |
| Text.Contains | src/lib.rs:63 | `line.contains(query)`: true exactly when the query occurs at some index of the line |
| Text.LowerSpec | src/lib.rs:68-70 | lower-casing leaves no upper-case ASCII letter, changes no other character, and moves `A`-`Z` to `a`-`z` |
| Text.LowerIdempotent | src/lib.rs:68-70 | lower-casing a lower-cased string changes nothing |
| Text.LowerPreservesContains | src/lib.rs:63-70 | a case-sensitive occurrence is also an occurrence once both sides are lower-cased |
| Text.LinesHaveNoNewline | src/lib.rs:62 | no line holds a `'\n'` |
| Text.LinesOfCrLfLine | src/lib.rs:62 | a line ended by `"\r\n"` loses both characters and nothing more, so `"a\r\r\n"` gives the line `"a\r"` |
| Text.Join | src/lib.rs:56 | `[&str]::join`: the strings with `sep` between each two; no strings give the empty string, and a single string comes back unchanged |
| Text.JoinThenNewline | src/lib.rs:56 | joining lines by `'\n'` and adding the final `'\n'` of `println!` puts a `'\n'` after every line |
| Text.LinesOfUnlines | src/lib.rs:62 | lines each followed by `'\n'`, then an unterminated last piece, split back into those lines and that piece |
| Text.UnlinesOfLines | src/lib.rs:62 | when no `'\r'` precedes a `'\n'`, joining the lines of a text with a `'\n'` after each gives the text back, ending in `'\n'` |
| Text.MissingChar | src/lib.rs:63 | a line that lacks one of the query's characters does not contain the query |
| Selection.Filter | src/lib.rs:35 | `filter(..).collect()` never yields more elements than it reads |
| Selection.FilterSelects | src/lib.rs:62-64 | the kept elements are those at an increasing list of positions, exactly the positions whose element passes the test |
| Selection.SelectsIsFilter | src/lib.rs:62-64 | any result made of exactly the passing positions, in increasing order, is the filtered result |
| Selection.FilterMembers | src/lib.rs:35 | an element is in the result exactly when it is in the input and passes the test |
| Selection.FilterCount | src/lib.rs:63 | a passing element is kept as often as it occurs, a failing one not at all |
| Selection.FilterAppend | src/lib.rs:35 | filtering a concatenation is concatenating the filtered parts |
| Selection.FilterNarrows | src/lib.rs:63-70 | filtering by a stronger test is filtering by a weaker one and then by the stronger one |
| Minigrep.OptionSpelling | src/lib.rs:18 | the option is exactly `-i`: as first argument after the program name it switches case sensitivity off, and any other string there is taken as the query |
| Minigrep.Positionals | src/lib.rs:35 | removing the option keeps every other argument and no `-i`, and shortens the list by the number of `-i` |
| Minigrep.NewConfig | src/lib.rs:28-45 | the only error is "Not enough arguments"; on success the configuration is case-sensitive exactly when `-i` is absent, and the query and file name are arguments other than `-i` |
| Minigrep.NewConfigFails | src/lib.rs:35-39 | the error is returned exactly when fewer than three positions hold an argument other than `-i` |
| Minigrep.NewConfigPositions | src/lib.rs:29-44 | with the first three non-`-i` positions known, the result is `Ok`, with the second as query, the third as file name, and case sensitivity set by the absence of `-i` |
| Minigrep.NewConfigOk | src/lib.rs:35-42 | a successful result always takes its query and file name from the second and third non-`-i` positions |
| Minigrep.OptionPositionIrrelevant | src/lib.rs:29-35 | inserting `-i` at any position, including before the program name, only turns case sensitivity off |
| Minigrep.TrailingArgumentsIgnored | src/lib.rs:35-42 | extra arguments after an accepted list change nothing, except that an `-i` among them turns case sensitivity off |
| Minigrep.CaseInsensitiveOptionScenario | src/lib.rs:124-130 | `minigrep -i rUsT test.txt` is accepted and case-insensitive |
| Minigrep.CaseSensitiveOptionScenario | src/lib.rs:132-138 | `minigrep rUsT test.txt` is accepted and case-sensitive |
| Minigrep.NotEnoughArgumentsScenario | src/lib.rs:140-145 | `minigrep rUsT` is rejected with "Not enough arguments" |
| Minigrep.EmptyQueryAccepted | src/lib.rs:35-44 | an empty query is accepted: nothing checks that query or file name are non-empty |
| Minigrep.OptionAsProgramName | src/lib.rs:29-39 | an `-i` in the program-name position is removed like any other, so `-i rUsT test.txt` is rejected |
| Minigrep.Search | src/lib.rs:61-65 | a line is in the result exactly when it is a line of the text and contains the query; there are never more results than lines |
| Minigrep.SearchCaseInsensitive | src/lib.rs:67-72 | a line is in the result exactly when it is a line of the text and, lower-cased, contains the lower-cased query; the result holds the original lines |
| Minigrep.SearchInOrder | src/lib.rs:61-65 | the result lists the matching lines in text order, one entry per matching position |
| Minigrep.SearchCaseInsensitiveInOrder | src/lib.rs:67-72 | the same for the case-insensitive search |
| Minigrep.SearchKeepsRepeats | src/lib.rs:61-65 | a matching line occurs in the result as often as in the text |
| Minigrep.SearchEmptyQuery | src/lib.rs:61-65 | the empty query returns every line |
| Minigrep.SearchLongQuery | src/lib.rs:61-72 | a query longer than every line matches nothing, with or without case |
| Minigrep.SearchWithinCaseInsensitive | src/lib.rs:61-72 | the case-sensitive result is the case-insensitive result narrowed to exact matches, so every case-sensitive match is a case-insensitive one |
| Minigrep.QueryCaseIgnored | src/lib.rs:67-68 | under the case-insensitive search the case of the query does not matter |
| Minigrep.SearchIdempotent | src/lib.rs:61-72 | searching a result again with the same test changes nothing |
| Minigrep.Printed | src/lib.rs:56 | what `run` prints for a result: every line followed by `'\n'`, or a lone `'\n'` for the empty result |
| Minigrep.SearchOfPrintedResult | src/lib.rs:56-65 | searching the printed result again gives the same result, except that the empty result under the empty query gives one empty line |
| Minigrep.SearchCaseInsensitiveOfPrintedResult | src/lib.rs:56-72 | the same for the case-insensitive search |
| Minigrep.SearchOfEmptyPrint | src/lib.rs:56-72 | the printed empty result, a lone `'\n'`, is matched by the empty query only |
| Minigrep.OneResultScenario | src/lib.rs:80-92 | test `one_result`: "duct" selects only "safe, fast, productive." |
| Minigrep.CaseSensitiveScenario | src/lib.rs:94-107 | test `case_sensitive`: "Rust" selects only "Rust:" |
| Minigrep.CaseInsensitiveScenario | src/lib.rs:109-122 | test `case_insensitive`: "rUsT" selects "Rust:" and "Trust me.", unchanged |

## Left out

- `run` (src/lib.rs:48-59) is not modelled. It reads the file named in the configuration and prints the chosen search's result, which is file and console I/O. Only the text it prints is modelled, as `Printed`, and searching that text again, in `SearchOfPrintedResult`.
- src/main.rs is not part of this model. It reads the process arguments, reports errors and exits.
- Text.Lower: models `to_lowercase` for ASCII only. Rust lower-cases every Unicode letter, and some letters become several characters. Unicode case tables are out of scope.
- Text.LowerPreservesContains, Minigrep.SearchWithinCaseInsensitive and Minigrep.SearchLongQuery: hold only for a lowering that works one character at a time and keeps the length, as `Lower` does. Rust's `to_lowercase` does neither, so the source breaks them outside ASCII. A word-final `Σ` becomes `ς`, so `search("Σ", "ΑΣ")` is `["ΑΣ"]` while `search_case_insensitive("Σ", "ΑΣ")` is empty. `İ` becomes `"i\u{307}"`, so `search_case_insensitive("i\u{307}", "İ")` is `["İ"]` although the query is longer than the line.
- Minigrep.Search and Minigrep.SearchCaseInsensitive return the lines as strings. The Rust functions return slices borrowed from the text, so the model does not capture lifetimes or sharing.
- A run of the same search twice on the same inputs giving the same output holds trivially, because every function here is pure. The meaningful forms are `SearchIdempotent` and `SearchOfPrintedResult`.
- Minigrep.SearchOfPrintedResult and Minigrep.SearchCaseInsensitiveOfPrintedResult: require that no line of the result ends in a `'\r'` kept by `Lines`. Such a line comes from a final piece without `'\n'`, or from a piece ending in `"\r\r\n"`, which loses only one `'\r'`. Printed with a `'\n'` after it, the line would lose its last `'\r'`.
- Minigrep.NewConfig keeps the code's behaviour. The query and the file name may be empty. An `-i` is removed even when it is the first argument, the program name.
- The integer width of `count()` and `len()` is not modelled, because argument lists cannot approach it.
