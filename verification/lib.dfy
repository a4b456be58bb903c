/**
 * The library of the `minigrep` command-line tool: turning the raw
 * argument list into a configuration (`Config::new`), and selecting the
 * lines of a text that contain a query, with or without regard to case
 * (`search`, `search_case_insensitive`).
 */
module Minigrep {
  import opened Text
  import opened Selection

  /** The argument that switches matching to case-insensitive. */
  const CaseInsensitiveOption: string := "-i"

  /** The only error `NewConfig` reports. */
  const NotEnoughArguments: string := "Not enough arguments"

  datatype Config = Config(query: string, filename: string, isCaseSensitive: bool)

  datatype Result<T, E> = Ok(value: T) | Err(error: E)

  /** The test that keeps every argument except the case-insensitivity option. */
  function NotOption(): string -> bool
  {
    arg => arg != CaseInsensitiveOption
  }

  /** The test that keeps only the case-insensitivity option. */
  function IsOption(): string -> bool
  {
    arg => arg == CaseInsensitiveOption
  }

  /**
   * `Config::new`: the option "-i" anywhere in `args` turns case
   * sensitivity off; with every "-i" removed, at least three arguments must
   * remain, and the second and third become the query and the file name.
   */
  function NewConfig(args: seq<string>): (r: Result<Config, string>)
    ensures r.Err? ==> r.error == NotEnoughArguments
    ensures r.Ok? ==> (r.value.isCaseSensitive <==> CaseInsensitiveOption !in args)
    ensures r.Ok? ==> r.value.query in args && r.value.query != CaseInsensitiveOption
    ensures r.Ok? ==> r.value.filename in args && r.value.filename != CaseInsensitiveOption
  {
    FilterMembers(args, IsOption());
    FilterMembers(args, NotOption());
    assert Positionals(args) == Filter(args, NotOption());
    var options := Filter(args, IsOption());
    assert |options| > 0 ==> options[0] in options;
    var isCaseSensitive := if |options| > 0 then false else true;
    var rest := Positionals(args);
    if |rest| < 3 then
      Err(NotEnoughArguments)
    else
      assert rest[1] in rest && rest[2] in rest;
      Ok(Config(rest[1], rest[2], isCaseSensitive))
  }

  /** Position `i` of `args` holds an argument other than the option. */
  ghost predicate IsPositional(args: seq<string>, i: int)
  {
    0 <= i < |args| && args[i] != CaseInsensitiveOption
  }

  /**
   * `i0 < i1 < i2` are the first three positions of `args` that do not hold
   * the option: every other position before `i2` holds it.
   */
  ghost predicate FirstPositionals(args: seq<string>, i0: int, i1: int, i2: int)
  {
    && 0 <= i0 < i1 < i2 < |args|
    && IsPositional(args, i0) && IsPositional(args, i1) && IsPositional(args, i2)
    && forall j :: 0 <= j < i2 && j != i0 && j != i1 ==> args[j] == CaseInsensitiveOption
  }

  /** The arguments with every "-i" removed, the others kept in order. */
  function Positionals(args: seq<string>): (r: seq<string>)
    ensures forall arg :: arg in r <==> arg in args && arg != CaseInsensitiveOption
    ensures |r| == |args| - multiset(args)[CaseInsensitiveOption]
  {
    FilterMembers(args, NotOption());
    OptionsRemoved(args);
    Filter(args, NotOption())
  }

  lemma {:induction false} OptionsRemoved(args: seq<string>)
    ensures |Filter(args, NotOption())| == |args| - multiset(args)[CaseInsensitiveOption]
  {
    if args != [] {
      OptionsRemoved(args[1..]);
      assert args == [args[0]] + args[1..];
      assert multiset(args) == multiset{args[0]} + multiset(args[1..]);
    }
  }

  /** Three positions that do not hold the option leave at least three arguments. */
  lemma {:induction false} ThreePositionalsCount(args: seq<string>, i0: int, i1: int, i2: int)
    requires 0 <= i0 < i1 < i2 && IsPositional(args, i0) && IsPositional(args, i1) && IsPositional(args, i2)
    ensures |Positionals(args)| >= 3
  {
    var keep := NotOption();
    FilterSplit(args, keep, i2);
    FilterSplit(args[..i2], keep, i1);
    assert args[..i2][..i1] == args[..i1];
    FilterSplit(args[..i1], keep, i0);
  }

  /**
   * The first three positions that do not hold the option, found from the
   * arguments that remain once every "-i" is removed.
   */
  lemma {:induction false} FirstThree(args: seq<string>) returns (i0: nat, i1: nat, i2: nat)
    requires |Positionals(args)| >= 3
    ensures FirstPositionals(args, i0, i1, i2)
    ensures Positionals(args)[1] == args[i1] && Positionals(args)[2] == args[i2]
  {
    var keep := NotOption();
    i0 := FilterAt(args, keep, 0);
    i1 := FilterAt(args, keep, 1);
    i2 := FilterAt(args, keep, 2);
    if i1 <= i0 {
      FilterPrefixGrows(args, keep, i1, i0);
    }
    if i2 <= i1 {
      FilterPrefixGrows(args, keep, i2, i1);
    }
    // Before i0, between i0 and i1 and between i1 and i2 nothing is kept.
    FilterSplit(args[..i1], keep, i0);
    assert args[..i1][..i0] == args[..i0];
    FilterSplit(args[..i2], keep, i1);
    assert args[..i2][..i1] == args[..i1];
    OnlyOptions(args[..i0]);
    OnlyOptions(args[..i1][i0 + 1..]);
    OnlyOptions(args[..i2][i1 + 1..]);
    forall j | 0 <= j < i2 && j != i0 && j != i1
      ensures args[j] == CaseInsensitiveOption
    {
      if j < i0 {
        assert args[j] == args[..i0][j];
      } else if j < i1 {
        assert args[j] == args[..i1][i0 + 1..][j - i0 - 1];
      } else {
        assert args[j] == args[..i2][i1 + 1..][j - i1 - 1];
      }
    }
  }

  /** Arguments that leave nothing once "-i" is removed are all "-i". */
  lemma {:induction false} OnlyOptions(args: seq<string>)
    requires Positionals(args) == []
    ensures forall j :: 0 <= j < |args| ==> args[j] == CaseInsensitiveOption
  {
    FilterMembers(args, NotOption());
    assert forall j :: 0 <= j < |args| ==> args[j] in args;
  }

  /**
   * The error is reported exactly when `args` has fewer than three
   * positions that do not hold the option.
   */
  lemma {:induction false} NewConfigFails(args: seq<string>)
    ensures NewConfig(args).Err? <==>
      !exists i0, i1, i2 :: 0 <= i0 < i1 < i2 && IsPositional(args, i0) && IsPositional(args, i1) && IsPositional(args, i2)
  {
    if |Positionals(args)| >= 3 {
      var i0, i1, i2 := FirstThree(args);
      assert IsPositional(args, i0) && IsPositional(args, i1) && IsPositional(args, i2);
    }
    if i0, i1, i2 :| 0 <= i0 < i1 < i2 && IsPositional(args, i0) && IsPositional(args, i1) && IsPositional(args, i2) {
      ThreePositionalsCount(args, i0, i1, i2);
    }
  }

  /**
   * On success the query and the file name are the arguments at the second
   * and third positions that do not hold the option, wherever the options
   * stand.
   */
  lemma {:induction false} NewConfigPositions(args: seq<string>, i0: int, i1: int, i2: int)
    requires FirstPositionals(args, i0, i1, i2)
    ensures NewConfig(args) == Ok(Config(args[i1], args[i2], CaseInsensitiveOption !in args))
  {
    ThreePositionalsCount(args, i0, i1, i2);
    // Both triples list the first three positional positions, so they agree.
    var j0, j1, j2 := FirstThree(args);
  }

  /** The converse: a successful result always comes from such positions. */
  lemma {:induction false} NewConfigOk(args: seq<string>)
    requires NewConfig(args).Ok?
    ensures exists i0, i1, i2 ::
      && FirstPositionals(args, i0, i1, i2)
      && NewConfig(args).value.query == args[i1]
      && NewConfig(args).value.filename == args[i2]
  {
    var i0, i1, i2 := FirstThree(args);
  }

  /** Where "-i" is inserted does not matter: only case sensitivity changes. */
  lemma {:induction false} OptionPositionIrrelevant(args: seq<string>, k: nat)
    requires k <= |args|
    ensures NewConfig(args[..k] + [CaseInsensitiveOption] + args[k..]) ==
      match NewConfig(args)
      case Ok(c) => Ok(c.(isCaseSensitive := false))
      case Err(e) => Err(e)
  {
    var args' := args[..k] + [CaseInsensitiveOption] + args[k..];
    FilterAppend(args[..k] + [CaseInsensitiveOption], args[k..], NotOption());
    FilterAppend(args[..k], [CaseInsensitiveOption], NotOption());
    FilterAppend(args[..k], args[k..], NotOption());
    assert Filter([CaseInsensitiveOption], NotOption()) == [];
    assert args[..k] + args[k..] == args;
    assert Filter(args', NotOption()) == Filter(args, NotOption());
    assert CaseInsensitiveOption in args';
  }

  /**
   * Arguments after a successful argument list are ignored, except that a
   * "-i" among them still turns case sensitivity off.
   */
  lemma {:induction false} TrailingArgumentsIgnored(args: seq<string>, extra: seq<string>)
    requires NewConfig(args).Ok?
    ensures NewConfig(args + extra).Ok?
    ensures NewConfig(args + extra).value.query == NewConfig(args).value.query
    ensures NewConfig(args + extra).value.filename == NewConfig(args).value.filename
    ensures NewConfig(args + extra).value.isCaseSensitive ==
      (NewConfig(args).value.isCaseSensitive && CaseInsensitiveOption !in extra)
  {
    FilterAppend(args, extra, NotOption());
    var rest := Filter(args, NotOption());
    assert Filter(args + extra, NotOption())[..|rest|] == rest;
    assert CaseInsensitiveOption in args + extra <==> CaseInsensitiveOption in args || CaseInsensitiveOption in extra;
  }

  /** Test `case_insensitive_option`. */
  lemma {:induction false} CaseInsensitiveOptionScenario()
    ensures NewConfig(["minigrep", "-i", "rUsT", "test.txt"]) == Ok(Config("rUsT", "test.txt", false))
  {
    NewConfigPositions(["minigrep", "-i", "rUsT", "test.txt"], 0, 2, 3);
  }

  /** Test `case_sensitive_option`. */
  lemma {:induction false} CaseSensitiveOptionScenario()
    ensures NewConfig(["minigrep", "rUsT", "test.txt"]) == Ok(Config("rUsT", "test.txt", true))
  {
    NewConfigPositions(["minigrep", "rUsT", "test.txt"], 0, 1, 2);
  }

  /** Test `not_enough_arguments`. */
  lemma {:induction false} NotEnoughArgumentsScenario()
    ensures NewConfig(["minigrep", "rUsT"]) == Err(NotEnoughArguments)
  {
    assert |Filter(["minigrep", "rUsT"], NotOption())| <= 2;
  }

  /** Nothing rejects an empty query or file name. */
  lemma {:induction false} EmptyQueryAccepted()
    ensures NewConfig(["minigrep", "", "test.txt"]) == Ok(Config("", "test.txt", true))
  {
    NewConfigPositions(["minigrep", "", "test.txt"], 0, 1, 2);
  }

  /** The program name is filtered like any other argument: "-i" there is an option too. */
  lemma {:induction false} OptionAsProgramName()
    ensures NewConfig(["-i", "rUsT", "test.txt"]) == Err(NotEnoughArguments)
  {
    NewConfigFails(["-i", "rUsT", "test.txt"]);
  }

  /**
   * The option is spelled exactly "-i": in the first argument after the
   * program name that flag switches case sensitivity off, and any other
   * string there ("-I", "--ignore-case", ...) is taken as the query.
   */
  lemma {:induction false} OptionSpelling(flag: string)
    ensures NewConfig(["minigrep", flag, "rUsT", "test.txt"]) ==
      if flag == "-i" then Ok(Config("rUsT", "test.txt", false)) else Ok(Config(flag, "rUsT", true))
  {
    var args := ["minigrep", flag, "rUsT", "test.txt"];
    if flag == CaseInsensitiveOption {
      NewConfigPositions(args, 0, 2, 3);
    } else {
      NewConfigPositions(args, 0, 1, 2);
    }
  }

  /** The case-sensitive test: the line contains the query. */
  function ContainsQuery(query: string): string -> bool
  {
    line => Contains(line, query)
  }

  /** The case-insensitive test, given the query already lower-cased. */
  function ContainsLowered(loweredQuery: string): string -> bool
  {
    line => Contains(Lower(line), loweredQuery)
  }

  /**
   * `search`: the lines of `contents` that contain `query`; a line is in the
   * result exactly when it is a line of `contents` that contains `query`.
   */
  function Search(query: string, contents: string): (r: seq<string>)
    ensures forall line :: line in r <==> line in Lines(contents) && Contains(line, query)
    ensures |r| <= |Lines(contents)|
  {
    FilterMembers(Lines(contents), ContainsQuery(query));
    Filter(Lines(contents), ContainsQuery(query))
  }

  /**
   * `search_case_insensitive`: the lines of `contents` whose lower-cased form
   * contains the lower-cased query, returned as they stand in `contents`.
   */
  function SearchCaseInsensitive(query: string, contents: string): (r: seq<string>)
    ensures forall line :: line in r <==> line in Lines(contents) && Contains(Lower(line), Lower(query))
    ensures |r| <= |Lines(contents)|
  {
    var query := Lower(query);
    FilterMembers(Lines(contents), ContainsLowered(query));
    Filter(Lines(contents), ContainsLowered(query))
  }

  /**
   * The result of `Search` lists, in their original order, the lines at
   * exactly those positions of `Lines(contents)` that contain the query:
   * nothing reordered, no repeated line merged.
   */
  lemma {:induction false} SearchInOrder(query: string, contents: string)
    ensures exists idx :: Selects(idx, Search(query, contents), Lines(contents), ContainsQuery(query))
  {
    assert Search(query, contents) == Filter(Lines(contents), ContainsQuery(query));
    FilterSelects(Lines(contents), ContainsQuery(query));
  }

  /** The same for `SearchCaseInsensitive`, with the lower-cased comparison. */
  lemma {:induction false} SearchCaseInsensitiveInOrder(query: string, contents: string)
    ensures exists idx :: Selects(idx, SearchCaseInsensitive(query, contents), Lines(contents), ContainsLowered(Lower(query)))
  {
    assert SearchCaseInsensitive(query, contents) == Filter(Lines(contents), ContainsLowered(Lower(query)));
    FilterSelects(Lines(contents), ContainsLowered(Lower(query)));
  }

  /** A matching line occurs in the result as many times as in `contents`; others not at all. */
  lemma {:induction false} SearchKeepsRepeats(query: string, contents: string, line: string)
    ensures multiset(Search(query, contents))[line] ==
      if Contains(line, query) then multiset(Lines(contents))[line] else 0
  {
    FilterCount(Lines(contents), ContainsQuery(query), line);
  }

  /** Every string contains the empty string, so the empty query returns every line. */
  lemma {:induction false} SearchEmptyQuery(contents: string)
    ensures Search("", contents) == Lines(contents)
  {
    forall line: string
      ensures Contains(line, "")
    {
      assert OccursAt(line, "", 0);
    }
    FilterKeepsAll(Lines(contents), ContainsQuery(""));
  }

  /** A query longer than every line matches nothing. */
  lemma {:induction false} SearchLongQuery(query: string, contents: string)
    requires forall line :: line in Lines(contents) ==> |line| < |query|
    ensures Search(query, contents) == []
    ensures SearchCaseInsensitive(query, contents) == []
  {
    FilterKeepsNone(Lines(contents), ContainsQuery(query));
    FilterKeepsNone(Lines(contents), ContainsLowered(Lower(query)));
  }

  /**
   * A case-sensitive match is a case-insensitive match: `Search` is the
   * result of `SearchCaseInsensitive` narrowed to the exact matches, so it
   * is contained in it in order and with repetitions.
   */
  lemma {:induction false} SearchWithinCaseInsensitive(query: string, contents: string)
    ensures Search(query, contents) == Filter(SearchCaseInsensitive(query, contents), ContainsQuery(query))
  {
    forall line | ContainsQuery(query)(line)
      ensures ContainsLowered(Lower(query))(line)
    {
      LowerPreservesContains(line, query);
    }
    FilterNarrows(Lines(contents), ContainsQuery(query), ContainsLowered(Lower(query)));
  }

  /** Under the case-insensitive search, the query's own case does not matter. */
  lemma {:induction false} QueryCaseIgnored(query: string, contents: string)
    ensures SearchCaseInsensitive(query, contents) == SearchCaseInsensitive(Lower(query), contents)
  {
    LowerIdempotent(query);
  }

  /** Searching the result again, with the same test, changes nothing. */
  lemma {:induction false} SearchIdempotent(query: string, contents: string)
    ensures Filter(Search(query, contents), ContainsQuery(query)) == Search(query, contents)
    ensures Filter(SearchCaseInsensitive(query, contents), ContainsLowered(Lower(query))) ==
      SearchCaseInsensitive(query, contents)
  {
    FilterNarrows(Lines(contents), ContainsQuery(query), ContainsQuery(query));
    FilterNarrows(Lines(contents), ContainsLowered(Lower(query)), ContainsLowered(Lower(query)));
  }

  /**
   * What `run` prints for a result: the lines joined by '\n', then the '\n'
   * that `println!` adds. For a non-empty result that is every line followed
   * by '\n'; for the empty result it is a lone '\n'.
   */
  function Printed(result: seq<string>): (out: string)
    ensures out == if result == [] then "\n" else Unlines(result)
  {
    assert result != [] ==> Join(result, "\n") + "\n" == Unlines(result) by {
      if result != [] {
        JoinThenNewline(result);
      }
    }
    Join(result, "\n") + "\n"
  }

  /**
   * Searching the printed result again for the same query gives the same
   * result, provided no line of that result ends with a '\r' that `Lines`
   * kept. The one exception is the empty result under the empty query: its
   * printed form is an empty line, which that query matches.
   */
  lemma {:induction false} SearchOfPrintedResult(query: string, contents: string)
    requires forall l :: l in Search(query, contents) ==> IsLine(l)
    ensures Search(query, Printed(Search(query, contents))) ==
      if Search(query, contents) == [] && query == "" then [""] else Search(query, contents)
  {
    var r := Search(query, contents);
    if r == [] {
      SearchOfEmptyPrint(query);
    } else {
      PrintedLines(r);
      SearchIdempotent(query, contents);
    }
  }

  /** The same for `SearchCaseInsensitive`. */
  lemma {:induction false} SearchCaseInsensitiveOfPrintedResult(query: string, contents: string)
    requires forall l :: l in SearchCaseInsensitive(query, contents) ==> IsLine(l)
    ensures SearchCaseInsensitive(query, Printed(SearchCaseInsensitive(query, contents))) ==
      if SearchCaseInsensitive(query, contents) == [] && query == "" then [""] else SearchCaseInsensitive(query, contents)
  {
    var r := SearchCaseInsensitive(query, contents);
    if r == [] {
      SearchOfEmptyPrint(query);
    } else {
      PrintedLines(r);
      SearchIdempotent(query, contents);
    }
  }

  /**
   * The empty result prints one empty line, which the empty query matches,
   * and no other query does.
   */
  lemma {:induction false} SearchOfEmptyPrint(query: string)
    ensures Search(query, Printed([])) == if query == "" then [""] else []
    ensures SearchCaseInsensitive(query, Printed([])) == if query == "" then [""] else []
  {
    LinesOfLine("", "");
    assert Printed([]) == "" + "\n" + "";
    assert Lines(Printed([])) == [""];
    assert Contains("", query) <==> query == "" by {
      if query == "" {
        assert OccursAt("", query, 0);
      }
    }
    assert Lower("") == "";
    assert Lower(query) == "" <==> query == "";
    assert [""][1..] == [];
  }

  /** The lines of printed lines are those lines. */
  lemma {:induction false} PrintedLines(ls: seq<string>)
    requires forall l :: l in ls ==> IsLine(l)
    ensures Lines(Unlines(ls)) == ls
  {
    assert Unlines(ls) + [] == Unlines(ls);
    LinesOfUnlines(ls, []);
  }

  /*
   * The unit tests of the search. Their texts are multi-line literals; the
   * helpers below take each literal as a parameter bound by `requires`, so
   * that the verifier reasons about the lines one at a time.
   */

  /** The text of the tests `one_result` and `case_sensitive`... */
  const PickThree: string := "Rust:" + "\n" + "safe, fast, productive." + "\n" + "Pick three."
  /** ... and of `case_insensitive`, one line longer. */
  const TrustMe: string := "Rust:" + "\n" + "safe, fast, productive." + "\n" + "Pick three." + "\n" + "Trust me."

  /** Three lines joined by '\n', the last one unterminated. */
  lemma {:induction false} LinesOfThree(text: string, a: string, b: string, c: string)
    requires IsLine(a) && IsLine(b) && '\n' !in c && c != []
    requires text == a + "\n" + b + "\n" + c
    ensures Lines(text) == [a, b, c]
  {
    UnlinesOfTwo(a, b);
    assert text == Unlines([a, b]) + c;
    LinesOfUnlines([a, b], c);
  }

  /** Four lines joined by '\n', the last one unterminated. */
  lemma {:induction false} LinesOfFour(text: string, a: string, b: string, c: string, d: string)
    requires IsLine(a) && IsLine(b) && IsLine(c) && '\n' !in d && d != []
    requires text == a + "\n" + b + "\n" + c + "\n" + d
    ensures Lines(text) == [a, b, c, d]
  {
    UnlinesOfThree(a, b, c);
    assert text == Unlines([a, b, c]) + d;
    LinesOfUnlines([a, b, c], d);
  }

  lemma {:induction false} UnlinesOfTwo(a: string, b: string)
    ensures Unlines([a, b]) == a + "\n" + (b + "\n")
  {
    assert [a, b][1..] == [b];
    assert Unlines([b]) == b + "\n" + Unlines([]);
  }

  lemma {:induction false} UnlinesOfThree(a: string, b: string, c: string)
    ensures Unlines([a, b, c]) == a + "\n" + (b + "\n" + (c + "\n"))
  {
    assert [a, b, c][1..] == [b, c];
    UnlinesOfTwo(b, c);
  }

  /** Filtering a list of three is deciding each of them. */
  lemma {:induction false} FilterOfThree(a: string, b: string, c: string, keep: string -> bool)
    ensures Filter([a, b, c], keep) ==
      (if keep(a) then [a] else []) + (if keep(b) then [b] else []) + (if keep(c) then [c] else [])
  {
    assert [a, b, c][1..] == [b, c];
    assert [b, c][1..] == [c];
    assert Filter([c], keep) == (if keep(c) then [c] else []) + Filter([], keep);
  }

  lemma {:induction false} FilterOfFour(a: string, b: string, c: string, d: string, keep: string -> bool)
    ensures Filter([a, b, c, d], keep) ==
      (if keep(a) then [a] else []) + (if keep(b) then [b] else []) + (if keep(c) then [c] else []) + (if keep(d) then [d] else [])
  {
    assert [a, b, c, d][1..] == [b, c, d];
    FilterOfThree(b, c, d, keep);
  }

  /*
   * The facts about the four test lines, one per lemma: "Rust:",
   * "safe, fast, productive.", "Pick three." and "Trust me.".
   */

  lemma {:induction false} TestLinesAreLines(a: string, b: string, c: string, d: string)
    requires a == "Rust:" && b == "safe, fast, productive." && c == "Pick three." && d == "Trust me."
    ensures IsLine(a) && IsLine(b) && IsLine(c) && '\n' !in d && d != []
  {
  }

  /** "duct" is in "safe, fast, productive.", at index 15. */
  lemma {:induction false} DuctInSecond(b: string)
    requires b == "safe, fast, productive."
    ensures Contains(b, "duct")
  {
    assert OccursAt(b, "duct", 15);
  }

  /** The characters that rule the negative matches out. */
  lemma {:induction false} MissingCharacters(a: string, b: string, c: string, d: string)
    requires a == "Rust:" && b == "safe, fast, productive." && c == "Pick three." && d == "Trust me."
    ensures 'd' !in a && 'd' !in c
    ensures 'R' !in b && 'R' !in c && 'R' !in d
  {
  }

  /** "Rust" starts "Rust:". */
  lemma {:induction false} RustInFirst(a: string)
    requires a == "Rust:"
    ensures Contains(a, "Rust")
  {
    assert OccursAt(a, "Rust", 0);
  }

  /** "Rust:" lower-cased starts with "rust". */
  lemma {:induction false} LowerRustInFirst(a: string)
    requires a == "Rust:"
    ensures Contains(Lower(a), "rust")
  {
    assert Lower(a) == "rust:";
    assert OccursAt(Lower(a), "rust", 0);
  }

  /** "safe, fast, productive." has no upper case, and its only 'r' is followed by 'o'. */
  lemma {:induction false} LowerRustNotInSecond(b: string)
    requires b == "safe, fast, productive."
    ensures !Contains(Lower(b), "rust")
  {
    var b' := Lower(b);
    assert b' == b;
    forall i: nat ensures !OccursAt(b', "rust", i) {
      if i + 4 <= |b'| {
        assert b'[i..i + 4][0] != 'r' || b'[i..i + 4][1] != 'u';
      }
    }
  }

  /** No 'u' in "Pick three." lower-cased. */
  lemma {:induction false} LowerRustNotInThird(c: string)
    requires c == "Pick three."
    ensures !Contains(Lower(c), "rust")
  {
    assert 'u' !in Lower(c);
    MissingChar(Lower(c), "rust", 1);
  }

  /** "Trust me." lower-cased holds "rust" at index 1. */
  lemma {:induction false} LowerRustInFourth(d: string)
    requires d == "Trust me."
    ensures Contains(Lower(d), "rust")
  {
    assert Lower(d) == "trust me.";
    assert OccursAt(Lower(d), "rust", 1);
  }

  lemma {:induction false} LowerQuery(q: string)
    requires q == "rUsT"
    ensures Lower(q) == "rust"
  {
  }

  /** The lines of the test texts that hold "duct", "Rust" and, lower-cased, "rust". */
  lemma {:induction false} DuctLines()
    ensures Filter(["Rust:", "safe, fast, productive.", "Pick three."], ContainsQuery("duct")) ==
      ["safe, fast, productive."]
  {
    var a, b, c := "Rust:", "safe, fast, productive.", "Pick three.";
    MissingCharacters(a, b, c, "Trust me.");
    MissingChar(a, "duct", 0);
    DuctInSecond(b);
    MissingChar(c, "duct", 0);
    FilterOfThree(a, b, c, ContainsQuery("duct"));
  }

  lemma {:induction false} RustLines()
    ensures Filter(["Rust:", "safe, fast, productive.", "Pick three.", "Trust me."], ContainsQuery("Rust")) ==
      ["Rust:"]
  {
    var a, b, c, d := "Rust:", "safe, fast, productive.", "Pick three.", "Trust me.";
    RustInFirst(a);
    MissingCharacters(a, b, c, d);
    MissingChar(b, "Rust", 0);
    MissingChar(c, "Rust", 0);
    MissingChar(d, "Rust", 0);
    FilterOfFour(a, b, c, d, ContainsQuery("Rust"));
  }

  lemma {:induction false} LowerRustLines()
    ensures Filter(["Rust:", "safe, fast, productive.", "Pick three.", "Trust me."], ContainsLowered("rust")) ==
      ["Rust:", "Trust me."]
  {
    var a, b, c, d := "Rust:", "safe, fast, productive.", "Pick three.", "Trust me.";
    LowerRustInFirst(a);
    LowerRustNotInSecond(b);
    LowerRustNotInThird(c);
    LowerRustInFourth(d);
    FilterOfFour(a, b, c, d, ContainsLowered("rust"));
  }

  /** Test `one_result`: only the line holding "duct" is returned. */
  lemma {:induction false} OneResultScenario()
    ensures Search("duct", PickThree) == ["safe, fast, productive."]
  {
    var a, b, c, d := "Rust:", "safe, fast, productive.", "Pick three.", "Trust me.";
    TestLinesAreLines(a, b, c, d);
    LinesOfThree(PickThree, a, b, c);
    DuctLines();
  }

  /** Test `case_sensitive`: "Rust" matches "Rust:" but not "Trust me.". */
  lemma {:induction false} CaseSensitiveScenario()
    ensures Search("Rust", TrustMe) == ["Rust:"]
  {
    var a, b, c, d := "Rust:", "safe, fast, productive.", "Pick three.", "Trust me.";
    TestLinesAreLines(a, b, c, d);
    LinesOfFour(TrustMe, a, b, c, d);
    RustLines();
  }

  /** Test `case_insensitive`: "rUsT" matches both lines, returned unchanged. */
  lemma {:induction false} CaseInsensitiveScenario()
    ensures SearchCaseInsensitive("rUsT", TrustMe) == ["Rust:", "Trust me."]
  {
    var a, b, c, d := "Rust:", "safe, fast, productive.", "Pick three.", "Trust me.";
    TestLinesAreLines(a, b, c, d);
    LinesOfFour(TrustMe, a, b, c, d);
    LowerQuery("rUsT");
    LowerRustLines();
  }
}
