/**
 * The string operations the matcher relies on from Rust's standard
 * library: substring search (`str::contains`), lower-casing for the
 * comparison (`to_lowercase`, restricted here to ASCII) and splitting a
 * text into lines (`str::lines`).
 */
module Text {

  /** `sub` occurs in `s` starting at index `i`. */
  predicate OccursAt(s: string, sub: string, i: nat)
  {
    i + |sub| <= |s| && s[i..i + |sub|] == sub
  }

  /** Substring test: true exactly when `sub` occurs somewhere in `s`. */
  function Contains(s: string, sub: string): (r: bool)
    ensures r <==> exists i: nat :: OccursAt(s, sub, i)
    decreases |s|
  {
    if sub <= s then
      assert OccursAt(s, sub, 0);
      true
    else if s == [] then
      false
    else
      ContainsStep(s, sub);
      Contains(s[1..], sub)
  }

  /** An occurrence that is not at the front of `s` is an occurrence in `s[1..]`. */
  lemma {:induction false} ContainsStep(s: string, sub: string)
    requires s != [] && !(sub <= s)
    ensures (exists i: nat :: OccursAt(s, sub, i)) <==> (exists i: nat :: OccursAt(s[1..], sub, i))
  {
    if i: nat :| OccursAt(s, sub, i) {
      assert i != 0;
      assert s[1..][i - 1..i - 1 + |sub|] == s[i..i + |sub|];
      assert OccursAt(s[1..], sub, i - 1);
    }
    if i: nat :| OccursAt(s[1..], sub, i) {
      assert s[1..][i..i + |sub|] == s[i + 1..i + 1 + |sub|];
      assert OccursAt(s, sub, i + 1);
    }
  }

  predicate IsAsciiUpper(c: char)
  {
    'A' <= c <= 'Z'
  }

  /** ASCII lower-casing of one character (Rust's `char::to_ascii_lowercase`). */
  function LowerChar(c: char): char
  {
    if IsAsciiUpper(c) then (c as int + 32) as char else c
  }

  /** Character-by-character lower-casing of a string; the length never changes. */
  function Lower(s: string): (r: string)
    ensures |r| == |s|
  {
    seq(|s|, i requires 0 <= i < |s| => LowerChar(s[i]))
  }

  /** Lower-casing leaves no upper-case ASCII letter and changes nothing else. */
  lemma {:induction false} LowerSpec(s: string)
    ensures forall i :: 0 <= i < |s| ==> !IsAsciiUpper(Lower(s)[i])
    ensures forall i :: 0 <= i < |s| && !IsAsciiUpper(s[i]) ==> Lower(s)[i] == s[i]
    ensures forall i :: 0 <= i < |s| && IsAsciiUpper(s[i]) ==> Lower(s)[i] as int == s[i] as int + 32
  {
  }

  /** Lowering twice is lowering once. */
  lemma {:induction false} LowerIdempotent(s: string)
    ensures Lower(Lower(s)) == Lower(s)
  {
    assert forall i :: 0 <= i < |s| ==> Lower(Lower(s))[i] == LowerChar(LowerChar(s[i]));
  }

  /** Lowering commutes with taking a slice. */
  lemma {:induction false} LowerSlice(s: string, i: nat, j: nat)
    requires i <= j <= |s|
    ensures Lower(s)[i..j] == Lower(s[i..j])
  {
  }

  /**
   * A case-sensitive match is also a case-insensitive match: an occurrence
   * of `sub` in `s` is an occurrence of `Lower(sub)` in `Lower(s)`.
   */
  lemma {:induction false} LowerPreservesContains(s: string, sub: string)
    requires Contains(s, sub)
    ensures Contains(Lower(s), Lower(sub))
  {
    var i: nat :| OccursAt(s, sub, i);
    LowerSlice(s, i, i + |sub|);
    assert OccursAt(Lower(s), Lower(sub), i);
  }

  /** A string missing one of the characters of `sub` does not contain `sub`. */
  lemma {:induction false} MissingChar(s: string, sub: string, k: nat)
    requires k < |sub| && sub[k] !in s
    ensures !Contains(s, sub)
  {
    forall i: nat ensures !OccursAt(s, sub, i) {
      if i + |sub| <= |s| {
        assert s[i..i + |sub|][k] == s[i + k];
        assert s[i + k] in s;
      }
    }
  }

  /** Index of the first '\n' of `text`, or `|text|` when it has none. */
  function NewlineIndex(text: string): (k: nat)
    ensures k <= |text|
    ensures '\n' !in text[..k]
    ensures k < |text| ==> text[k] == '\n'
  {
    if text == [] || text[0] == '\n' then 0
    else
      var k := 1 + NewlineIndex(text[1..]);
      assert text[..k] == [text[0]] + text[1..][..k - 1];
      k
  }

  /** `piece` without one trailing '\r', if it has one. */
  function StripCr(piece: string): string
  {
    if |piece| > 0 && piece[|piece| - 1] == '\r' then piece[..|piece| - 1] else piece
  }

  /**
   * Rust's `str::lines`: the text is cut after every '\n'; each piece that
   * ends with '\n' loses it, and then loses a '\r' just before it; a final
   * piece with no '\n' is kept as it is, and an empty text, or the empty
   * rest after a final '\n', yields no line.
   */
  function Lines(text: string): (ls: seq<string>)
    ensures |ls| <= |text|
    decreases |text|
  {
    if text == [] then []
    else
      var k := NewlineIndex(text);
      if k == |text| then [text]
      else [StripCr(text[..k])] + Lines(text[k + 1..])
  }

  /** No line holds a '\n'. */
  lemma {:induction false} LinesHaveNoNewline(text: string)
    ensures forall l :: l in Lines(text) ==> '\n' !in l
    decreases |text|
  {
    if text != [] {
      var k := NewlineIndex(text);
      if k == |text| {
        assert text[..k] == text;
      } else {
        var piece := text[..k];
        assert '\n' !in StripCr(piece) by {
          if |piece| > 0 && piece[|piece| - 1] == '\r' {
            assert forall c :: c in piece[..|piece| - 1] ==> c in piece;
          }
        }
        LinesHaveNoNewline(text[k + 1..]);
      }
    }
  }

  /** A string `Lines` can produce from a line terminated by '\n'. */
  predicate IsLine(l: string)
  {
    '\n' !in l && (|l| == 0 || l[|l| - 1] != '\r')
  }

  /** Every line followed by '\n': the inverse of `Lines`. */
  function Unlines(ls: seq<string>): string
  {
    if ls == [] then [] else ls[0] + "\n" + Unlines(ls[1..])
  }

  lemma {:induction false} NewlineIndexAfterLine(l: string, rest: string)
    requires '\n' !in l
    ensures NewlineIndex(l + "\n" + rest) == |l|
  {
    var text := l + "\n" + rest;
    var k := NewlineIndex(text);
    assert text[|l|] == '\n';
  }

  /**
   * Round trip: splitting lines that were joined, each followed by '\n',
   * and then an unterminated last piece `tail`, gives back those lines
   * (and `tail`, unless it is empty).
   */
  lemma {:induction false} LinesOfUnlines(ls: seq<string>, tail: string)
    requires forall l :: l in ls ==> IsLine(l)
    requires '\n' !in tail
    ensures Lines(Unlines(ls) + tail) == ls + (if tail == [] then [] else [tail])
  {
    var last := if tail == [] then [] else [tail];
    if ls == [] {
      assert Unlines(ls) + tail == tail;
      LinesOfLastPiece(tail);
    } else {
      var l := ls[0];
      assert l in ls;
      var rest := Unlines(ls[1..]) + tail;
      assert Unlines(ls) + tail == l + "\n" + rest;
      LinesOfLine(l, rest);
      LinesOfUnlines(ls[1..], tail);
      calc {
        Lines(Unlines(ls) + tail);
        [l] + Lines(rest);
        [l] + (ls[1..] + last);
        { assert ls == [l] + ls[1..]; }
        ls + last;
      }
    }
  }

  /**
   * A line ended by "\r\n" loses both characters, and only the last '\r':
   * `l` may end with a '\r' of its own, which stays (so "a\r\r\n" gives the
   * line "a\r").
   */
  lemma {:induction false} LinesOfCrLfLine(l: string, rest: string)
    requires '\n' !in l
    ensures Lines(l + "\r\n" + rest) == [l] + Lines(rest)
  {
    var piece := l + "\r";
    assert '\n' !in piece by {
      assert forall c :: c in piece ==> c in l || c == '\r';
    }
    assert l + "\r\n" + rest == piece + "\n" + rest;
    NewlineIndexAfterLine(piece, rest);
    var text := piece + "\n" + rest;
    assert text[..|piece|] == piece;
    assert text[|piece| + 1..] == rest;
    assert piece[..|piece| - 1] == l;
  }

  /** `[&str]::join`: the strings of `ls` with `sep` between each two. */
  function Join(ls: seq<string>, sep: string): (s: string)
    ensures ls == [] ==> s == []
    ensures |ls| == 1 ==> s == ls[0]
  {
    if ls == [] then [] else if |ls| == 1 then ls[0] else ls[0] + sep + Join(ls[1..], sep)
  }

  /** Joining by '\n' and adding a final '\n' puts a '\n' after every string. */
  lemma {:induction false} JoinThenNewline(ls: seq<string>)
    requires ls != []
    ensures Join(ls, "\n") + "\n" == Unlines(ls)
  {
    if |ls| == 1 {
      assert Unlines(ls) == ls[0] + "\n" + Unlines([]);
    } else {
      JoinThenNewline(ls[1..]);
      assert Join(ls, "\n") + "\n" == ls[0] + "\n" + (Join(ls[1..], "\n") + "\n");
    }
  }

  /** A text without '\n' is one line, or none when it is empty. */
  lemma {:induction false} LinesOfLastPiece(tail: string)
    requires '\n' !in tail
    ensures Lines(tail) == if tail == [] then [] else [tail]
  {
    if tail != [] {
      assert NewlineIndex(tail) == |tail|;
    }
  }

  /** A line followed by '\n' comes out of `Lines` unchanged, ahead of the lines of the rest. */
  lemma {:induction false} LinesOfLine(l: string, rest: string)
    requires IsLine(l)
    ensures Lines(l + "\n" + rest) == [l] + Lines(rest)
  {
    var text := l + "\n" + rest;
    NewlineIndexAfterLine(l, rest);
    assert text[..|l|] == l;
    assert text[|l| + 1..] == rest;
    assert StripCr(l) == l;
  }

  /** The text has no '\r' immediately before a '\n'. */
  predicate NoCrBeforeNewline(text: string)
  {
    forall i :: 0 < i < |text| && text[i] == '\n' ==> text[i - 1] != '\r'
  }

  /**
   * Round trip the other way: when no '\r' stands before a '\n', joining
   * the lines of a text gives the text back, with a '\n' added at the end
   * when it did not already end with one.
   */
  lemma {:induction false} UnlinesOfLines(text: string)
    requires NoCrBeforeNewline(text)
    ensures Unlines(Lines(text)) == Terminate(text)
    decreases |text|
  {
    if text != [] {
      var k := NewlineIndex(text);
      if k == |text| {
        UnlinesOfLastLine(text);
      } else {
        var piece, rest := text[..k], text[k + 1..];
        UnlinesOfLinesStep(text);
        UnlinesOfLines(rest);
        Terminated(piece, rest);
      }
    }
  }

  /** `text` with a '\n' added unless it is empty or already ends with one. */
  function Terminate(text: string): string
  {
    if text == [] || text[|text| - 1] == '\n' then text else text + "\n"
  }

  lemma {:induction false} Terminated(piece: string, rest: string)
    ensures piece + "\n" + Terminate(rest) == Terminate(piece + "\n" + rest)
  {
    var text := piece + "\n" + rest;
    if rest != [] {
      assert text[|text| - 1] == rest[|rest| - 1];
      assert piece + "\n" + (rest + "\n") == text + "\n";
    }
  }

  lemma {:induction false} UnlinesOfLastLine(text: string)
    requires text != [] && NewlineIndex(text) == |text|
    ensures Unlines(Lines(text)) == text + "\n"
    ensures text[|text| - 1] != '\n'
  {
    assert text[..|text|] == text;
    assert Lines(text) == [text];
    assert Unlines([text]) == text + "\n" + Unlines([]);
    assert text[|text| - 1] in text[..|text|];
  }

  lemma {:induction false} UnlinesOfLinesStep(text: string)
    requires NoCrBeforeNewline(text)
    requires NewlineIndex(text) < |text|
    ensures var k := NewlineIndex(text);
      && NoCrBeforeNewline(text[k + 1..])
      && Unlines(Lines(text)) == text[..k] + "\n" + Unlines(Lines(text[k + 1..]))
      && text == text[..k] + "\n" + text[k + 1..]
  {
    var k := NewlineIndex(text);
    var piece := text[..k];
    var rest := text[k + 1..];
    assert StripCr(piece) == piece by {
      if k > 0 {
        assert text[k] == '\n';
      }
    }
    NoCrBeforeNewlineSuffix(text, k + 1);
    LinesUnfold(text);
  }

  lemma {:induction false} NoCrBeforeNewlineSuffix(text: string, j: nat)
    requires NoCrBeforeNewline(text) && j <= |text|
    ensures NoCrBeforeNewline(text[j..])
  {
    var rest := text[j..];
    forall i | 0 < i < |rest| && rest[i] == '\n'
      ensures rest[i - 1] != '\r'
    {
      assert rest[i] == text[j + i] && rest[i - 1] == text[j + i - 1];
    }
  }

  lemma {:induction false} LinesUnfold(text: string)
    requires NewlineIndex(text) < |text|
    ensures var k := NewlineIndex(text);
      Lines(text) == [StripCr(text[..k])] + Lines(text[k + 1..])
  {
  }
}
