/** `detect_delimiter`: choose comma or tab from the first line of the input file. */
module Delimiter {

  const COMMA: char := ','
  const TAB: char := '\t'

  /** What opening and decoding the input file yields: its text, or a failure
      (missing file, permission, invalid UTF-8 -- any exception). */
  datatype FileRead = Contents(text: string) | ReadError

  /** The characters at which `readline` ends a line when the file is opened with
      `newline=''`: LF, CR, and CR LF taken together. */
  predicate IsLineEnd(c: char) {
    c == '\n' || c == '\r'
  }

  /** `s.count(c)` for a one-character `c`. */
  function Occurrences(s: string, c: char): (n: nat)
    ensures n == multiset(s)[c]
  {
    if s == [] then 0
    else
      assert s == [s[0]] + s[1..];
      (if s[0] == c then 1 else 0) + Occurrences(s[1..], c)
  }

  /** `f.readline()` on a file opened with `newline=''`: everything up to and including
      the first line terminator, or the whole text when there is none. */
  function FirstLine(text: string): (line: string)
    ensures |line| <= |text| && line == text[..|line|]
  {
    if text == [] then []
    else if text[0] == '\n' then "\n"
    else if text[0] == '\r' then (if |text| > 1 && text[1] == '\n' then "\r\n" else "\r")
    else [text[0]] + FirstLine(text[1..])
  }

  /** `FirstLine` stops at the first terminator and nowhere else: the line holds no
      terminator except at its end (a CR LF pair counting as one), it falls short of
      the text only by ending in a terminator, and it never splits a CR LF pair. */
  lemma {:induction false} FirstLineEndsAtFirstTerminator(text: string)
    ensures var line := FirstLine(text);
      && (forall k | 0 <= k < |line| - 2 :: !IsLineEnd(line[k]))
      && (|line| >= 2 && IsLineEnd(line[|line| - 2]) ==> line[|line| - 2..] == "\r\n")
      && (|line| < |text| ==> line != [] && IsLineEnd(line[|line| - 1]))
      && (line != [] && line[|line| - 1] == '\r' ==> |line| == |text| || text[|line|] != '\n')
  {
    var line := FirstLine(text);
    if text == [] {
    } else if text[0] == '\n' {
      assert line == ['\n'];
    } else if text[0] == '\r' {
      if |text| > 1 && text[1] == '\n' {
        assert line == ['\r', '\n'];
      } else {
        assert line == ['\r'];
      }
    } else {
      var tail := text[1..];
      FirstLineEndsAtFirstTerminator(tail);
      var rest := FirstLine(tail);
      assert line == [text[0]] + rest;
      forall k | 0 <= k < |line| - 2
        ensures !IsLineEnd(line[k])
      {
        if k > 0 {
          assert line[k] == rest[k - 1];
        }
      }
      if |line| >= 2 && IsLineEnd(line[|line| - 2]) {
        assert |rest| >= 2;
        assert line[|line| - 2..] == rest[|rest| - 2..];
      }
      if rest != [] {
        assert line[|line| - 1] == rest[|rest| - 1];
        if |rest| < |tail| {
          assert text[|line|] == tail[|rest|];
        }
      }
    }
  }

  /** `detect_delimiter`: tab exactly when the first line holds strictly more tabs than
      commas; comma on a tie (zero of each included) and on any read error. */
  function DetectDelimiter(input: FileRead): (d: char)
    ensures d == COMMA || d == TAB
    ensures d == TAB <==> input.Contents? && multiset(FirstLine(input.text))[TAB] > multiset(FirstLine(input.text))[COMMA]
  {
    match input
    case ReadError => COMMA
    case Contents(text) =>
      var line := FirstLine(text);
      if Occurrences(line, TAB) > Occurrences(line, COMMA) then TAB else COMMA
  }

  /** Text before the first terminator is passed through unchanged by `FirstLine`. */
  lemma {:induction false} FirstLineSkipsText(head: string, tail: string)
    requires forall k | 0 <= k < |head| :: !IsLineEnd(head[k])
    ensures FirstLine(head + tail) == head + FirstLine(tail)
  {
    if head == [] {
      assert head + tail == tail;
    } else {
      var whole := head + tail;
      assert whole[0] == head[0] && !IsLineEnd(whole[0]);
      assert whole[1..] == head[1..] + tail;
      FirstLineSkipsText(head[1..], tail);
      assert FirstLine(whole) == [head[0]] + FirstLine(whole[1..]);
      assert head == [head[0]] + head[1..];
    }
  }

  /** Only the first line matters: whatever follows the first terminator, the choice is
      the one the first line alone gives. */
  lemma OnlyFirstLineMatters(line: string, terminator: char, rest: string)
    requires forall k | 0 <= k < |line| :: !IsLineEnd(line[k])
    requires IsLineEnd(terminator)
    ensures DetectDelimiter(Contents(line + [terminator] + rest)) == DetectDelimiter(Contents(line))
  {
    var after := [terminator] + rest;
    assert line + [terminator] + rest == line + after;
    FirstLineSkipsText(line, after);
    FirstLineSkipsText(line, []);
    assert line + [] == line;
    TerminatorCarriesNoDelimiter(terminator, rest);
    ExtraTextWithoutDelimiters(line, FirstLine(after));
  }

  lemma TerminatorCarriesNoDelimiter(terminator: char, rest: string)
    requires IsLineEnd(terminator)
    ensures Occurrences(FirstLine([terminator] + rest), TAB) == 0
    ensures Occurrences(FirstLine([terminator] + rest), COMMA) == 0
  {
    var after := [terminator] + rest;
    assert after[0] == terminator;
    var ending := FirstLine(after);
    assert ending == "\n" || ending == "\r" || ending == "\r\n";
  }

  lemma ExtraTextWithoutDelimiters(line: string, ending: string)
    requires Occurrences(ending, TAB) == 0 && Occurrences(ending, COMMA) == 0
    requires FirstLine(line) == line
    ensures Occurrences(line + ending, TAB) == Occurrences(FirstLine(line), TAB)
    ensures Occurrences(line + ending, COMMA) == Occurrences(FirstLine(line), COMMA)
  {
    OccurrencesAppend(line, ending, TAB);
    OccurrencesAppend(line, ending, COMMA);
  }

  lemma OccurrencesAppend(a: string, b: string, c: char)
    ensures Occurrences(a + b, c) == Occurrences(a, c) + Occurrences(b, c)
  {
    assert multiset(a + b) == multiset(a) + multiset(b);
  }

  /** For a text of one line without terminator, the choice compares the counts over
      the whole text. */
  lemma SingleLineChoice(line: string)
    requires forall k | 0 <= k < |line| :: !IsLineEnd(line[k])
    ensures DetectDelimiter(Contents(line)) == TAB <==> Occurrences(line, TAB) > Occurrences(line, COMMA)
  {
    FirstLineSkipsText(line, []);
    assert line + [] == line;
  }

  /** A character that does not occur counts zero. */
  lemma AbsentCountsZero(s: string, c: char)
    requires c !in s
    ensures Occurrences(s, c) == 0
  {
    assert c !in multiset(s);
  }

  /** A character that occurs counts at least one. */
  lemma PresentCountsOne(s: string, c: char)
    requires c in s
    ensures Occurrences(s, c) > 0
  {
    assert c in multiset(s);
  }

  /** A first line without a tab picks the comma, whatever follows it. */
  lemma NoTabPicksComma(line: string, terminator: char, rest: string)
    requires forall k | 0 <= k < |line| :: !IsLineEnd(line[k])
    requires IsLineEnd(terminator)
    requires TAB !in line
    ensures DetectDelimiter(Contents(line + [terminator] + rest)) == COMMA
  {
    OnlyFirstLineMatters(line, terminator, rest);
    SingleLineChoice(line);
    AbsentCountsZero(line, TAB);
  }

  /** A first line with a tab and no comma picks the tab, whatever follows it. */
  lemma TabWithoutCommaPicksTab(line: string, terminator: char, rest: string)
    requires forall k | 0 <= k < |line| :: !IsLineEnd(line[k])
    requires IsLineEnd(terminator)
    requires TAB in line && COMMA !in line
    ensures DetectDelimiter(Contents(line + [terminator] + rest)) == TAB
  {
    OnlyFirstLineMatters(line, terminator, rest);
    SingleLineChoice(line);
    AbsentCountsZero(line, COMMA);
    PresentCountsOne(line, TAB);
  }

  /** A comma-separated header row picks the comma, whatever rows follow it. */
  lemma CommaHeaderExample(rest: string)
    ensures DetectDelimiter(Contents("a,b,c\n" + rest)) == COMMA
  {
    assert "a,b,c\n" + rest == "a,b,c" + ['\n'] + rest;
    NoTabPicksComma("a,b,c", '\n', rest);
  }

  /** A tab-separated header row picks the tab, whatever rows follow it. */
  lemma TabHeaderExample(rest: string)
    ensures DetectDelimiter(Contents("x\ty\tz\n" + rest)) == TAB
  {
    assert "x\ty\tz\n" + rest == "x\ty\tz" + ['\n'] + rest;
    TabWithoutCommaPicksTab("x\ty\tz", '\n', rest);
  }
}
