/**
  The formatting directives of the prompt builder: small pure text
  transforms applied to the inner text of a `{%tag%}…{%tag stop%}` span.
 */
module Directives {
  import opened Strings
  import Regex

  // ---------------------------------------------------------------------
  // spaceless
  // ---------------------------------------------------------------------

  /** Matcher for `\s+`. */
  function WhitespaceRunAt(s: string): nat {
    Regex.RunEnd(s, 0, IsSpace)
  }

  function OneSpace(m: string): string { " " }

  /** directive_spaceless: every whitespace run becomes one space, then the ends are stripped. */
  function Spaceless(text: string): string {
    Strip(Regex.Sub(WhitespaceRunAt, text, OneSpace))
  }

  /** Every whitespace character is a space, and no two whitespace characters are adjacent. */
  predicate SingleSpaced(s: string) {
    forall i :: 0 <= i < |s| && IsSpace(s[i]) ==> s[i] == ' ' && (i + 1 < |s| ==> !IsSpace(s[i + 1]))
  }

  lemma {:induction false} SingleSpacedSlice(s: string, a: nat, b: nat)
    requires SingleSpaced(s) && a <= b <= |s|
    ensures SingleSpaced(s[a..b])
  {
    forall i | 0 <= i < b - a && IsSpace(s[a..b][i])
      ensures s[a..b][i] == ' ' && (i + 1 < b - a ==> !IsSpace(s[a..b][i + 1]))
    {
      assert s[a..b][i] == s[a + i];
      if i + 1 < b - a { assert s[a..b][i + 1] == s[a + i + 1]; }
    }
  }

  /** Collapsing the runs leaves single spaces, and keeps a leading non-space character. */
  lemma {:induction false} SubSpaces(s: string)
    ensures var r := Regex.Sub(WhitespaceRunAt, s, OneSpace);
      && SingleSpaced(r)
      && (s != [] && !IsSpace(s[0]) ==> r != [] && r[0] == s[0])
    decreases |s|
  {
    if s != [] {
      var r := Regex.Sub(WhitespaceRunAt, s, OneSpace);
      if Regex.MatchesAt(WhitespaceRunAt, s) {
        var m := WhitespaceRunAt(s);
        var rest := s[m..];
        SubSpaces(rest);
        var t := Regex.Sub(WhitespaceRunAt, rest, OneSpace);
        assert r == " " + t;
        assert rest != [] ==> !IsSpace(rest[0]);
        forall i | 0 <= i < |r| && IsSpace(r[i]) ensures r[i] == ' ' && (i + 1 < |r| ==> !IsSpace(r[i + 1])) {
          if i > 0 { assert r[i] == t[i - 1]; }
          if i + 1 < |r| { assert r[i + 1] == t[i]; }
        }
      } else {
        var t := Regex.Sub(WhitespaceRunAt, s[1..], OneSpace);
        SubSpaces(s[1..]);
        assert r == [s[0]] + t;
        assert !IsSpace(s[0]);
        forall i | 0 <= i < |r| && IsSpace(r[i]) ensures r[i] == ' ' && (i + 1 < |r| ==> !IsSpace(r[i + 1])) {
          if i > 0 { assert r[i] == t[i - 1]; }
          if i + 1 < |r| { assert r[i + 1] == t[i]; }
        }
      }
    }
  }

  /** The spaceless output is single-spaced and has no whitespace at either end. */
  lemma {:induction false} SpacelessSpec(text: string)
    ensures var r := Spaceless(text);
      SingleSpaced(r) && (r == [] || (!IsSpace(r[0]) && !IsSpace(r[|r| - 1])))
  {
    var u := Regex.Sub(WhitespaceRunAt, text, OneSpace);
    SubSpaces(text);
    StripSpec(u);
    var r := Strip(u);
    var k := StripSlice(u);
    SingleSpacedSlice(u, k, k + |r|);
  }

  /** A single-spaced string has no whitespace run to collapse. */
  lemma {:induction false} SubSingleSpaced(s: string)
    requires SingleSpaced(s)
    ensures Regex.Sub(WhitespaceRunAt, s, OneSpace) == s
    decreases |s|
  {
    if s != [] {
      SingleSpacedSlice(s, 1, |s|);
      SubSingleSpaced(s[1..]);
      if IsSpace(s[0]) {
        Regex.RunEndIs(s, 0, IsSpace, 1);
        assert s == " " + s[1..];
      } else {
        Regex.RunEndIs(s, 0, IsSpace, 0);
        assert s == [s[0]] + s[1..];
      }
    }
  }

  /** spaceless is idempotent. */
  lemma {:induction false} SpacelessIdempotent(text: string)
    ensures Spaceless(Spaceless(text)) == Spaceless(text)
  {
    var u := Spaceless(text);
    SpacelessSpec(text);
    SubSingleSpaced(u);
    StripNoop(u);
  }

  // ---------------------------------------------------------------------
  // collapse_newlines
  // ---------------------------------------------------------------------

  predicate IsNewline(c: char) { c == '\n' }

  /** Matcher for `\n{2,}`. */
  function NewlineRunAt(s: string): nat {
    var j := Regex.RunEnd(s, 0, IsNewline);
    if j >= 2 then j else 0
  }

  function OneNewline(m: string): string { "\n" }

  /** directive_collapse_newlines: every run of two or more newlines becomes one. */
  function CollapseNewlines(text: string): string {
    Regex.Sub(NewlineRunAt, text, OneNewline)
  }

  /** No newline is directly followed by another. */
  predicate NoDoubleNewline(s: string) {
    forall i :: 0 <= i && i + 1 < |s| ==> !(s[i] == '\n' && s[i + 1] == '\n')
  }

  /** The collapsed text has no double newline and starts as the input does. */
  lemma {:induction false} SubNewlines(s: string)
    ensures var r := Regex.Sub(NewlineRunAt, s, OneNewline);
      NoDoubleNewline(r) && (s != [] ==> r != [] && r[0] == s[0])
    decreases |s|
  {
    if s != [] {
      var r := Regex.Sub(NewlineRunAt, s, OneNewline);
      if Regex.MatchesAt(NewlineRunAt, s) {
        var m := NewlineRunAt(s);
        var rest := s[m..];
        SubNewlines(rest);
        var t := Regex.Sub(NewlineRunAt, rest, OneNewline);
        assert r == "\n" + t;
        assert rest != [] ==> rest[0] != '\n';
        forall i | 0 <= i && i + 1 < |r| ensures !(r[i] == '\n' && r[i + 1] == '\n') {
          assert r[i + 1] == t[i];
          if i > 0 { assert r[i] == t[i - 1]; }
        }
      } else {
        var t := Regex.Sub(NewlineRunAt, s[1..], OneNewline);
        SubNewlines(s[1..]);
        assert r == [s[0]] + t;
        assert s[0] == '\n' && |s| > 1 ==> s[1] != '\n';
        forall i | 0 <= i && i + 1 < |r| ensures !(r[i] == '\n' && r[i + 1] == '\n') {
          assert r[i + 1] == t[i];
          if i > 0 { assert r[i] == t[i - 1]; }
        }
      }
    }
  }

  /** collapse_newlines leaves no `\n\n` behind. */
  lemma {:induction false} CollapseNewlinesSpec(text: string)
    ensures NoDoubleNewline(CollapseNewlines(text))
    ensures !Contains(CollapseNewlines(text), "\n\n")
  {
    SubNewlines(text);
    var r := CollapseNewlines(text);
    forall i | 0 <= i <= |r| ensures !OccursAt(r, "\n\n", i) {
      if i + 2 <= |r| { assert r[i..i + 2] == [r[i], r[i + 1]]; }
    }
  }

  /** Text without a double newline is left as it is. */
  lemma {:induction false} CollapseNewlinesNoop(s: string)
    requires NoDoubleNewline(s)
    ensures CollapseNewlines(s) == s
  {
    forall i | 0 <= i < |s| ensures !Regex.MatchesAt(NewlineRunAt, s[i..]) {
      var t := s[i..];
      var j := Regex.RunEnd(t, 0, IsNewline);
      if j >= 2 {
        assert t[0] == s[i] && t[1] == s[i + 1];
      }
    }
    Regex.SubNoMatch(NewlineRunAt, s, OneNewline);
  }

  /** collapse_newlines is idempotent. */
  lemma {:induction false} CollapseNewlinesIdempotent(text: string)
    ensures CollapseNewlines(CollapseNewlines(text)) == CollapseNewlines(text)
  {
    CollapseNewlinesSpec(text);
    CollapseNewlinesNoop(CollapseNewlines(text));
  }

  // ---------------------------------------------------------------------
  // lower, upper, title
  // ---------------------------------------------------------------------

  /** lower leaves no upper-case letter and changes no other character; upper dually; both are idempotent. */
  lemma {:induction false} CaseSpec(s: string)
    ensures forall i :: 0 <= i < |s| ==> !IsUpperAscii(Lower(s)[i]) && IsLetter(Lower(s)[i]) == IsLetter(s[i])
    ensures forall i :: 0 <= i < |s| ==> !IsLowerAscii(Upper(s)[i]) && IsLetter(Upper(s)[i]) == IsLetter(s[i])
    ensures Lower(Lower(s)) == Lower(s) && Upper(Upper(s)) == Upper(s)
    ensures Lower(Upper(s)) == Lower(s) && Upper(Lower(s)) == Upper(s)
  {
  }

  /**
    `str.title` on ASCII: a letter is upper-cased when the character before
    it is not a letter, and lower-cased when it is; other characters stay.
   */
  function Title(s: string): string {
    seq(|s|, i requires 0 <= i < |s| => if i > 0 && IsLetter(s[i - 1]) then LowerChar(s[i]) else UpperChar(s[i]))
  }

  /** Each word begins with a capital and continues in lower case; title is idempotent. */
  lemma {:induction false} TitleSpec(s: string)
    ensures |Title(s)| == |s|
    ensures forall i :: 0 <= i < |s| && IsLetter(s[i]) ==>
      (if i > 0 && IsLetter(s[i - 1]) then IsLowerAscii(Title(s)[i]) else IsUpperAscii(Title(s)[i]))
    ensures forall i :: 0 <= i < |s| && !IsLetter(s[i]) ==> Title(s)[i] == s[i]
    ensures Title(Title(s)) == Title(s)
  {
    var t := Title(s);
    assert forall i :: 0 <= i < |s| ==> IsLetter(t[i]) == IsLetter(s[i]);
  }

  // ---------------------------------------------------------------------
  // strip_punct
  // ---------------------------------------------------------------------

  /** The characters of `string.punctuation`: the ASCII graphic characters that are neither letters nor digits. */
  predicate IsPunct(c: char) {
    ('!' <= c <= '/') || (':' <= c <= '@') || ('[' <= c <= '`') || ('{' <= c <= '~')
  }

  /** Matcher for the one-character class of punctuation. */
  function PunctAt(s: string): nat {
    if s != [] && IsPunct(s[0]) then 1 else 0
  }

  function Nothing(m: string): string { "" }

  /** directive_strip_punct */
  function StripPunct(text: string): string {
    Regex.Sub(PunctAt, text, Nothing)
  }

  /** Reference: the characters of `s` that are not punctuation, in order, collected from the end. */
  function WithoutPunct(s: string): string
    decreases |s|
  {
    if s == [] then []
    else WithoutPunct(s[..|s| - 1]) + (if IsPunct(s[|s| - 1]) then [] else [s[|s| - 1]])
  }

  lemma {:induction false} WithoutPunctCons(c: char, s: string)
    ensures WithoutPunct([c] + s) == (if IsPunct(c) then [] else [c]) + WithoutPunct(s)
    decreases |s|
  {
    if s != [] {
      var t := [c] + s;
      assert t[..|t| - 1] == [c] + s[..|s| - 1];
      WithoutPunctCons(c, s[..|s| - 1]);
    } else {
      assert ([c] + s)[..0] == [];
    }
  }

  /** strip_punct keeps exactly the non-punctuation characters, in order. */
  lemma {:induction false} StripPunctSpec(text: string)
    ensures StripPunct(text) == WithoutPunct(text)
    decreases |text|
  {
    if text != [] {
      StripPunctSpec(text[1..]);
      WithoutPunctCons(text[0], text[1..]);
      assert text == [text[0]] + text[1..];
    }
  }

  /** The reference has no punctuation left, and leaves punctuation-free text as it is. */
  lemma {:induction false} WithoutPunctFacts(s: string)
    ensures forall i :: 0 <= i < |WithoutPunct(s)| ==> !IsPunct(WithoutPunct(s)[i])
    ensures (forall i :: 0 <= i < |s| ==> !IsPunct(s[i])) ==> WithoutPunct(s) == s
    decreases |s|
  {
    if s != [] {
      var init := s[..|s| - 1];
      WithoutPunctFacts(init);
      assert s == init + [s[|s| - 1]];
    }
  }

  // ---------------------------------------------------------------------
  // list, list_rtrim, list_and
  // ---------------------------------------------------------------------

  function LStripEach(lines: seq<string>): seq<string> {
    seq(|lines|, k requires 0 <= k < |lines| => LStrip(lines[k]))
  }

  function StripEach(lines: seq<string>): seq<string> {
    seq(|lines|, k requires 0 <= k < |lines| => Strip(lines[k]))
  }

  /** The non-empty lines, in order. */
  function NonEmpty(lines: seq<string>): seq<string>
    decreases |lines|
  {
    if lines == [] then []
    else (if lines[0] != "" then [lines[0]] else []) + NonEmpty(lines[1..])
  }

  /** A line is kept exactly when it is present and non-empty. */
  lemma {:induction false} NonEmptyMember(lines: seq<string>, x: string)
    ensures x in NonEmpty(lines) <==> x in lines && x != ""
    decreases |lines|
  {
    if lines != [] {
      NonEmptyMember(lines[1..], x);
      assert lines == [lines[0]] + lines[1..];
    }
  }

  /** directive_list: the non-empty left-stripped lines, joined with newlines. */
  function List(text: string): string {
    Join(NonEmpty(LStripEach(SplitLines(text))), "\n")
  }

  /** directive_list_right: the non-empty stripped lines, joined with newlines. */
  function ListRight(text: string): string {
    Join(NonEmpty(StripEach(SplitLines(text))), "\n")
  }

  /** A left-stripped line of `splitlines` is still free of line breaks. */
  lemma {:induction false} LStripLine(line: string)
    requires NoLineBreak(line)
    ensures NoLineBreak(LStrip(line)) && (LStrip(line) == [] || !IsSpace(LStrip(line)[0]))
  {
    LStripBySpec(line, IsSpace);
    var r := LStrip(line);
    forall j | 0 <= j < |r| ensures !IsLineBreak(r[j]) { assert r[j] == line[|line| - |r| + j]; }
  }

  /** A stripped line of `splitlines` is still free of line breaks. */
  lemma {:induction false} StripLine(line: string)
    requires NoLineBreak(line)
    ensures var r := Strip(line);
      NoLineBreak(r) && (r == [] || (!IsSpace(r[0]) && !IsSpace(r[|r| - 1]))) && Strip(r) == r
  {
    LStripLine(line);
    var l := LStrip(line);
    RStripBySpec(l, IsSpace);
    var r := Strip(line);
    forall j | 0 <= j < |r| ensures !IsLineBreak(r[j]) { assert r[j] == l[j]; }
    StripSpec(line);
    StripIdempotent(line);
  }

  /**
    The lines of the list output are the non-empty left-stripped input lines
    in their original order; each is non-empty and starts with a non-space.
   */
  lemma {:induction false} ListSpec(text: string)
    ensures var lines := NonEmpty(LStripEach(SplitLines(text)));
      && SplitLines(List(text)) == lines
      && forall k :: 0 <= k < |lines| ==> lines[k] != "" && !IsSpace(lines[k][0])
  {
    var src := SplitLines(text);
    var stripped := LStripEach(src);
    var lines := NonEmpty(stripped);
    forall k | 0 <= k < |stripped| ensures NoLineBreak(stripped[k]) && (stripped[k] == [] || !IsSpace(stripped[k][0])) {
      LStripLine(src[k]);
    }
    forall k | 0 <= k < |lines| ensures lines[k] != "" && NoLineBreak(lines[k]) && !IsSpace(lines[k][0]) {
      NonEmptyMember(stripped, lines[k]);
    }
    SplitLinesJoin(lines);
  }

  /** A line without line breaks and without whitespace at either end. */
  predicate TrimmedLine(l: string) {
    NoLineBreak(l) && (l == [] || (!IsSpace(l[0]) && !IsSpace(l[|l| - 1])))
  }

  /** Stripping turns a line of `splitlines` into a trimmed line. */
  lemma {:induction false} StripEachTrimmed(src: seq<string>)
    requires forall k :: 0 <= k < |src| ==> NoLineBreak(src[k])
    ensures forall k :: 0 <= k < |StripEach(src)| ==> TrimmedLine(StripEach(src)[k])
  {
    forall k | 0 <= k < |src| ensures TrimmedLine(StripEach(src)[k]) {
      StripLine(src[k]);
    }
  }

  /**
    The lines of the list_rtrim output are the non-empty stripped input lines
    in their original order; each is non-empty with no whitespace at either end.
   */
  lemma {:induction false} ListRightSpec(text: string)
    ensures var lines := NonEmpty(StripEach(SplitLines(text)));
      && SplitLines(ListRight(text)) == lines
      && forall k :: 0 <= k < |lines| ==> lines[k] != "" && TrimmedLine(lines[k])
  {
    var src := SplitLines(text);
    var stripped := StripEach(src);
    var lines := NonEmpty(stripped);
    StripEachTrimmed(src);
    forall k | 0 <= k < |lines| ensures lines[k] != "" && TrimmedLine(lines[k]) {
      NonEmptyMember(stripped, lines[k]);
    }
    SplitLinesJoin(lines);
  }

  /**
    directive_list_and: the non-empty stripped lines, all but the last joined
    with ", ", then " and " and the last; the result is stripped.
   */
  function ListAnd(text: string): string {
    var lines := NonEmpty(StripEach(SplitLines(text)));
    var last := if lines != [] then lines[|lines| - 1] else "";
    var init := if lines != [] then lines[..|lines| - 1] else [];
    var joined := Join(init, ", ");
    Strip(if joined == "" then last else joined + " and " + last)
  }

  /** A join of non-empty parts starts with the first part's first character. */
  lemma {:induction false} JoinStart(parts: seq<string>, sep: string)
    requires parts != [] && parts[0] != []
    ensures Join(parts, sep) != [] && Join(parts, sep)[0] == parts[0][0]
  {
  }

  /** list_and: "" for no line, the line itself for one, and `a, b and c` for several. */
  lemma {:induction false} ListAndSpec(text: string)
    ensures var lines := NonEmpty(StripEach(SplitLines(text))); var n := |lines|; var r := ListAnd(text);
      && (n == 0 ==> r == "")
      && (n == 1 ==> r == lines[0])
      && (n >= 2 ==> r == Join(lines[..n - 1], ", ") + " and " + lines[n - 1])
  {
    var src := SplitLines(text);
    var lines := NonEmpty(StripEach(src));
    assert forall k :: 0 <= k < |src| ==> NoLineBreak(src[k]);
    StrippedLines(src);
    if |lines| == 1 {
      StripNoop(lines[0]);
    } else if |lines| >= 2 {
      ListAndStripped(lines);
    }
  }

  /** A non-empty text without whitespace at either end. */
  predicate TrimmedItem(l: string) {
    l != "" && !IsSpace(l[0]) && !IsSpace(l[|l| - 1])
  }

  /** The kept lines are non-empty and have no whitespace at either end. */
  lemma {:induction false} StrippedLines(src: seq<string>)
    requires forall k :: 0 <= k < |src| ==> NoLineBreak(src[k])
    ensures forall k :: 0 <= k < |NonEmpty(StripEach(src))| ==> TrimmedItem(NonEmpty(StripEach(src))[k])
  {
    var stripped := StripEach(src);
    var lines := NonEmpty(stripped);
    forall k | 0 <= k < |lines| ensures TrimmedItem(lines[k])
    {
      NonEmptyMember(stripped, lines[k]);
      var j :| 0 <= j < |stripped| && stripped[j] == lines[k];
      StripLine(src[j]);
    }
  }

  /** Several such lines joined as `a, b and c` begin and end without whitespace, so stripping keeps them. */
  lemma {:induction false} ListAndStripped(lines: seq<string>)
    requires |lines| >= 2
    requires forall k :: 0 <= k < |lines| ==> TrimmedItem(lines[k])
    ensures var n := |lines|; var out := Join(lines[..n - 1], ", ") + " and " + lines[n - 1];
      Join(lines[..n - 1], ", ") != "" && Strip(out) == out
  {
    var n := |lines|;
    var init := lines[..n - 1];
    JoinStart(init, ", ");
    var out := Join(init, ", ") + " and " + lines[n - 1];
    assert out[0] == lines[0][0];
    assert out[|out| - 1] == lines[n - 1][|lines[n - 1]| - 1];
    StripNoop(out);
  }

  /** Non-empty lines are all kept. */
  lemma {:induction false} NonEmptyAll(lines: seq<string>)
    requires forall k :: 0 <= k < |lines| ==> lines[k] != ""
    ensures NonEmpty(lines) == lines
    decreases |lines|
  {
    if lines != [] {
      NonEmptyAll(lines[1..]);
      assert lines == [lines[0]] + lines[1..];
    }
  }

  /** Three lines that `splitlines` returns and stripping keeps are listed as `a, b and c`. */
  lemma {:induction false} ListAndOfLines(text: string, a: string, b: string, c: string)
    requires a != "" && b != "" && c != ""
    requires SplitLines(text) == [a, b, c]
    requires StripEach([a, b, c]) == [a, b, c]
    ensures ListAnd(text) == a + ", " + b + " and " + c
  {
    NonEmptyAll([a, b, c]);
    ListAndSpec(text);
    assert [a, b, c][..2] == [a, b];
    JoinCons(a, [b], ", ");
  }

  lemma {:induction false} JoinThreeLines(a: string, b: string, c: string)
    ensures Join([a, b, c], "\n") == a + "\n" + b + "\n" + c
  {
    var lines := [a, b, c];
    assert lines[1..] == [b, c] && lines[1..][1..] == [c];
    JoinCons(b, [c], "\n");
    JoinCons(a, [b, c], "\n");
  }

  /** Stripping leaves trimmed lines as they are. */
  lemma {:induction false} StripEachThree(a: string, b: string, c: string)
    requires TrimmedLine(a) && TrimmedLine(b) && TrimmedLine(c)
    ensures StripEach([a, b, c]) == [a, b, c]
  {
    StripNoop(a);
    StripNoop(b);
    StripNoop(c);
  }

  /** Three trimmed non-empty lines `a`, `b`, `c` become `a, b and c`. */
  lemma {:induction false} ListAndThree(a: string, b: string, c: string)
    requires a != "" && b != "" && c != ""
    requires TrimmedLine(a) && TrimmedLine(b) && TrimmedLine(c)
    ensures ListAnd(a + "\n" + b + "\n" + c) == a + ", " + b + " and " + c
  {
    var text := Join([a, b, c], "\n");
    SplitLinesJoin([a, b, c]);
    StripEachThree(a, b, c);
    ListAndOfLines(text, a, b, c);
    JoinThreeLines(a, b, c);
  }

  // ---------------------------------------------------------------------
  // sentence_case, trim
  // ---------------------------------------------------------------------

  predicate IsSentenceEnd(c: char) { c == '.' || c == '!' || c == '?' }

  /** Matcher for `([.!?]\s+)(\w)`: a sentence end, a whitespace run, and the word character after it. */
  function SentenceAt(s: string): nat {
    if |s| >= 2 && IsSentenceEnd(s[0]) && IsSpace(s[1]) then
      var j := Regex.RunEnd(s, 1, IsSpace);
      if j < |s| && IsWordChar(s[j]) then j + 1 else 0
    else 0
  }

  /** The replacement `group(1) + group(2).upper()`: the match with its last character upper-cased. */
  function Capitalize(m: string): string {
    if m == [] then m else m[..|m| - 1] + [UpperChar(m[|m| - 1])]
  }

  /**
    sentence_case: strip, upper-case the first character, then upper-case
    every word character that follows a sentence end and whitespace.
   */
  function SentenceCase(s: string): string {
    var t := Strip(s);
    if t == [] then t
    else Regex.Sub(SentenceAt, [UpperChar(t[0])] + t[1..], Capitalize)
  }

  /** Position `j` of `u` holds a word character preceded by a sentence end and at least one whitespace character. */
  ghost predicate SentenceStart(u: string, j: int) {
    0 <= j < |u| && IsWordChar(u[j])
    && exists i :: 0 <= i < j - 1 && IsSentenceEnd(u[i]) && forall k :: i < k < j ==> IsSpace(u[k])
  }

  /** Whether a position starts a sentence is unaffected by a removed prefix that cannot open one reaching it. */
  lemma {:induction false} ShiftStart(u: string, m: nat, j: nat)
    requires 0 < m <= j < |u|
    requires IsWordChar(u[j]) ==>
      forall i :: 0 <= i < m && i < j - 1 ==> !(IsSentenceEnd(u[i]) && forall k :: i < k < j ==> IsSpace(u[k]))
    ensures SentenceStart(u, j) <==> SentenceStart(u[m..], j - m)
  {
    var v := u[m..];
    if SentenceStart(u, j) {
      var i :| 0 <= i < j - 1 && IsSentenceEnd(u[i]) && forall k :: i < k < j ==> IsSpace(u[k]);
      assert i >= m;
      assert v[i - m] == u[i];
      forall k | i - m < k < j - m ensures IsSpace(v[k]) { assert v[k] == u[k + m]; }
      assert v[j - m] == u[j];
    }
    if SentenceStart(v, j - m) {
      var i :| 0 <= i < j - m - 1 && IsSentenceEnd(v[i]) && forall k :: i < k < j - m ==> IsSpace(v[k]);
      assert v[i] == u[i + m];
      forall k | i + m < k < j ensures IsSpace(u[k]) { assert u[k] == v[k - m]; }
      assert v[j - m] == u[j];
    }
  }

  lemma {:induction false} SpaceNotWord(c: char)
    requires IsSpace(c)
    ensures !IsWordChar(c) && !IsSentenceEnd(c)
  {
  }

  /** `r` is `u` with exactly its sentence-starting word characters upper-cased. */
  ghost predicate SentencesCapitalized(u: string, r: string) {
    |r| == |u| && forall j :: 0 <= j < |u| ==> r[j] == if SentenceStart(u, j) then UpperChar(u[j]) else u[j]
  }

  /** What a match at the start of `u` contributes, followed by the rest. */
  lemma {:induction false} SentenceMatchStep(u: string, t: string)
    requires Regex.MatchesAt(SentenceAt, u)
    requires SentencesCapitalized(u[SentenceAt(u)..], t)
    ensures SentencesCapitalized(u, Capitalize(u[..SentenceAt(u)]) + t)
  {
    var m := SentenceAt(u);
    var rest := u[m..];
    var r := Capitalize(u[..m]) + t;
    assert forall k :: 1 <= k < m - 1 ==> IsSpace(u[k]);
    assert IsWordChar(u[m - 1]) && !IsSpace(u[m - 1]) && !IsSentenceEnd(u[m - 1]);
    forall j | 0 <= j < |u| ensures r[j] == if SentenceStart(u, j) then UpperChar(u[j]) else u[j] {
      if j < m - 1 {
        assert r[j] == u[j];
        if 1 <= j { SpaceNotWord(u[j]); }
        assert !SentenceStart(u, j);
      } else if j == m - 1 {
        assert r[j] == UpperChar(u[j]);
        assert SentenceStart(u, j) by {
          assert 0 < j - 1 && IsSentenceEnd(u[0]) && forall k :: 0 < k < j ==> IsSpace(u[k]);
        }
      } else {
        assert r[j] == t[j - m] && rest[j - m] == u[j];
        ShiftStart(u, m, j);
      }
    }
  }

  /** A character that starts no match is kept, followed by the rest. */
  lemma {:induction false} SentencePlainStep(u: string, t: string)
    requires u != [] && !Regex.MatchesAt(SentenceAt, u)
    requires SentencesCapitalized(u[1..], t)
    ensures SentencesCapitalized(u, [u[0]] + t)
  {
    var r := [u[0]] + t;
    forall j | 0 <= j < |u| ensures r[j] == if SentenceStart(u, j) then UpperChar(u[j]) else u[j] {
      if j > 0 {
        assert r[j] == t[j - 1] && u[1..][j - 1] == u[j];
        if IsWordChar(u[j]) && 0 < j - 1 && IsSentenceEnd(u[0]) && forall k :: 0 < k < j ==> IsSpace(u[k]) {
          Regex.RunEndIs(u, 1, IsSpace, j);
          assert false;
        }
        ShiftStart(u, 1, j);
      }
    }
  }

  /** The substitution upper-cases exactly the word characters that start a sentence. */
  lemma {:induction false} SubSentences(u: string)
    ensures SentencesCapitalized(u, Regex.Sub(SentenceAt, u, Capitalize))
    decreases |u|
  {
    if u != [] {
      if Regex.MatchesAt(SentenceAt, u) {
        SubSentences(u[SentenceAt(u)..]);
        SentenceMatchStep(u, Regex.Sub(SentenceAt, u[SentenceAt(u)..], Capitalize));
      } else {
        SubSentences(u[1..]);
        SentencePlainStep(u, Regex.Sub(SentenceAt, u[1..], Capitalize));
      }
    }
  }

  /** Upper-casing the first character does not change which later positions start a sentence. */
  lemma {:induction false} SentenceStartFirst(t: string, j: nat)
    requires 0 < j < |t|
    ensures SentenceStart([UpperChar(t[0])] + t[1..], j) <==> SentenceStart(t, j)
  {
    var u := [UpperChar(t[0])] + t[1..];
    assert forall k :: 0 < k < |t| ==> u[k] == t[k];
    assert IsSentenceEnd(u[0]) <==> IsSentenceEnd(t[0]);
    if SentenceStart(u, j) {
      var i :| 0 <= i < j - 1 && IsSentenceEnd(u[i]) && forall k :: i < k < j ==> IsSpace(u[k]);
      assert IsSentenceEnd(t[i]) && forall k :: i < k < j ==> IsSpace(t[k]);
    }
    if SentenceStart(t, j) {
      var i :| 0 <= i < j - 1 && IsSentenceEnd(t[i]) && forall k :: i < k < j ==> IsSpace(t[k]);
      assert IsSentenceEnd(u[i]) && forall k :: i < k < j ==> IsSpace(u[k]);
    }
  }

  /**
    sentence_case: empty (after stripping) gives ""; otherwise the result is
    the stripped text, of the same length, with its first character and
    every sentence-starting word character upper-cased, and it is stripped.
   */
  lemma {:induction false} SentenceCaseSpec(s: string)
    ensures var t := Strip(s); var r := SentenceCase(s);
      && (t == [] ==> r == [])
      && (t != [] ==>
        && |r| == |t|
        && r[0] == UpperChar(t[0])
        && (forall j :: 0 < j < |t| ==> r[j] == if SentenceStart(t, j) then UpperChar(t[j]) else t[j])
        && Strip(r) == r)
  {
    var t := Strip(s);
    if t != [] {
      var u := [UpperChar(t[0])] + t[1..];
      var r := SentenceCase(s);
      SubSentences(u);
      StripSpec(s);
      assert !SentenceStart(u, 0);
      forall j | 0 < j < |t| ensures SentenceStart(u, j) <==> SentenceStart(t, j) {
        SentenceStartFirst(t, j);
      }
      assert !IsSpace(r[0]);
      assert !IsSpace(r[|r| - 1]);
      StripNoop(r);
    }
  }

  /** directive_trim is `str.strip`: it removes the surrounding whitespace and nothing else, and is idempotent. */
  lemma {:induction false} TrimSpec(s: string)
    ensures var r := Strip(s);
      && (r == [] || (!IsSpace(r[0]) && !IsSpace(r[|r| - 1])))
      && Strip(r) == r
      && (s == [] || (!IsSpace(s[0]) && !IsSpace(s[|s| - 1])) ==> r == s)
  {
    StripSpec(s);
    StripIdempotent(s);
    if s == [] || (!IsSpace(s[0]) && !IsSpace(s[|s| - 1])) { StripNoop(s); }
  }
}
