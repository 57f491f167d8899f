/** Option type shared by all modules. */
module Wrappers {
  datatype Option<+T> = None | Some(value: T)
}

/**
  Python `str` operations used by the nodes, restricted to the ASCII
  behaviour of the interpreter (whitespace, case mapping and line breaks
  outside ASCII are not modelled).
 */
module Strings {
  import opened Wrappers

  /** `str.isspace` on ASCII characters. */
  predicate IsSpace(c: char) {
    c == ' ' || c == '\t' || c == '\n' || c == '\r' || c == '\U{0B}' || c == '\U{0C}'
    || ('\U{1C}' <= c <= '\U{1F}')
  }

  predicate IsUpperAscii(c: char) { 'A' <= c <= 'Z' }
  predicate IsLowerAscii(c: char) { 'a' <= c <= 'z' }
  predicate IsLetter(c: char) { IsUpperAscii(c) || IsLowerAscii(c) }
  predicate IsDigit(c: char) { '0' <= c <= '9' }

  predicate IsBrace(c: char) { c == '{' || c == '}' }

  /** The regular-expression class `[^{}]`. */
  predicate NotBrace(c: char) { !IsBrace(c) }

  /** The regular-expression class `\w` on ASCII. */
  predicate IsWordChar(c: char) { IsLetter(c) || IsDigit(c) || c == '_' }

  function LowerChar(c: char): (r: char)
    ensures IsUpperAscii(c) ==> IsLowerAscii(r)
    ensures !IsUpperAscii(c) ==> r == c
  {
    if IsUpperAscii(c) then (c as int + 32) as char else c
  }

  function UpperChar(c: char): (r: char)
    ensures IsLowerAscii(c) ==> IsUpperAscii(r)
    ensures !IsLowerAscii(c) ==> r == c
  {
    if IsLowerAscii(c) then (c as int - 32) as char else c
  }

  /** `str.lower` */
  function Lower(s: string): (r: string)
    ensures |r| == |s| && forall i :: 0 <= i < |s| ==> r[i] == LowerChar(s[i])
  {
    seq(|s|, i requires 0 <= i < |s| => LowerChar(s[i]))
  }

  /** `str.upper` */
  function Upper(s: string): (r: string)
    ensures |r| == |s| && forall i :: 0 <= i < |s| ==> r[i] == UpperChar(s[i])
  {
    seq(|s|, i requires 0 <= i < |s| => UpperChar(s[i]))
  }

  predicate AllSatisfy(s: string, p: char -> bool) {
    forall i :: 0 <= i < |s| ==> p(s[i])
  }

  /** `str.lstrip(chars)`, the stripped characters given by `drop`. */
  function LStripBy(s: string, drop: char -> bool): string
    decreases |s|
  {
    if s != [] && drop(s[0]) then LStripBy(s[1..], drop) else s
  }

  /** `str.rstrip(chars)` */
  function RStripBy(s: string, drop: char -> bool): string
    decreases |s|
  {
    if s != [] && drop(s[|s| - 1]) then RStripBy(s[..|s| - 1], drop) else s
  }

  /** `lstrip` removes the longest prefix of dropped characters. */
  lemma {:induction false} LStripBySpec(s: string, drop: char -> bool)
    ensures var r := LStripBy(s, drop);
      && |r| <= |s| && r == s[|s| - |r|..]
      && AllSatisfy(s[..|s| - |r|], drop)
      && (r == [] || !drop(r[0]))
    decreases |s|
  {
    if s != [] && drop(s[0]) {
      LStripBySpec(s[1..], drop);
      var r := LStripBy(s, drop);
      var t := s[1..];
      assert r == t[|t| - |r|..];
      assert t[|t| - |r|..] == s[|s| - |r|..];
      forall i | 0 <= i < |s| - |r| ensures drop(s[i]) {
        if i > 0 { assert s[i] == t[..|t| - |r|][i - 1]; }
      }
    }
  }

  /** `rstrip` removes the longest suffix of dropped characters. */
  lemma {:induction false} RStripBySpec(s: string, drop: char -> bool)
    ensures var r := RStripBy(s, drop);
      && |r| <= |s| && r == s[..|r|]
      && AllSatisfy(s[|r|..], drop)
      && (r == [] || !drop(r[|r| - 1]))
    decreases |s|
  {
    if s != [] && drop(s[|s| - 1]) {
      var t := s[..|s| - 1];
      RStripBySpec(t, drop);
      var r := RStripBy(s, drop);
      assert r == t[..|r|];
      forall i | |r| <= i < |s| ensures drop(s[i]) {
        if i < |s| - 1 { assert s[i] == t[|r|..][i - |r|]; }
      }
    }
  }

  /** `str.strip(chars)` */
  function StripBy(s: string, drop: char -> bool): (r: string)
  {
    RStripBy(LStripBy(s, drop), drop)
  }

  function LStrip(s: string): string { LStripBy(s, IsSpace) }
  function RStrip(s: string): string { RStripBy(s, IsSpace) }

  /** `str.strip()` */
  function Strip(s: string): string { StripBy(s, IsSpace) }

  /** The stripped string is `s` with a whitespace prefix and suffix removed. */
  lemma {:induction false} StripSpec(s: string)
    ensures var r := Strip(s);
      exists k :: 0 <= k <= |s| - |r| && r == s[k..k + |r|]
        && AllSatisfy(s[..k], IsSpace) && AllSatisfy(s[k + |r|..], IsSpace)
    ensures var r := Strip(s); r == [] || (!IsSpace(r[0]) && !IsSpace(r[|r| - 1]))
  {
    var l := LStrip(s);
    var r := Strip(s);
    LStripBySpec(s, IsSpace);
    RStripBySpec(l, IsSpace);
    var k := |s| - |l|;
    assert r == l[..|r|];
    assert s[k..k + |r|] == r;
    assert s[k + |r|..] == l[|r|..];
    if r != [] {
      assert r[0] == l[0];
    }
  }

  /** Where the stripped text starts inside the original. */
  lemma {:induction false} StripSlice(s: string) returns (k: nat)
    ensures k + |Strip(s)| <= |s| && Strip(s) == s[k..k + |Strip(s)|]
  {
    var l := LStrip(s);
    LStripBySpec(s, IsSpace);
    RStripBySpec(l, IsSpace);
    k := |s| - |l|;
    assert Strip(s) == l[..|Strip(s)|];
  }

  /** `strip(chars)` keeps one contiguous slice of its input. */
  lemma {:induction false} StripBySliceAt(s: string, drop: char -> bool) returns (k: nat)
    ensures k + |StripBy(s, drop)| <= |s| && StripBy(s, drop) == s[k..k + |StripBy(s, drop)|]
  {
    var l := LStripBy(s, drop);
    LStripBySpec(s, drop);
    RStripBySpec(l, drop);
    k := |s| - |l|;
    assert StripBy(s, drop) == l[..|StripBy(s, drop)|];
  }

  /** A string without surrounding whitespace is its own strip. */
  lemma {:induction false} StripNoop(s: string)
    requires s == [] || (!IsSpace(s[0]) && !IsSpace(s[|s| - 1]))
    ensures Strip(s) == s
  {
  }

  /** `Strip` is idempotent. */
  lemma {:induction false} StripIdempotent(s: string)
    ensures Strip(Strip(s)) == Strip(s)
  {
    StripSpec(s);
    StripNoop(Strip(s));
  }

  /** `sub` occurs in `s` at index `i`. */
  predicate OccursAt(s: string, sub: string, i: nat) {
    i + |sub| <= |s| && s[i..i + |sub|] == sub
  }

  /** `str.find`: the leftmost occurrence of `sub` in `s`. */
  function IndexOf(s: string, sub: string): (r: Option<nat>)
    ensures r.Some? ==> (OccursAt(s, sub, r.value)
      && forall j :: 0 <= j < r.value ==> !OccursAt(s, sub, j))
    ensures r.None? ==> forall j :: 0 <= j <= |s| ==> !OccursAt(s, sub, j)
    decreases |s|
  {
    if |s| < |sub| then None
    else if s[..|sub|] == sub then Some(0)
    else
      OccursShift(s, sub);
      match IndexOf(s[1..], sub)
      case None => None
      case Some(i) => Some(i + 1)
  }

  /** An occurrence past the first character is an occurrence in the tail. */
  lemma {:induction false} OccursShift(s: string, sub: string)
    requires s != []
    ensures forall j :: 0 < j <= |s| ==> (OccursAt(s, sub, j) <==> OccursAt(s[1..], sub, j - 1))
  {
    forall j | 0 < j <= |s| ensures OccursAt(s, sub, j) <==> OccursAt(s[1..], sub, j - 1) {
      if j + |sub| <= |s| {
        var t := s[1..];
        var k: nat := j - 1;
        assert t[k..k + |sub|] == s[j..j + |sub|];
      }
    }
  }

  /** The leftmost occurrence is the one with no occurrence before it. */
  lemma {:induction false} IndexOfIs(s: string, sub: string, p: nat)
    requires OccursAt(s, sub, p) && forall j :: 0 <= j < p ==> !OccursAt(s, sub, j)
    ensures IndexOf(s, sub) == Some(p)
  {
  }

  /** An occurrence inside the left part of a concatenation is one of that part. */
  lemma {:induction false} OccursInPrefix(x: string, y: string, sub: string, i: nat)
    requires i + |sub| <= |x|
    ensures OccursAt(x + y, sub, i) <==> OccursAt(x, sub, i)
  {
    assert (x + y)[i..i + |sub|] == x[i..i + |sub|];
  }

  /** `sub in s` */
  predicate Contains(s: string, sub: string) {
    IndexOf(s, sub).Some?
  }

  /** `s.startswith(p)` */
  predicate StartsWith(s: string, p: string) {
    |p| <= |s| && s[..|p|] == p
  }

  /** `sep.join(parts)` */
  function Join(parts: seq<string>, sep: string): string
    decreases |parts|
  {
    if parts == [] then ""
    else if |parts| == 1 then parts[0]
    else parts[0] + sep + Join(parts[1..], sep)
  }

  /** `s.split(sep)` for a non-empty separator: cut at every leftmost, non-overlapping occurrence. */
  function Split(s: string, sep: string): (r: seq<string>)
    requires sep != []
    ensures |r| >= 1
    decreases |s|
  {
    match IndexOf(s, sep)
    case None => [s]
    case Some(i) => [s[..i]] + Split(s[i + |sep|..], sep)
  }

  /** Joining a part in front of a non-empty list of parts. */
  lemma {:induction false} JoinCons(a: string, rest: seq<string>, sep: string)
    requires rest != []
    ensures Join([a] + rest, sep) == a + sep + Join(rest, sep)
  {
    assert ([a] + rest)[1..] == rest;
  }

  /** Splitting and joining again gives back the string. */
  lemma {:induction false} JoinSplit(s: string, sep: string)
    requires sep != []
    ensures Join(Split(s, sep), sep) == s
    decreases |s|
  {
    var m := IndexOf(s, sep);
    if m.Some? {
      var i := m.value;
      var rest := s[i + |sep|..];
      calc {
        Join(Split(s, sep), sep);
        Join([s[..i]] + Split(rest, sep), sep);
        { JoinCons(s[..i], Split(rest, sep), sep); }
        s[..i] + sep + Join(Split(rest, sep), sep);
        { JoinSplit(rest, sep); }
        s[..i] + sep + rest;
        { assert s[i..i + |sep|] == sep; assert s == s[..i] + s[i..i + |sep|] + rest; }
        s;
      }
    }
  }

  /** No piece of a split contains the separator. */
  lemma {:induction false} SplitPiecesFree(s: string, sep: string)
    requires sep != []
    ensures forall k :: 0 <= k < |Split(s, sep)| ==> !Contains(Split(s, sep)[k], sep)
    decreases |s|
  {
    match IndexOf(s, sep)
    case None =>
    case Some(i) =>
      var rest := s[i + |sep|..];
      SplitPiecesFree(rest, sep);
      var head := s[..i];
      if Contains(head, sep) {
        var j := IndexOf(head, sep).value;
        assert OccursAt(head, sep, j);
        assert j + |sep| <= |head|;
        assert forall t :: j <= t < j + |sep| ==> s[t] == head[t];
        assert s[j..j + |sep|] == head[j..j + |sep|];
        assert OccursAt(s, sep, j);
      }
  }

  /** A string without the separator splits into itself. */
  lemma {:induction false} SplitAbsent(s: string, sep: string)
    requires sep != [] && !Contains(s, sep)
    ensures Split(s, sep) == [s]
  {
  }

  /** The text before the first occurrence of `sep` (`s.split(sep, 1)[0]`). */
  function Before(s: string, sep: string): (r: string)
    ensures StartsWith(s, r)
  {
    match IndexOf(s, sep)
    case None => s
    case Some(i) => s[..i]
  }

  /** The text after the first occurrence of `sep` (`s.split(sep, 1)[1]`), or "" when absent. */
  function After(s: string, sep: string): string
  {
    match IndexOf(s, sep)
    case None => ""
    case Some(i) => s[i + |sep|..]
  }

  /** `s.split(sep, 1)` on a string that contains `sep` re-assembles to `s`. */
  lemma {:induction false} BeforeAfter(s: string, sep: string)
    requires sep != [] && Contains(s, sep)
    ensures Before(s, sep) + sep + After(s, sep) == s
    ensures !Contains(Before(s, sep), sep)
  {
    var i := IndexOf(s, sep).value;
    assert s == s[..i] + s[i..i + |sep|] + s[i + |sep|..];
    forall j | 0 <= j <= i ensures !OccursAt(s[..i], sep, j) {
      if j + |sep| <= i {
        assert !OccursAt(s, sep, j);
        assert s[..i][j..j + |sep|] == s[j..j + |sep|];
      }
    }
  }

  /** `c in s` for one character. */
  predicate HasChar(s: string, c: char) {
    exists i :: 0 <= i < |s| && s[i] == c
  }

  /** Concatenation is associative. */
  lemma {:induction false} ConcatAssoc(a: string, b: string, c: string)
    ensures a + b + c == a + (b + c)
  {
  }

  /** A character is in a concatenation exactly when it is in one of the parts. */
  lemma {:induction false} HasCharConcat(a: string, b: string, c: char)
    ensures HasChar(a + b, c) <==> HasChar(a, c) || HasChar(b, c)
  {
    if HasChar(a, c) {
      var i :| 0 <= i < |a| && a[i] == c;
      assert (a + b)[i] == c;
    }
    if HasChar(b, c) {
      var i :| 0 <= i < |b| && b[i] == c;
      assert (a + b)[|a| + i] == c;
    }
    if HasChar(a + b, c) {
      var i :| 0 <= i < |a + b| && (a + b)[i] == c;
      if i < |a| { assert a[i] == c; } else { assert b[i - |a|] == c; }
    }
  }

  /** `s.rfind(c)`: the last index of `c` in `s`. */
  function LastIndexOf(s: string, c: char): (r: Option<nat>)
    ensures r.Some? ==> (r.value < |s| && s[r.value] == c
      && forall j :: r.value < j < |s| ==> s[j] != c)
    ensures r.None? ==> forall j :: 0 <= j < |s| ==> s[j] != c
    decreases |s|
  {
    if s == [] then None
    else if s[|s| - 1] == c then Some(|s| - 1)
    else LastIndexOf(s[..|s| - 1], c)
  }

  /** `s.replace(pat, with)` for a non-empty `pat`. */
  function Replace(s: string, pat: string, with: string): string
    requires pat != []
  {
    Join(Split(s, pat), with)
  }

  predicate IsLineBreak(c: char) { c == '\n' || c == '\r' }

  /** The index of the first line break in `s`, or `|s|`. */
  function LineEnd(s: string): (i: nat)
    ensures i <= |s| && (i < |s| ==> IsLineBreak(s[i]))
    ensures forall j :: 0 <= j < i ==> !IsLineBreak(s[j])
    decreases |s|
  {
    if s == [] || IsLineBreak(s[0]) then 0 else 1 + LineEnd(s[1..])
  }

  /** `str.splitlines()` with `\n`, `\r` and `\r\n` as the line boundaries. */
  function SplitLines(s: string): (r: seq<string>)
    ensures forall k :: 0 <= k < |r| ==> forall j :: 0 <= j < |r[k]| ==> !IsLineBreak(r[k][j])
    decreases |s|
  {
    if s == [] then []
    else
      var i := LineEnd(s);
      if i == |s| then [s]
      else
        var brk := if s[i] == '\r' && i + 1 < |s| && s[i + 1] == '\n' then 2 else 1;
        [s[..i]] + SplitLines(s[i + brk..])
  }

  predicate NoLineBreak(s: string) {
    forall j :: 0 <= j < |s| ==> !IsLineBreak(s[j])
  }

  /** Joining with "\n" and splitting into lines again gives back lines without breaks whose last is non-empty. */
  lemma {:induction false} SplitLinesJoin(lines: seq<string>)
    requires forall k :: 0 <= k < |lines| ==> NoLineBreak(lines[k])
    requires lines != [] ==> lines[|lines| - 1] != []
    ensures SplitLines(Join(lines, "\n")) == lines
    decreases |lines|
  {
    if |lines| == 1 {
      assert LineEnd(lines[0]) == |lines[0]|;
    } else if |lines| > 1 {
      var s := Join(lines, "\n");
      var rest := Join(lines[1..], "\n");
      assert s == lines[0] + "\n" + rest;
      assert s[..|lines[0]|] == lines[0];
      LineEndAt(s, |lines[0]|);
      SplitLinesJoin(lines[1..]);
      assert s[|lines[0]| + 1..] == rest;
    }
  }

  lemma {:induction false} LineEndAt(s: string, i: nat)
    requires i < |s| && IsLineBreak(s[i]) && forall j :: 0 <= j < i ==> !IsLineBreak(s[j])
    ensures LineEnd(s) == i
  {
  }

  /** A join of two or more parts, or of one empty part, is empty only when it has one empty part. */
  lemma {:induction false} JoinEmpty(parts: seq<string>, sep: string)
    requires parts != [] && parts[|parts| - 1] != []
    ensures Join(parts, sep) != []
    decreases |parts|
  {
    if |parts| > 1 { JoinEmpty(parts[1..], sep); }
  }

  /** Splitting the join of parts without the separator on that one-character separator gives back the parts. */
  lemma {:induction false} SplitJoinChar(parts: seq<string>, c: char)
    requires parts != []
    requires forall k :: 0 <= k < |parts| ==> forall j :: 0 <= j < |parts[k]| ==> parts[k][j] != c
    ensures Split(Join(parts, [c]), [c]) == parts
    decreases |parts|
  {
    var s := Join(parts, [c]);
    if |parts| == 1 {
      forall j | 0 <= j <= |s| ensures !OccursAt(s, [c], j) {
        if j < |s| { assert s[j..j + 1] == [s[j]]; }
      }
    } else {
      var rest := Join(parts[1..], [c]);
      assert s == parts[0] + [c] + rest;
      assert s[|parts[0]|..|parts[0]| + 1] == [c];
      forall j | 0 <= j < |parts[0]| ensures !OccursAt(s, [c], j) {
        assert s[j..j + 1] == [parts[0][j]];
      }
      assert OccursAt(s, [c], |parts[0]|);
      IndexOfIs(s, [c], |parts[0]|);
      assert s[..|parts[0]|] == parts[0];
      assert s[|parts[0]| + 1..] == rest;
      SplitJoinChar(parts[1..], c);
    }
  }

  /** A join of parts without `c`, with a separator other than `c`, has no `c`. */
  lemma {:induction false} JoinNoChar(parts: seq<string>, c: char, d: char)
    requires c != d
    requires forall k :: 0 <= k < |parts| ==> !HasChar(parts[k], c)
    ensures !HasChar(Join(parts, [d]), c)
    decreases |parts|
  {
    if |parts| > 1 {
      JoinNoChar(parts[1..], c, d);
      var rest := Join(parts[1..], [d]);
      var s := Join(parts, [d]);
      assert s == parts[0] + [d] + rest;
      forall j | 0 <= j < |s| ensures s[j] != c {
        if j < |parts[0]| { assert s[j] == parts[0][j]; }
        else if j > |parts[0]| { assert s[j] == rest[j - |parts[0]| - 1]; }
      }
    }
  }

  /** No `a` is directly followed by `b`. */
  predicate NoPair(s: string, a: char, b: char) {
    forall i :: 0 <= i < |s| - 1 ==> !(s[i] == a && s[i + 1] == b)
  }

  /** A slice of a string without the pair has none either. */
  lemma {:induction false} NoPairSlice(s: string, i: nat, j: nat, a: char, b: char)
    requires i <= j <= |s| && NoPair(s, a, b)
    ensures NoPair(s[i..j], a, b)
  {
    forall k | 0 <= k < j - i - 1 ensures !(s[i..j][k] == a && s[i..j][k + 1] == b) {
      assert s[i..j][k] == s[i + k] && s[i..j][k + 1] == s[i + k + 1];
    }
  }

  /** A two-character string occurs exactly where its characters stand side by side. */
  lemma {:induction false} NoPairContains(s: string, a: char, b: char)
    ensures NoPair(s, a, b) <==> !Contains(s, [a, b])
  {
    if !NoPair(s, a, b) {
      var i :| 0 <= i < |s| - 1 && s[i] == a && s[i + 1] == b;
      assert s[i..i + 2] == [a, b];
      assert OccursAt(s, [a, b], i);
    }
    if Contains(s, [a, b]) {
      var i := IndexOf(s, [a, b]).value;
      PairAt(s, a, b, i);
    }
  }

  /** Where the two-character string occurs, its characters stand at i and i + 1. */
  lemma {:induction false} PairAt(s: string, a: char, b: char, i: nat)
    requires OccursAt(s, [a, b], i)
    ensures i < |s| - 1 && s[i] == a && s[i + 1] == b
  {
    var w := s[i..i + 2];
    assert w[0] == s[i] && w[1] == s[i + 1];
  }

  /** Parts without the pair, joined by a character that is neither of its two, give a string without it. */
  lemma {:induction false} JoinNoPair(parts: seq<string>, a: char, b: char, d: char)
    requires d != a && d != b
    requires forall k :: 0 <= k < |parts| ==> NoPair(parts[k], a, b)
    ensures NoPair(Join(parts, [d]), a, b)
    decreases |parts|
  {
    if |parts| > 1 {
      JoinNoPair(parts[1..], a, b, d);
      var rest := Join(parts[1..], [d]);
      var s := Join(parts, [d]);
      var n := |parts[0]|;
      assert s == parts[0] + [d] + rest;
      forall i | 0 <= i < |s| - 1 ensures !(s[i] == a && s[i + 1] == b) {
        if i + 1 < n {
          assert s[i] == parts[0][i] && s[i + 1] == parts[0][i + 1];
        } else if i > n {
          assert s[i] == rest[i - n - 1] && s[i + 1] == rest[i - n];
        } else if i == n {
          assert s[i] == d;
        } else {
          assert s[i + 1] == d;
        }
      }
    }
  }

  /** A one-character string occurs exactly where that character does. */
  lemma {:induction false} ContainsChar(s: string, c: char)
    ensures Contains(s, [c]) <==> HasChar(s, c)
  {
    if HasChar(s, c) {
      var i :| 0 <= i < |s| && s[i] == c;
      assert s[i..i + 1] == [c];
      assert OccursAt(s, [c], i);
    }
    if Contains(s, [c]) {
      var i := IndexOf(s, [c]).value;
      assert s[i..i + 1] == [c];
      assert s[i] == c;
    }
  }

  /** Replacing every `c` by another character leaves no `c`. */
  lemma {:induction false} ReplaceCharFree(s: string, c: char, d: char)
    requires c != d
    ensures !HasChar(Replace(s, [c], [d]), c)
  {
    var parts := Split(s, [c]);
    SplitPiecesFree(s, [c]);
    forall k | 0 <= k < |parts| ensures !HasChar(parts[k], c) {
      ContainsChar(parts[k], c);
    }
    JoinNoChar(parts, c, d);
  }

  /** `s` with every `c` turned into `d`, character by character. */
  function MapChar(s: string, c: char, d: char): (r: string)
    ensures |r| == |s| && forall i :: 0 <= i < |s| ==> r[i] == (if s[i] == c then d else s[i])
  {
    seq(|s|, i requires 0 <= i < |s| => if s[i] == c then d else s[i])
  }

  /** Replacing a one-character pattern by one character rewrites exactly its occurrences. */
  lemma {:induction false} ReplaceChar(s: string, c: char, d: char)
    ensures Replace(s, [c], [d]) == MapChar(s, c, d)
    decreases |s|
  {
    match IndexOf(s, [c])
    case None =>
      assert Split(s, [c]) == [s];
      FirstChar(s, c, |s|);
      assert MapChar(s, c, d) == s;
    case Some(i) =>
      FirstChar(s, c, i);
      ReplaceChar(s[i + 1..], c, d);
      ReplaceCharCut(s, c, d, i);
      MapCharCut(s, c, d, i);
  }

  /** Before the first occurrence of a one-character pattern, the character does not appear. */
  lemma {:induction false} FirstChar(s: string, c: char, i: nat)
    requires IndexOf(s, [c]) == (if i == |s| then None else Some(i))
    ensures i <= |s| && (i < |s| ==> s[i] == c) && forall j :: 0 <= j < i ==> s[j] != c
  {
    if i < |s| { assert s[i..i + 1] == [c]; }
    forall j | 0 <= j < i ensures s[j] != c {
      assert !OccursAt(s, [c], j);
      assert s[j..j + 1] == [s[j]];
    }
  }

  /** Replace cuts at the first occurrence. */
  lemma {:induction false} ReplaceCharCut(s: string, c: char, d: char, i: nat)
    requires IndexOf(s, [c]) == Some(i)
    ensures i < |s| && Replace(s, [c], [d]) == s[..i] + [d] + Replace(s[i + 1..], [c], [d])
  {
    JoinCons(s[..i], Split(s[i + 1..], [c]), [d]);
  }

  /** MapChar cuts at an occurrence with none before it. */
  lemma {:induction false} MapCharCut(s: string, c: char, d: char, i: nat)
    requires i < |s| && s[i] == c && forall j :: 0 <= j < i ==> s[j] != c
    ensures MapChar(s, c, d) == s[..i] + [d] + MapChar(s[i + 1..], c, d)
  {
    var r := s[..i] + [d] + MapChar(s[i + 1..], c, d);
    assert forall k :: i < k < |s| ==> r[k] == MapChar(s[i + 1..], c, d)[k - i - 1];
  }
}
