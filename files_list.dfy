/** FilesList._make_pattern: what the user typed as an extension, made a glob pattern. */
module FilesList {
  import opened Strings

  /** Characters that make the input a glob pattern already. */
  predicate IsWildcard(c: char) { c == '*' || c == '?' || c == '[' }

  predicate HasWildcard(s: string) { HasChar(s, '*') || HasChar(s, '?') || HasChar(s, '[') }

  /** `_make_pattern` */
  function MakePattern(ext: string): (r: string)
    ensures r != ""
    ensures HasWildcard(Strip(ext)) ==> r == Strip(ext)
  {
    var e := Strip(ext);
    if e == "" then "*"
    else if HasWildcard(e) then e
    else if StartsWith(e, ".") then "*" + e
    else "*." + e
  }

  /** The pattern always holds a wildcard, so it is never taken for a file name. */
  lemma {:induction false} PatternIsWildcard(ext: string)
    ensures HasWildcard(MakePattern(ext))
  {
    var e := Strip(ext);
    var r := MakePattern(ext);
    if !HasWildcard(e) {
      assert r[0] == '*';
    }
  }

  /** A pattern is `*` exactly for a blank input or a bare `*`. */
  lemma {:induction false} StarOnly(ext: string)
    ensures MakePattern(ext) == "*" <==> Strip(ext) == "" || Strip(ext) == "*"
  {
    var e := Strip(ext);
    if e == "*" {
      assert e[0] == '*';
    }
  }

  /**
    A non-blank input is the tail of its pattern; one without a wildcard
    becomes `*.` followed by the extension without its leading dot.
   */
  lemma {:induction false} PatternOfExtension(ext: string)
    requires Strip(ext) != ""
    ensures var e := Strip(ext); var r := MakePattern(ext);
      |e| <= |r| && r[|r| - |e|..] == e
    ensures var e := Strip(ext);
      !HasWildcard(e) ==> MakePattern(ext) == "*." + (if e[0] == '.' then e[1..] else e)
  {
    var e := Strip(ext);
    if !HasWildcard(e) && StartsWith(e, ".") {
      assert e == "." + e[1..];
    }
  }

  /** A pattern is its own pattern: normalising twice changes nothing. */
  lemma {:induction false} MakePatternIdempotent(ext: string)
    ensures MakePattern(MakePattern(ext)) == MakePattern(ext)
  {
    var e := Strip(ext);
    var r := MakePattern(ext);
    StripSpec(ext);
    if e == "" {
      assert r == "*" && r[0] == '*';
      StripNoop(r);
    } else if HasWildcard(e) {
      StripIdempotent(ext);
    } else {
      assert r[0] == '*';
      PatternOfExtension(ext);
      assert r[|r| - 1] == e[|e| - 1];
      StripNoop(r);
    }
  }

  /** The documented examples. */
  lemma {:induction false} MakePatternExamples()
    ensures MakePattern("png") == "*.png"
    ensures MakePattern(".jpg") == "*.jpg"
    ensures MakePattern("*.txt") == "*.txt"
    ensures MakePattern("*.*") == "*.*"
    ensures MakePattern("  ") == "*"
  {
    StripNoop("png");
    StripNoop(".jpg");
    StripNoop("*.txt");
    assert HasChar("*.txt", '*');
    StripNoop("*.*");
    assert HasChar("*.*", '*');
  }
}
