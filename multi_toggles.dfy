/**
  MultiToggles.select_active_toggles: the decoded list of selected labels
  joined by a delimiter, with an optional word put before the last label.
 */
module MultiToggles {
  import opened Wrappers
  import opened Strings

  /** The delimiter with the typed escapes `\\n` and then `\n` turned into newlines. */
  function NormalizeDelimiter(d: string): string {
    Replace(Replace(d, "\\\\n", "\n"), "\\n", "\n")
  }

  /** The join rule: with a last word and two or more labels, the word stands between the last two. */
  function SelectedString(selected: seq<string>, lastWord: string, delimiter: string): string {
    if lastWord != "" && |selected| > 1 then
      Join(selected[..|selected| - 1], delimiter) + " " + lastWord + " " + selected[|selected| - 1]
    else Join(selected, delimiter)
  }

  /**
    select_active_toggles: `selected` is the decoded JSON list (None when
    it is absent, which decodes to `[]`, or when it does not parse);
    `lastWord` and `delimiter` are None when not given.
   */
  function SelectActiveToggles(selected: Option<seq<string>>, lastWord: Option<string>, delimiter: Option<string>)
    : (r: (seq<string>, string))
    ensures r.0 == (if selected.Some? then selected.value else [])
  {
    var list := if selected.Some? then selected.value else [];
    var d := NormalizeDelimiter(if delimiter.Some? then delimiter.value else ", ");
    var w := if lastWord.Some? then lastWord.value else "";
    (list, SelectedString(list, w, d))
  }

  /** No backslash-n is left in a normalised delimiter. */
  lemma {:induction false} NormalizedHasNoEscape(d: string)
    ensures !Contains(NormalizeDelimiter(d), "\\n")
  {
    var once := Replace(d, "\\\\n", "\n");
    var parts := Split(once, "\\n");
    assert "\\n" == ['\\', 'n'] && "\n" == ['\n'];
    SplitPiecesFree(once, "\\n");
    forall k | 0 <= k < |parts| ensures NoPair(parts[k], '\\', 'n') {
      NoPairContains(parts[k], '\\', 'n');
    }
    JoinNoPair(parts, '\\', 'n', '\n');
    NoPairContains(NormalizeDelimiter(d), '\\', 'n');
  }

  /** A delimiter without a backslash is used as given. */
  lemma {:induction false} PlainDelimiter(d: string)
    requires !HasChar(d, '\\')
    ensures NormalizeDelimiter(d) == d
  {
    NoBackslashUnchanged(d, "\\\\n");
    NoBackslashUnchanged(d, "\\n");
  }

  /** Replacing a pattern that starts with a backslash leaves a string without backslashes as it is. */
  lemma {:induction false} NoBackslashUnchanged(d: string, pat: string)
    requires pat != [] && pat[0] == '\\' && !HasChar(d, '\\')
    ensures Replace(d, pat, "\n") == d
  {
    forall j | 0 <= j <= |d| ensures !OccursAt(d, pat, j) {
      if j + |pat| <= |d| {
        assert d[j..j + |pat|][0] == d[j];
      }
    }
    SplitAbsent(d, pat);
  }

  /** The typed two-character escape becomes a newline, and so does its escaped three-character form. */
  lemma {:induction false} EscapedNewline()
    ensures NormalizeDelimiter("\\n") == "\n"
    ensures NormalizeDelimiter("\\\\n") == "\n"
  {
    EscapedBackslashNewline();
    var d := "\\n";
    assert !Contains(d, "\\\\n");
    SplitAbsent(d, "\\\\n");
    assert Replace(d, "\\\\n", "\n") == d;
    IndexOfIs(d, "\\n", 0);
    assert d[2..] == "";
    assert Split(d, "\\n") == ["", ""];
  }

  lemma {:induction false} EscapedBackslashNewline()
    ensures NormalizeDelimiter("\\\\n") == "\n"
  {
    var d := "\\\\n";
    IndexOfIs(d, "\\\\n", 0);
    assert d[3..] == "";
    assert Split(d, "\\\\n") == ["", ""];
    assert Replace(d, "\\\\n", "\n") == "\n";
    assert !HasChar("\n", '\\');
    NoBackslashUnchanged("\n", "\\n");
  }

  /** With no label or one label the result is "" or that label, whatever the last word. */
  lemma {:induction false} FewLabels(selected: seq<string>, lastWord: string, delimiter: string)
    requires |selected| <= 1
    ensures SelectedString(selected, lastWord, delimiter) == (if selected == [] then "" else selected[0])
  {
  }

  /** Two or more labels and a last word: the leading labels joined, then the word and the last label. */
  lemma {:induction false} LastWordJoin(init: seq<string>, last: string, lastWord: string, delimiter: string)
    requires init != [] && lastWord != ""
    ensures SelectedString(init + [last], lastWord, delimiter) == Join(init, delimiter) + " " + lastWord + " " + last
  {
    assert (init + [last])[..|init|] == init;
  }

  /** Without a last word, a one-character delimiter that no label contains can be split off again. */
  lemma {:induction false} PlainJoinSplits(selected: seq<string>, c: char)
    requires selected != []
    requires forall k :: 0 <= k < |selected| ==> !HasChar(selected[k], c)
    ensures Split(SelectedString(selected, "", [c]), [c]) == selected
  {
    SplitJoinChar(selected, c);
  }

  /** The defaults: nothing selected gives "", and an absent delimiter is ", ". */
  lemma {:induction false} Defaults(selected: Option<seq<string>>, lastWord: Option<string>)
    ensures selected.None? ==> SelectActiveToggles(selected, lastWord, None).1 == ""
    ensures lastWord.None? && selected.Some? ==> SelectActiveToggles(selected, lastWord, None).1 == Join(selected.value, ", ")
  {
    PlainDelimiter(", ");
  }
}
