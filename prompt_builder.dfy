/**
  SimplePromptBuilder.build_prompt: a prompt template is compiled against a
  context of widget values in a fixed pipeline (comments, the `[%vars%]`
  and `[%extra%]` blocks, toggle tags, placeholders, the activity gates and
  the formatting directives).
 */
module PromptBuilder {
  import opened Wrappers
  import opened Strings
  import opened Utilities
  import Directives
  import Regex

  // ---------------------------------------------------------------------
  // Context values
  // ---------------------------------------------------------------------

  /** A decoded widget value or keyword input: a boolean or a string. */
  datatype Value = Bool(b: bool) | Str(s: string)

  /** `str(value)`: Python renders the booleans as `True` and `False`. */
  function Render(v: Value): string {
    match v
    case Bool(b) => if b then "True" else "False"
    case Str(s) => s
  }

  /** _to_bool: a boolean as it is; anything else by its lower-cased rendering. */
  function ToBool(v: Value): bool {
    match v
    case Bool(b) => b
    case Str(s) => Lower(s) in {"true", "1", "yes", "+"}
  }

  /** Truthiness agrees with the rendering: a value and its `str` are equally true. */
  lemma {:induction false} ToBoolRender(v: Value)
    ensures ToBool(v) == ToBool(Str(Render(v)))
    ensures ToBool(Str("True")) && ToBool(Str("yes")) && ToBool(Str("+")) && ToBool(Str("1"))
    ensures !ToBool(Str("")) && !ToBool(Str("False")) && !ToBool(Str("0"))
  {
    assert Lower("True") == "true";
    assert Lower("False") == "false";
    assert Lower("yes") == "yes" && Lower("+") == "+" && Lower("1") == "1";
    assert Lower("0") == "0";
  }

  /** `d.get(key, default)` */
  function Get(ctx: map<string, Value>, key: string, default: Value): Value {
    if key in ctx then ctx[key] else default
  }

  // ---------------------------------------------------------------------
  // Bracketed blocks `[%name%]…[%name%]` / `[%name%]…[%/name%]`
  // ---------------------------------------------------------------------

  /** The first index `i >= k` at which `a` or `b` occurs in `s`. */
  function CloserFrom(s: string, k: nat, a: string, b: string): (r: Option<nat>)
    requires k <= |s|
    ensures r.Some? ==> k <= r.value <= |s| && (OccursAt(s, a, r.value) || OccursAt(s, b, r.value))
    ensures r.Some? ==> forall i :: k <= i < r.value ==> !OccursAt(s, a, i) && !OccursAt(s, b, i)
    ensures r.None? ==> forall i :: k <= i <= |s| ==> !OccursAt(s, a, i) && !OccursAt(s, b, i)
    decreases |s| - k
  {
    if OccursAt(s, a, k) || OccursAt(s, b, k) then Some(k)
    else if k == |s| then None
    else CloserFrom(s, k + 1, a, b)
  }

  /** The first occurrence from `k` on is the one found. */
  lemma {:induction false} CloserFromIs(s: string, k: nat, a: string, b: string, m: nat)
    requires k <= m <= |s| && (OccursAt(s, a, m) || OccursAt(s, b, m))
    requires forall i :: k <= i < m ==> !OccursAt(s, a, i) && !OccursAt(s, b, i)
    ensures CloserFrom(s, k, a, b).Some? && CloserFrom(s, k, a, b).value == m
  {
  }

  function BlockOpen(name: string): string { "[%" + name + "%]" }
  function BlockClose(name: string): string { "[%/" + name + "%]" }

  /** The index where the block opened at the start of `s` closes, if it does. */
  function BlockCloser(name: string, s: string): Option<nat> {
    if OccursAt(s, BlockOpen(name), 0) then CloserFrom(s, |BlockOpen(name)|, BlockOpen(name), BlockClose(name))
    else None
  }

  /** Matcher for `\[%name%\]([\s\S]*?)\[%/?name%\]`: the length of the block at the start of `s`, or 0. */
  function BlockAt(name: string, s: string): (n: nat)
    ensures n <= |s|
  {
    match BlockCloser(name, s)
    case Some(i) => i + (if OccursAt(s, BlockOpen(name), i) then |BlockOpen(name)| else |BlockClose(name)|)
    case None => 0
  }

  function VarsAt(s: string): nat { BlockAt("vars", s) }
  function ExtraAt(s: string): nat { BlockAt("extra", s) }

  /** The body of the block `name` at the start of `rest`. */
  function BlockBody(name: string, rest: string): string {
    match BlockCloser(name, rest)
    case Some(i) => rest[|BlockOpen(name)|..i]
    case None => ""
  }

  /**
    The first block of pattern `at` (the block `name`) searched in `text`: its
    body, or "" without a block, and the text with the whole block cut out.
   */
  function SplitBlock(name: string, at: string -> nat, text: string): (string, string) {
    match Regex.Search(at, text)
    case None => ("", text)
    case Some(p) =>
      Regex.SearchSpec(at, text);
      (BlockBody(name, text[p..]), text[..p] + text[p + at(text[p..])..])
  }

  /** The text with its first `[%vars%]` block cut out; the block's content is ignored. */
  function RemoveVars(text: string): string {
    SplitBlock("vars", VarsAt, text).1
  }

  /** The body of the first `[%extra%]` block (or "") and the text with that block cut out. */
  function SplitExtra(text: string): (string, string) {
    SplitBlock("extra", ExtraAt, text)
  }

  /** The closing tag: `[%/name%]`, or the opening tag again. */
  function Closer(name: string, slash: bool): string {
    if slash then BlockClose(name) else BlockOpen(name)
  }

  /** Neither `a` nor `b` starts inside `body` when `close` follows it. */
  ghost predicate FreeOf(body: string, close: string, a: string, b: string) {
    forall i :: 0 <= i < |body| ==> !OccursAt(body + close, a, i) && !OccursAt(body + close, b, i)
  }

  /** Neither tag of the block `name` starts inside `body` (followed by its closer). */
  ghost predicate NoCloserIn(name: string, body: string, slash: bool) {
    FreeOf(body, Closer(name, slash), BlockOpen(name), BlockClose(name))
  }

  /** An occurrence inside the middle part of a three-part text is one of that part. */
  lemma {:induction false} OccursInside(o: string, m: string, post: string, sub: string, j: nat)
    requires j + |sub| <= |m|
    ensures OccursAt(o + m + post, sub, |o| + j) <==> OccursAt(m, sub, j)
  {
    assert (o + m + post)[|o| + j..|o| + j + |sub|] == m[j..j + |sub|];
  }

  /** Inside a body free of `a` and `b`, neither occurs in the whole text. */
  lemma {:induction false} FreeInside(o: string, body: string, close: string, post: string, a: string, b: string)
    requires |a| <= |close| + 1 && |b| <= |close| + 1
    requires FreeOf(body, close, a, b)
    ensures forall i :: |o| <= i < |o| + |body| ==>
      !OccursAt(o + (body + close) + post, a, i) && !OccursAt(o + (body + close) + post, b, i)
  {
    forall i | |o| <= i < |o| + |body|
      ensures !OccursAt(o + (body + close) + post, a, i) && !OccursAt(o + (body + close) + post, b, i)
    {
      OccursInside(o, body + close, post, a, i - |o|);
      OccursInside(o, body + close, post, b, i - |o|);
    }
  }

  /** A lazy body ends at the first closer: the closer right after a body free of both closers. */
  lemma {:induction false} CloserAfterBody(o: string, body: string, close: string, post: string, a: string, b: string)
    requires close == a || close == b
    requires |a| <= |close| + 1 && |b| <= |close| + 1
    requires FreeOf(body, close, a, b)
    ensures var r := CloserFrom(o + body + close + post, |o|, a, b); r.Some? && r.value == |o| + |body|
  {
    var s := o + body + close + post;
    assert s == o + (body + close) + post;
    FreeInside(o, body, close, post, a, b);
    ClosedAt(o, body, close, post);
    CloserFromIs(s, |o|, a, b, |o| + |body|);
  }

  /** The closer follows the body. */
  lemma {:induction false} ClosedAt(o: string, body: string, close: string, post: string)
    ensures OccursAt(o + body + close + post, close, |o| + |body|)
  {
    BlockSlices(o, body, close, post);
    var s := o + body + close + post;
    assert s[|o| + |body|..|o| + |body| + |close|] == close;
  }

  /** The closer of a block is found right after its body. */
  lemma {:induction false} BlockCloserAfterBody(name: string, body: string, slash: bool, post: string)
    requires NoCloserIn(name, body, slash)
    ensures var r := BlockCloser(name, BlockOpen(name) + body + Closer(name, slash) + post);
      r.Some? && r.value == |BlockOpen(name)| + |body|
  {
    var o, c, close := BlockOpen(name), BlockClose(name), Closer(name, slash);
    var rest := body + close + post;
    assert o + body + close + post == o + rest;
    assert |o| == |name| + 4 && |c| == |name| + 5;
    assert FreeOf(body, close, o, c);
    OccursInPrefix(o, rest, o, 0);
    assert o[0..|o|] == o;
    CloserAfterBody(o, body, close, post, o, c);
  }

  /** A block with its body and closer, followed by anything, is matched up to its closer. */
  lemma {:induction false} BlockMatch(name: string, body: string, slash: bool, post: string)
    requires (name == [] || name[0] != '/')
    requires NoCloserIn(name, body, slash)
    ensures BlockAt(name, BlockOpen(name) + body + Closer(name, slash) + post)
      == |BlockOpen(name)| + |body| + |Closer(name, slash)|
  {
    var o, close := BlockOpen(name), Closer(name, slash);
    var s := o + body + close + post;
    var k := |o| + |body|;
    BlockCloserAfterBody(name, body, slash, post);
    if slash {
      assert s[k..k + |o|][2] == s[k + 2] == close[2] == '/';
      if name == [] { assert o[2] == '%'; } else { assert o[2] == name[0]; }
    } else {
      assert s[k..k + |o|] == o;
    }
  }

  /** The first block is found after the prefix, its body extracted and the rest rejoined. */
  lemma {:induction false} SplitBlockOf(name: string, at: string -> nat, pre: string, body: string, slash: bool, post: string)
    requires (name == [] || name[0] != '/') && NoCloserIn(name, body, slash)
    requires var rest := BlockOpen(name) + body + Closer(name, slash) + post;
      at(rest) == BlockAt(name, rest) && Regex.NoMatchBefore(at, pre, rest)
    ensures var text := pre + (BlockOpen(name) + body + Closer(name, slash) + post);
      SplitBlock(name, at, text).0 == body && SplitBlock(name, at, text).1 == pre + post
  {
    var o, close := BlockOpen(name), Closer(name, slash);
    var rest := o + body + close + post;
    var n := |o| + |body| + |close|;
    assert at(rest) == n by {
      BlockMatch(name, body, slash, post);
    }
    assert BlockBody(name, rest) == body by {
      BlockCloserAfterBody(name, body, slash, post);
      BlockSlices(o, body, close, post);
      BlockBodyIs(name, rest, |o| + |body|);
    }
    assert rest[n..] == post by {
      BlockSlices(o, body, close, post);
    }
    Regex.SearchAfter(at, pre, rest);
    SplitBlockAt(name, at, pre, rest);
  }

  /** SplitBlock where the search finds the block right after `pre`. */
  lemma {:induction false} SplitBlockAt(name: string, at: string -> nat, pre: string, rest: string)
    requires Regex.Search(at, pre + rest).Some? && Regex.Search(at, pre + rest).value == |pre|
    ensures Regex.MatchesAt(at, rest)
    ensures SplitBlock(name, at, pre + rest).0 == BlockBody(name, rest)
    ensures SplitBlock(name, at, pre + rest).1 == pre + rest[at(rest)..]
  {
    var text := pre + rest;
    ConcatSlices(pre, rest, 0);
    assert Regex.MatchesAt(at, rest) by { Regex.SearchSpec(at, text); }
    SplitBlockIs(name, at, text, |pre|, rest);
    ConcatSlices(pre, rest, at(rest));
  }

  /** SplitBlock in terms of where the search finds the block. */
  lemma {:induction false} SplitBlockIs(name: string, at: string -> nat, text: string, p: nat, rest: string)
    requires Regex.Search(at, text).Some? && Regex.Search(at, text).value == p && text[p..] == rest && Regex.MatchesAt(at, rest)
    ensures SplitBlock(name, at, text).0 == BlockBody(name, rest)
    ensures SplitBlock(name, at, text).1 == text[..p] + text[p + at(rest)..]
  {
  }

  /** The slices of a concatenation at and after the seam. */
  lemma {:induction false} ConcatSlices(pre: string, rest: string, n: nat)
    requires n <= |rest|
    ensures (pre + rest)[..|pre|] == pre && (pre + rest)[|pre|..] == rest && (pre + rest)[|pre| + n..] == rest[n..]
  {
    assert (pre + rest)[|pre|..] == rest;
  }

  /** The body of a block runs from its opener to where its closer is found. */
  lemma {:induction false} BlockBodyIs(name: string, rest: string, i: nat)
    requires BlockCloser(name, rest).Some? && BlockCloser(name, rest).value == i
    ensures BlockBody(name, rest) == rest[|BlockOpen(name)|..i]
  {
  }

  /** Cutting out the first `[%vars%]` block leaves what surrounds it. */
  lemma {:induction false} RemoveVarsBlock(pre: string, body: string, slash: bool, post: string)
    requires NoCloserIn("vars", body, slash)
    requires Regex.NoMatchBefore(VarsAt, pre, BlockOpen("vars") + body + Closer("vars", slash) + post)
    ensures RemoveVars(pre + (BlockOpen("vars") + body + Closer("vars", slash) + post)) == pre + post
  {
    SplitBlockOf("vars", VarsAt, pre, body, slash, post);
  }

  /** Without a `[%vars%]` block the text is kept. */
  lemma {:induction false} RemoveVarsNone(text: string)
    requires Regex.NoMatch(VarsAt, text)
    ensures RemoveVars(text) == text
  {
    Regex.SearchSpec(VarsAt, text);
  }

  /** The first `[%extra%]` block's body is extracted and the block is cut out of the main text. */
  lemma {:induction false} SplitExtraBlock(pre: string, body: string, slash: bool, post: string)
    requires NoCloserIn("extra", body, slash)
    requires Regex.NoMatchBefore(ExtraAt, pre, BlockOpen("extra") + body + Closer("extra", slash) + post)
    ensures var text := pre + (BlockOpen("extra") + body + Closer("extra", slash) + post);
      SplitExtra(text).0 == body && SplitExtra(text).1 == pre + post
  {
    SplitBlockOf("extra", ExtraAt, pre, body, slash, post);
  }

  /** Without a `[%extra%]` block there is no extra text and the main text is kept. */
  lemma {:induction false} SplitExtraNone(text: string)
    requires Regex.NoMatch(ExtraAt, text)
    ensures SplitExtra(text).0 == "" && SplitExtra(text).1 == text
  {
    Regex.SearchSpec(ExtraAt, text);
  }

  // ---------------------------------------------------------------------
  // Toggle tags `[[TAG]]…[[/TAG]]`, `[[TAG:GROUP]]…[[TAG]]`
  // ---------------------------------------------------------------------

  /** `[^\]:/\[]`, the characters of a tag name. */
  predicate TagNameChar(c: char) { c != ']' && c != ':' && c != '/' && c != '[' }
  /** `[^]\[]`, the characters of a group name. */
  predicate GroupChar(c: char) { c != ']' && c != '[' }

  /** One match of the toggle pattern: the raw tag name, the body's bounds and the end of the closer. */
  datatype Toggle = Toggle(name: string, bodyStart: nat, bodyEnd: nat, end: nat)

  function SlashCloser(name: string): string { "[[/" + name + "]]" }
  function PlainCloser(name: string): string { "[[" + name + "]]" }

  /**
    The opening tag at the start of `s`: the raw name and where the body
    starts. The name is the maximal run of name characters (a shorter one
    would be followed by a name character, where the pattern needs `:` or
    `]`), the group likewise the maximal run of group characters.
   */
  function ToggleHeaderOf(s: string): (r: Option<(string, nat)>)
    ensures r.Some? ==> 4 < r.value.1 <= |s|
  {
    if !OccursAt(s, "[[", 0) then None
    else
      var e := Regex.RunEnd(s, 2, TagNameChar);
      var h := if e < |s| && s[e] == ':' then Regex.RunEnd(s, e + 1, GroupChar) else e;
      if e == 2 || h == e + 1 || !OccursAt(s, "]]", h) then None
      else Some((s[2..e], h + 2))
  }

  /** The lazy body from `k` on: it ends at the first `[[/name]]` or `[[name]]`; the match ends after that closer. */
  function ToggleBodyOf(s: string, name: string, k: nat): (r: Option<(nat, nat)>)
    requires k <= |s|
    ensures r.Some? ==> k <= r.value.0 < r.value.1 <= |s|
  {
    match CloserFrom(s, k, SlashCloser(name), PlainCloser(name))
    case None => None
    case Some(j) =>
      if OccursAt(s, SlashCloser(name), j) then Some((j, j + |SlashCloser(name)|))
      else Some((j, j + |PlainCloser(name)|))
  }

  /** The toggle pattern at the start of `s`. */
  function ToggleMatch(s: string): (r: Option<Toggle>)
    ensures r.Some? ==> 4 < r.value.bodyStart <= r.value.bodyEnd < r.value.end <= |s|
  {
    match ToggleHeaderOf(s)
    case None => None
    case Some(hd) =>
      match ToggleBodyOf(s, hd.0, hd.1)
      case None => None
      case Some(be) => Some(Toggle(hd.0, hd.1, be.0, be.1))
  }

  /** Length of the toggle block at the start of `s`, or 0. */
  function ToggleAt(s: string): nat {
    match ToggleMatch(s)
    case Some(t) => t.end
    case None => 0
  }

  /** The context value of a tag, `True` when absent, read as a boolean. */
  function Enabled(ctx: map<string, Value>, tag: string): bool {
    ToBool(Get(ctx, tag, Bool(true)))
  }

  /** apply_tag_toggles' `repl`: the body when the stripped tag is enabled, else nothing. */
  function ToggleRepl(ctx: map<string, Value>): string -> string {
    s =>
      match ToggleMatch(s)
      case Some(t) => if Enabled(ctx, Strip(t.name)) then s[t.bodyStart..t.bodyEnd] else ""
      case None => ""
  }

  /** apply_tag_toggles: one left-to-right pass; kept bodies are not scanned again. */
  function Toggles(text: string, ctx: map<string, Value>): string {
    Regex.SubWith(ToggleAt, text, ToggleRepl(ctx))
  }

  /** A well-formed tag name: non-empty, of name characters only. */
  predicate TagName(name: string) {
    name != [] && forall i :: 0 <= i < |name| ==> TagNameChar(name[i])
  }

  /** The optional `:GROUP` part of an opening tag. */
  predicate GroupPart(g: string) {
    g == [] || (|g| >= 2 && g[0] == ':' && forall i :: 1 <= i < |g| ==> GroupChar(g[i]))
  }

  function ToggleOpen(name: string, group: string): string { "[[" + name + group + "]]" }
  function ToggleClose(name: string, slash: bool): string { if slash then SlashCloser(name) else PlainCloser(name) }

  /** The parts of an opening tag followed by anything. */
  lemma {:induction false} OpenParts(name: string, group: string, rest: string)
    ensures var s, e := ToggleOpen(name, group) + rest, 2 + |name|;
      && |s| >= e + |group| + 2
      && s[..2] == "[[" && s[2..e] == name && s[e..e + |group|] == group
      && s[e + |group|..e + |group| + 2] == "]]"
  {
    var s := ToggleOpen(name, group) + rest;
    assert s == "[[" + name + group + "]]" + rest;
  }

  /** A run of name characters ended by `:` or `]` is the whole name. */
  lemma {:induction false} NameRun(s: string, name: string)
    requires TagName(name) && 2 + |name| < |s| && s[2..2 + |name|] == name
    requires s[2 + |name|] == ':' || s[2 + |name|] == ']'
    ensures Regex.RunEnd(s, 2, TagNameChar) == 2 + |name|
  {
    forall i | 2 <= i < 2 + |name| ensures TagNameChar(s[i]) {
      assert s[i] == s[2..2 + |name|][i - 2];
    }
    Regex.RunEndIs(s, 2, TagNameChar, 2 + |name|);
  }

  /** A run of group characters ended by `]` is the whole group. */
  lemma {:induction false} GroupRun(s: string, e: nat, group: string)
    requires GroupPart(group) && group != [] && e + |group| < |s| && s[e..e + |group|] == group
    requires s[e + |group|] == ']'
    ensures Regex.RunEnd(s, e + 1, GroupChar) == e + |group|
  {
    forall i | e + 1 <= i < e + |group| ensures GroupChar(s[i]) {
      assert s[i] == s[e..e + |group|][i - e];
    }
    Regex.RunEndIs(s, e + 1, GroupChar, e + |group|);
  }

  /** An opening tag is read back as its name, with the body starting right after it. */
  lemma {:induction false} ToggleHeader(name: string, group: string, rest: string)
    requires TagName(name) && GroupPart(group)
    ensures var r := ToggleHeaderOf(ToggleOpen(name, group) + rest);
      r.Some? && r.value.0 == name && r.value.1 == |ToggleOpen(name, group)|
  {
    var s := ToggleOpen(name, group) + rest;
    var e := 2 + |name|;
    OpenParts(name, group, rest);
    assert s[e] == if group == [] then ']' else ':' by {
      if group == [] { assert s[e] == s[e..e + 2][0]; } else { assert s[e] == s[e..e + |group|][0]; }
    }
    assert s[e + |group|] == s[e + |group|..e + |group| + 2][0];
    assert s[e + |group| + 1] == s[e + |group|..e + |group| + 2][1];
    NameRun(s, name);
    if group != [] {
      GroupRun(s, e, group);
    }
    ToggleHeaderIs(s, name, e, e + |group|);
  }

  /** The opening tag read from its parts. */
  lemma {:induction false} ToggleHeaderIs(s: string, name: string, e: nat, h: nat)
    requires 2 < e < |s| && s[..2] == "[[" && s[2..e] == name
    requires Regex.RunEnd(s, 2, TagNameChar) == e
    requires (if s[e] == ':' then Regex.RunEnd(s, e + 1, GroupChar) else e) == h != e + 1
    requires h + 2 <= |s| && s[h] == ']' && s[h + 1] == ']'
    ensures ToggleHeaderOf(s).Some? && ToggleHeaderOf(s).value.0 == name && ToggleHeaderOf(s).value.1 == h + 2
  {
    assert s[h..h + 2] == "]]";
  }

  /** The two closers differ in their third character, `/` against the name's first. */
  lemma {:induction false} ClosersDiffer(name: string, s: string, j: nat)
    requires TagName(name) && OccursAt(s, PlainCloser(name), j)
    ensures !OccursAt(s, SlashCloser(name), j)
  {
    assert s[j + 2] == PlainCloser(name)[2] == name[0] != '/';
    assert SlashCloser(name)[2] == '/';
  }

  /** The body read from where its closer is found. */
  lemma {:induction false} ToggleBodyIs(s: string, name: string, slash: bool, k: nat, j: nat)
    requires TagName(name) && k <= |s|
    requires var r := CloserFrom(s, k, SlashCloser(name), PlainCloser(name)); r.Some? && r.value == j
    requires OccursAt(s, ToggleClose(name, slash), j)
    ensures var r := ToggleBodyOf(s, name, k); r.Some? && r.value.0 == j && r.value.1 == j + |ToggleClose(name, slash)|
  {
    if !slash {
      ClosersDiffer(name, s, j);
    }
  }

  /** The body ends at the closer right after it when it holds neither closer. */
  lemma {:induction false} ToggleBody(o: string, name: string, body: string, slash: bool, post: string)
    requires TagName(name)
    requires FreeOf(body, ToggleClose(name, slash), SlashCloser(name), PlainCloser(name))
    ensures var c := ToggleClose(name, slash);
      var r := ToggleBodyOf(o + body + c + post, name, |o|);
      r.Some? && r.value.0 == |o| + |body| && r.value.1 == |o| + |body| + |c|
  {
    var c := ToggleClose(name, slash);
    var s := o + body + c + post;
    assert |SlashCloser(name)| == |name| + 5 && |PlainCloser(name)| == |name| + 4;
    CloserAfterBody(o, body, c, post, SlashCloser(name), PlainCloser(name));
    BlockSlices(o, body, c, post);
    assert s[|o| + |body|..|o| + |body| + |c|] == c;
    ToggleBodyIs(s, name, slash, |o|, |o| + |body|);
  }

  /** The match is assembled from the opening tag and the body. */
  lemma {:induction false} ToggleMatchOf(s: string, name: string, k: nat, j: nat, e: nat)
    requires ToggleHeaderOf(s).Some? && ToggleHeaderOf(s).value.0 == name && ToggleHeaderOf(s).value.1 == k
    requires ToggleBodyOf(s, name, k).Some? && ToggleBodyOf(s, name, k).value.0 == j && ToggleBodyOf(s, name, k).value.1 == e
    ensures var r := ToggleMatch(s);
      r.Some? && r.value.name == name && r.value.bodyStart == k && r.value.bodyEnd == j && r.value.end == e
  {
  }

  /** A toggle block is matched with its name, its body and its closer. */
  lemma {:induction false} ToggleMatchBlock(name: string, group: string, body: string, slash: bool, post: string)
    requires TagName(name) && GroupPart(group)
    requires FreeOf(body, ToggleClose(name, slash), SlashCloser(name), PlainCloser(name))
    ensures var o, c := ToggleOpen(name, group), ToggleClose(name, slash);
      var r := ToggleMatch(o + body + c + post);
      && r.Some? && r.value.name == name && r.value.bodyStart == |o|
      && r.value.bodyEnd == |o| + |body| && r.value.end == |o| + |body| + |c|
  {
    var o, c := ToggleOpen(name, group), ToggleClose(name, slash);
    var rest := body + c + post;
    var s := o + body + c + post;
    assert s == o + rest;
    ToggleHeader(name, group, rest);
    ToggleBody(o, name, body, slash, post);
    ToggleMatchOf(s, name, |o|, |o| + |body|, |o| + |body| + |c|);
  }

  /**
    A toggle block after a prefix in which none starts: the prefix is kept,
    the block becomes its body when the stripped tag is enabled (any group
    is ignored) and nothing otherwise, and the scan goes on after the closer.
   */
  lemma {:induction false} ToggleBlock(pre: string, name: string, group: string, body: string, slash: bool, post: string,
                    ctx: map<string, Value>)
    requires TagName(name) && GroupPart(group)
    requires FreeOf(body, ToggleClose(name, slash), SlashCloser(name), PlainCloser(name))
    requires Regex.NoMatchBefore(ToggleAt, pre, ToggleOpen(name, group) + body + ToggleClose(name, slash) + post)
    ensures Toggles(pre + (ToggleOpen(name, group) + body + ToggleClose(name, slash) + post), ctx)
      == pre + (if Enabled(ctx, Strip(name)) then body else "") + Toggles(post, ctx)
  {
    var o, c := ToggleOpen(name, group), ToggleClose(name, slash);
    var rest := o + body + c + post;
    var out := if Enabled(ctx, Strip(name)) then body else "";
    ToggleMatchBlock(name, group, body, slash, post);
    ToggleReplOf(ctx, rest, name, |o|, |o| + |body|, |o| + |body| + |c|);
    BlockSlices(o, body, c, post);
    Regex.SubWithBlock(ToggleAt, ToggleRepl(ctx), pre, rest, out, post);
  }

  /** What `repl` returns for a match, and where the match ends. */
  lemma {:induction false} ToggleReplOf(ctx: map<string, Value>, rest: string, name: string, k: nat, j: nat, e: nat)
    requires var r := ToggleMatch(rest);
      r.Some? && r.value.name == name && r.value.bodyStart == k && r.value.bodyEnd == j && r.value.end == e
    ensures ToggleAt(rest) == e && k <= j <= |rest|
    ensures ToggleRepl(ctx)(rest) == if Enabled(ctx, Strip(name)) then rest[k..j] else ""
  {
  }

  /** The body and the suffix of a text made of an opener, a body, a closer and a suffix. */
  lemma {:induction false} BlockSlices(o: string, body: string, c: string, post: string)
    ensures var r := o + body + c + post;
      r[|o|..|o| + |body|] == body && r[|o| + |body| + |c|..] == post
  {
    var r := o + body + c + post;
    assert r == o + (body + c + post);
  }

  /** A text without `[` has no toggle tag and is kept. */
  lemma {:induction false} TogglesNoBracket(text: string, ctx: map<string, Value>)
    requires !HasChar(text, '[')
    ensures Toggles(text, ctx) == text
  {
    forall i | 0 <= i < |text| ensures !Regex.MatchesAt(ToggleAt, text[i..]) {
      assert text[i..][0] == text[i] != '[';
    }
    Regex.SubWithNoMatch(ToggleAt, text, ToggleRepl(ctx));
  }

  // ---------------------------------------------------------------------
  // Placeholders `{{N:T:V:EV}}`, `{{N}}` and `{{N:X}}`
  // ---------------------------------------------------------------------

  /** `[^:{}]`, the characters of a placeholder field. */
  predicate FieldChar(c: char) { c != ':' && c != '{' && c != '}' }

  /** A field of field characters only (possibly empty). */
  predicate FieldText(f: string) { forall i :: 0 <= i < |f| ==> FieldChar(f[i]) }

  /** `[^{}]*`, the last field of a typed placeholder, which may hold colons. */
  predicate LastField(f: string) { forall i :: 0 <= i < |f| ==> NotBrace(f[i]) }

  /** Where the field starting at `k` is followed by a colon: the index after the colon. */
  function ColonAfter(s: string, k: nat): (r: Option<nat>)
    requires k <= |s|
    ensures r.Some? ==> k < r.value <= |s|
  {
    var e := Regex.RunEnd(s, k, FieldChar);
    if e < |s| && s[e] == ':' then Some(e + 1) else None
  }

  /** Where the placeholder's name (non-empty) ends, right after `{{`. */
  function NameEnd(s: string): (r: Option<nat>)
    ensures r.Some? ==> 2 < r.value <= |s|
  {
    if !OccursAt(s, "{{", 0) then None
    else
      var e := Regex.RunEnd(s, 2, FieldChar);
      if e == 2 then None else Some(e)
  }

  /**
    Matcher for `\{\{([^:{}]+):([^:{}]*):([^:{}]*):([^{}]*)\}\}`. Each of the
    first three fields is the maximal run of field characters, since a shorter
    one would be followed by a field character where a colon is needed; the
    last field is the maximal run without braces, followed by `}}`.
   */
  function TypedAt(s: string): (n: nat)
    ensures n <= |s|
  {
    match NameEnd(s)
    case None => 0
    case Some(e) =>
      if e == |s| || s[e] != ':' then 0
      else
        match ColonAfter(s, e + 1)
        case None => 0
        case Some(c2) =>
          match ColonAfter(s, c2)
          case None => 0
          case Some(c3) =>
            var e4 := Regex.RunEnd(s, c3, NotBrace);
            if OccursAt(s, "}}", e4) then e4 + 2 else 0
  }

  /**
    Matcher for `\{\{([^:{}]+)(:[^:{}]+)?\}\}`: the name, then either `}}`
    or a colon, a non-empty field and `}}`.
   */
  function ShortAt(s: string): (n: nat)
    ensures n <= |s|
  {
    match NameEnd(s)
    case None => 0
    case Some(e) =>
      var h := if e < |s| && s[e] == ':' then Regex.RunEnd(s, e + 1, FieldChar) else e;
      if h == e + 1 || !OccursAt(s, "}}", h) then 0 else h + 2
  }

  /** `str(ctx.get(name, ""))` */
  function FieldValue(ctx: map<string, Value>, name: string): string {
    Render(Get(ctx, name, Str("")))
  }

  /** replace_placeholder: the value of group 1, the (unstripped) name. */
  function PlaceholderRepl(ctx: map<string, Value>): string -> string {
    s =>
      match NameEnd(s)
      case Some(e) => FieldValue(ctx, s[2..e])
      case None => ""
  }

  /** The typed pattern's pass, then the short pattern's pass over its result. */
  function Placeholders(text: string, ctx: map<string, Value>): string {
    Regex.SubWith(ShortAt, Regex.SubWith(TypedAt, text, PlaceholderRepl(ctx)), PlaceholderRepl(ctx))
  }

  /** A non-empty placeholder name. */
  predicate FieldName(n: string) { n != [] && FieldText(n) }

  /** A name after `{{` is read back up to the character that ends it. */
  lemma {:induction false} NameEndIs(s: string, name: string)
    requires FieldName(name) && 2 + |name| <= |s| && s[..2] == "{{" && s[2..2 + |name|] == name
    requires 2 + |name| < |s| ==> !FieldChar(s[2 + |name|])
    ensures NameEnd(s).Some? && NameEnd(s).value == 2 + |name|
  {
    forall i | 2 <= i < 2 + |name| ensures FieldChar(s[i]) {
      assert s[i] == s[2..2 + |name|][i - 2];
    }
    Regex.RunEndIs(s, 2, FieldChar, 2 + |name|);
  }

  /** A field followed by a colon is read back up to that colon. */
  lemma {:induction false} ColonAfterIs(s: string, k: nat, f: string)
    requires FieldText(f) && k + |f| < |s| && s[k..k + |f|] == f && s[k + |f|] == ':'
    ensures ColonAfter(s, k).Some? && ColonAfter(s, k).value == k + |f| + 1
  {
    forall i | k <= i < k + |f| ensures FieldChar(s[i]) {
      assert s[i] == s[k..k + |f|][i - k];
    }
    Regex.RunEndIs(s, k, FieldChar, k + |f|);
  }

  /** The replacement for a match is the value of its name. */
  lemma {:induction false} PlaceholderOf(name: string, ctx: map<string, Value>, s: string, e: nat)
    requires NameEnd(s).Some? && NameEnd(s).value == e && s[2..e] == name
    ensures PlaceholderRepl(ctx)(s) == FieldValue(ctx, name)
  {
  }

  function TypedPlaceholder(n: string, t: string, v: string, ev: string): string {
    "{{" + n + ":" + t + ":" + v + ":" + ev + "}}"
  }

  function ShortPlaceholder(n: string, opt: string): string {
    "{{" + n + opt + "}}"
  }

  /** The optional `:X` part of a short placeholder. */
  predicate OptPart(opt: string) {
    opt == [] || (opt[0] == ':' && FieldName(opt[1..]))
  }

  /** The typed matcher read from the positions of its parts. */
  lemma {:induction false} TypedAtIs(s: string, e: nat, c2: nat, c3: nat, e4: nat)
    requires NameEnd(s).Some? && NameEnd(s).value == e && e < |s| && s[e] == ':'
    requires ColonAfter(s, e + 1).Some? && ColonAfter(s, e + 1).value == c2
    requires ColonAfter(s, c2).Some? && ColonAfter(s, c2).value == c3
    requires Regex.RunEnd(s, c3, NotBrace) == e4 && OccursAt(s, "}}", e4)
    ensures TypedAt(s) == e4 + 2
  {
  }

  /** The positions of the parts of a typed placeholder followed by anything. */
  lemma {:induction false} TypedParts(n: string, t: string, v: string, ev: string, post: string)
    ensures var s := TypedPlaceholder(n, t, v, ev) + post;
      var e := 2 + |n|; var c2 := e + |t| + 2; var c3 := c2 + |v| + 1; var e4 := c3 + |ev|;
      && |s| == e4 + 2 + |post|
      && s[..2] == "{{" && s[2..e] == n && s[e] == ':'
      && s[e + 1..e + 1 + |t|] == t && s[e + 1 + |t|] == ':'
      && s[c2..c2 + |v|] == v && s[c2 + |v|] == ':'
      && s[c3..e4] == ev && s[e4] == '}' && s[e4 + 1] == '}'
      && s[e4 + 2..] == post
  {
    var s := TypedPlaceholder(n, t, v, ev) + post;
    assert s == "{{" + n + ":" + t + ":" + v + ":" + ev + "}}" + post;
  }

  /** A typed placeholder is matched whole, with its name as group 1. */
  lemma {:induction false} TypedMatch(n: string, t: string, v: string, ev: string, post: string)
    requires FieldName(n) && FieldText(t) && FieldText(v) && LastField(ev)
    ensures var s := TypedPlaceholder(n, t, v, ev) + post;
      TypedAt(s) == |TypedPlaceholder(n, t, v, ev)| && NameEnd(s).Some? && NameEnd(s).value == 2 + |n| && s[2..2 + |n|] == n
  {
    var s := TypedPlaceholder(n, t, v, ev) + post;
    var e := 2 + |n|; var c2 := e + |t| + 2; var c3 := c2 + |v| + 1; var e4 := c3 + |ev|;
    TypedParts(n, t, v, ev, post);
    NameEndIs(s, n);
    ColonAfterIs(s, e + 1, t);
    ColonAfterIs(s, c2, v);
    forall i | c3 <= i < e4 ensures NotBrace(s[i]) {
      assert s[i] == s[c3..e4][i - c3];
    }
    Regex.RunEndIs(s, c3, NotBrace, e4);
    assert s[e4..e4 + 2] == "}}";
    TypedAtIs(s, e, c2, c3, e4);
  }

  /** The short matcher read from the positions of its parts. */
  lemma {:induction false} ShortAtIs(s: string, e: nat, h: nat)
    requires NameEnd(s).Some? && NameEnd(s).value == e
    requires (if e < |s| && s[e] == ':' then Regex.RunEnd(s, e + 1, FieldChar) else e) == h != e + 1
    requires OccursAt(s, "}}", h)
    ensures ShortAt(s) == h + 2
  {
  }

  /** The positions of the parts of a short placeholder followed by anything. */
  lemma {:induction false} ShortParts(n: string, opt: string, post: string)
    ensures var s := ShortPlaceholder(n, opt) + post;
      var e := 2 + |n|; var h := e + |opt|;
      && |s| == h + 2 + |post|
      && s[..2] == "{{" && s[2..e] == n && s[e..h] == opt && s[h] == '}' && s[h + 1] == '}'
      && s[h + 2..] == post
  {
    var s := ShortPlaceholder(n, opt) + post;
    assert s == "{{" + n + opt + "}}" + post;
  }

  /** A short placeholder is matched whole, with its name as group 1. */
  lemma {:induction false} ShortMatch(n: string, opt: string, post: string)
    requires FieldName(n) && OptPart(opt)
    ensures var s := ShortPlaceholder(n, opt) + post;
      ShortAt(s) == |ShortPlaceholder(n, opt)| && NameEnd(s).Some? && NameEnd(s).value == 2 + |n| && s[2..2 + |n|] == n
  {
    var s := ShortPlaceholder(n, opt) + post;
    var e := 2 + |n|; var h := e + |opt|;
    ShortParts(n, opt, post);
    if opt == [] {
      NameEndIs(s, n);
    } else {
      assert s[e] == s[e..h][0] == ':';
      NameEndIs(s, n);
      forall i | e + 1 <= i < h ensures FieldChar(s[i]) {
        assert s[i] == s[e..h][i - e] == opt[1..][i - e - 1];
      }
      Regex.RunEndIs(s, e + 1, FieldChar, h);
    }
    assert s[h..h + 2] == "}}";
    ShortAtIs(s, e, h);
  }

  /** Text that does not open with `{{` holds no placeholder at its start. */
  lemma {:induction false} NoOpenAt(s: string)
    requires s == [] || s[0] != '{' || (|s| > 1 && s[1] != '{')
    ensures NameEnd(s) == None && TypedAt(s) == 0 && ShortAt(s) == 0
  {
    if |s| >= 2 { assert s[..2] != "{{" by { assert s[..2][0] == s[0] && s[..2][1] == s[1]; } }
  }

  /** The typed pattern does not match a short placeholder: its third colon is missing. */
  lemma {:induction false} TypedRejectsShort(n: string, opt: string, post: string)
    requires FieldName(n) && OptPart(opt)
    ensures TypedAt(ShortPlaceholder(n, opt) + post) == 0
  {
    var s := ShortPlaceholder(n, opt) + post;
    var e := 2 + |n|; var h := e + |opt|;
    ShortParts(n, opt, post);
    ShortMatch(n, opt, post);
    if opt != [] {
      assert s[e] == s[e..h][0] == ':';
      forall i | e + 1 <= i < h ensures FieldChar(s[i]) {
        assert s[i] == s[e..h][i - e] == opt[1..][i - e - 1];
      }
      Regex.RunEndIs(s, e + 1, FieldChar, h);
    } else {
      assert s[e] == '}';
    }
  }

  /** Only the first two characters of a short placeholder are opening braces. */
  lemma {:induction false} ShortBraces(n: string, opt: string)
    requires FieldName(n) && OptPart(opt)
    ensures var p := ShortPlaceholder(n, opt);
      |p| > 2 && p[0] == '{' && p[1] == '{' && forall j :: 2 <= j < |p| ==> p[j] != '{'
  {
    var p := ShortPlaceholder(n, opt);
    ShortParts(n, opt, []);
    assert p + [] == p;
    var e := 2 + |n|;
    forall j | 2 <= j < |p| ensures p[j] != '{' {
      if j < e { assert p[j] == p[2..e][j - 2]; }
      else if j < e + |opt| {
        assert p[j] == p[e..e + |opt|][j - e] == opt[j - e];
        if j > e { assert opt[j - e] == opt[1..][j - e - 1]; }
      }
    }
    assert p[0] == p[..2][0] && p[1] == p[..2][1];
  }

  /** No placeholder starts in a prefix without `{`. */
  lemma {:induction false} NoBraceBefore(pre: string, rest: string)
    requires !HasChar(pre, '{')
    ensures Regex.NoMatchBefore(TypedAt, pre, rest) && Regex.NoMatchBefore(ShortAt, pre, rest)
  {
    forall i | 0 <= i < |pre| ensures TypedAt((pre + rest)[i..]) == 0 && ShortAt((pre + rest)[i..]) == 0 {
      assert (pre + rest)[i..][0] == pre[i];
      NoOpenAt((pre + rest)[i..]);
    }
  }

  /** A text without `{` holds no placeholder. */
  lemma {:induction false} NoBraceNoMatch(t: string)
    requires !HasChar(t, '{')
    ensures Regex.NoMatch(TypedAt, t) && Regex.NoMatch(ShortAt, t)
  {
    NoBraceBefore(t, []);
    assert t + [] == t;
  }

  /** A text without `{` goes through both placeholder passes unchanged. */
  lemma {:induction false} PlaceholdersNoBrace(text: string, ctx: map<string, Value>)
    requires !HasChar(text, '{')
    ensures Placeholders(text, ctx) == text
  {
    NoBraceNoMatch(text);
    Regex.SubWithNoMatch(TypedAt, text, PlaceholderRepl(ctx));
    Regex.SubWithNoMatch(ShortAt, text, PlaceholderRepl(ctx));
  }

  /** The typed pass leaves a short placeholder between brace-free texts alone. */
  lemma {:induction false} TypedSkipsShort(pre: string, n: string, opt: string, post: string)
    requires FieldName(n) && OptPart(opt) && !HasChar(pre, '{') && !HasChar(post, '{')
    ensures Regex.NoMatch(TypedAt, pre + (ShortPlaceholder(n, opt) + post))
  {
    ShortBraces(n, opt);
    TypedRejectsShort(n, opt, post);
    NoTypedAround(pre, ShortPlaceholder(n, opt), post);
  }

  /** Around a text whose only braces open it, a placeholder can start only at its start. */
  lemma {:induction false} NoTypedAround(pre: string, p: string, post: string)
    requires !HasChar(pre, '{') && !HasChar(post, '{')
    requires |p| > 2 && p[0] == '{' && p[1] == '{' && forall j :: 2 <= j < |p| ==> p[j] != '{'
    requires TypedAt(p + post) == 0
    ensures Regex.NoMatch(TypedAt, pre + (p + post))
    ensures ShortAt(p + post) == 0 ==> Regex.NoMatch(ShortAt, pre + (p + post))
  {
    var rest := p + post;
    var t := pre + rest;
    NoBraceBefore(pre, rest);
    forall i | |pre| <= i < |t| ensures TypedAt(t[i..]) == 0 && (ShortAt(rest) == 0 ==> ShortAt(t[i..]) == 0) {
      var j := i - |pre|;
      assert t[i..] == rest[j..];
      if 0 < j {
        assert rest[j..][0] == rest[j];
        assert |rest[j..]| > 1 ==> rest[j..][1] == rest[j + 1];
        if j == 1 { assert rest[j + 1] == p[2]; }
        else if j < |p| { assert rest[j] == p[j]; }
        else { assert rest[j] == post[j - |p|]; }
        NoOpenAt(rest[j..]);
      }
    }
  }

  /**
    A short placeholder `{{N}}` or `{{N:X}}` between brace-free texts: the
    typed pass keeps it and the short pass puts the value of N in its place
    (the empty string for an unknown N).
   */
  lemma {:induction false} ShortPlaceholderFill(pre: string, n: string, opt: string, post: string, ctx: map<string, Value>)
    requires FieldName(n) && OptPart(opt) && !HasChar(pre, '{') && !HasChar(post, '{')
    ensures Placeholders(pre + (ShortPlaceholder(n, opt) + post), ctx) == pre + FieldValue(ctx, n) + post
  {
    var p := ShortPlaceholder(n, opt);
    var rest := p + post;
    var f := PlaceholderRepl(ctx);
    TypedSkipsShort(pre, n, opt, post);
    Regex.SubWithNoMatch(TypedAt, pre + rest, f);
    NoBraceBefore(pre, rest);
    Regex.SubWithAfter(ShortAt, pre, rest, f);
    ShortMatch(n, opt, post);
    Regex.SubWithAt(ShortAt, rest, f);
    PlaceholderOf(n, ctx, rest, 2 + |n|);
    assert rest[|p|..] == post;
    NoBraceNoMatch(post);
    Regex.SubWithNoMatch(ShortAt, post, f);
  }

  /**
    A typed placeholder `{{N:T:V:EV}}` between brace-free texts is replaced
    by the value of N in the first pass; the short pass then scans that
    value (with the rest of the text), so a value holding `{{M}}` is expanded
    once more; a brace-free value is the final result.
   */
  lemma {:induction false} TypedPlaceholderFill(pre: string, n: string, t: string, v: string, ev: string, post: string,
                             ctx: map<string, Value>)
    requires FieldName(n) && FieldText(t) && FieldText(v) && LastField(ev)
    requires !HasChar(pre, '{') && !HasChar(post, '{')
    ensures var f := PlaceholderRepl(ctx);
      Placeholders(pre + (TypedPlaceholder(n, t, v, ev) + post), ctx)
      == pre + Regex.SubWith(ShortAt, FieldValue(ctx, n) + post, f)
    ensures !HasChar(FieldValue(ctx, n), '{') ==>
      Placeholders(pre + (TypedPlaceholder(n, t, v, ev) + post), ctx) == pre + FieldValue(ctx, n) + post
  {
    var f := PlaceholderRepl(ctx);
    var value := FieldValue(ctx, n);
    TypedFirstPass(pre, n, t, v, ev, post, ctx);
    ConcatAssoc(pre, value, post);
    NoBraceBefore(pre, value + post);
    Regex.SubWithAfter(ShortAt, pre, value + post, f);
    if !HasChar(value, '{') {
      HasCharConcat(value, post, '{');
      NoBraceNoMatch(value + post);
      Regex.SubWithNoMatch(ShortAt, value + post, f);
    }
  }

  /** The typed pass replaces the typed placeholder by the value and copies the brace-free rest. */
  lemma {:induction false} TypedFirstPass(pre: string, n: string, t: string, v: string, ev: string, post: string,
                       ctx: map<string, Value>)
    requires FieldName(n) && FieldText(t) && FieldText(v) && LastField(ev)
    requires !HasChar(pre, '{') && !HasChar(post, '{')
    ensures Regex.SubWith(TypedAt, pre + (TypedPlaceholder(n, t, v, ev) + post), PlaceholderRepl(ctx))
      == pre + FieldValue(ctx, n) + post
  {
    var p := TypedPlaceholder(n, t, v, ev);
    var rest := p + post;
    var f := PlaceholderRepl(ctx);
    NoBraceBefore(pre, rest);
    TypedMatch(n, t, v, ev, post);
    PlaceholderOf(n, ctx, rest, 2 + |n|);
    assert rest[|p|..] == post;
    NoBraceNoMatch(post);
    Regex.SubWithNoMatch(TypedAt, post, f);
    Regex.SubWithBlock(TypedAt, f, pre, rest, FieldValue(ctx, n), post);
  }

  function ThreeFields(a: string, b: string, c: string): string {
    "{{" + a + ":" + b + ":" + c + "}}"
  }

  /** The positions of the parts of `{{A:B:C}}` followed by anything. */
  lemma {:induction false} ThreeFieldParts(a: string, b: string, c: string, post: string)
    ensures var s := ThreeFields(a, b, c) + post;
      var e := 2 + |a|; var c2 := e + |b| + 2; var h := c2 + |c|;
      && |s| == h + 2 + |post|
      && s[..2] == "{{" && s[2..e] == a && s[e] == ':'
      && s[e + 1..e + 1 + |b|] == b && s[e + 1 + |b|] == ':'
      && s[c2..h] == c && s[h] == '}'
  {
    var s := ThreeFields(a, b, c) + post;
    assert s == "{{" + a + ":" + b + ":" + c + "}}" + post;
  }

  /** A field ended by a character that is no field character is read as a run. */
  lemma {:induction false} FieldRun(s: string, k: nat, f: string)
    requires FieldText(f) && k + |f| < |s| && s[k..k + |f|] == f && !FieldChar(s[k + |f|])
    ensures Regex.RunEnd(s, k, FieldChar) == k + |f|
  {
    forall i | k <= i < k + |f| ensures FieldChar(s[i]) { assert s[i] == s[k..k + |f|][i - k]; }
    Regex.RunEndIs(s, k, FieldChar, k + |f|);
  }

  /** Neither pattern matches `{{A:B:C}}` followed by anything. */
  lemma {:induction false} ThreeFieldsRejected(a: string, b: string, c: string, post: string)
    requires FieldName(a) && FieldText(b) && FieldText(c)
    ensures var s := ThreeFields(a, b, c) + post; TypedAt(s) == 0 && ShortAt(s) == 0
  {
    var s := ThreeFields(a, b, c) + post;
    var e := 2 + |a|; var c2 := e + |b| + 2;
    ThreeFieldParts(a, b, c, post);
    NameEndIs(s, a);
    ColonAfterIs(s, e + 1, b);
    FieldRun(s, c2, c);
    FieldRun(s, e + 1, b);
    TypedRejectAt(s, e, c2, c2 + |c|);
    ShortRejectAt(s, e, e + 1 + |b|);
  }

  /** A typed match fails when the third field is not followed by a colon. */
  lemma {:induction false} TypedRejectAt(s: string, e: nat, c2: nat, h: nat)
    requires NameEnd(s).Some? && NameEnd(s).value == e && e < |s| && s[e] == ':'
    requires ColonAfter(s, e + 1).Some? && ColonAfter(s, e + 1).value == c2
    requires Regex.RunEnd(s, c2, FieldChar) == h < |s| && s[h] != ':'
    ensures TypedAt(s) == 0
  {
  }

  /** A short match fails when the field after the colon is not followed by `}}`. */
  lemma {:induction false} ShortRejectAt(s: string, e: nat, h: nat)
    requires NameEnd(s).Some? && NameEnd(s).value == e && e < |s| && s[e] == ':'
    requires Regex.RunEnd(s, e + 1, FieldChar) == h < |s| && s[h] != '}'
    ensures ShortAt(s) == 0
  {
  }

  /** `{{A:B:C}}`, with three fields, is no placeholder: it is kept as written. */
  lemma {:induction false} ThreeFieldsKept(pre: string, a: string, b: string, c: string, post: string, ctx: map<string, Value>)
    requires FieldName(a) && FieldText(b) && FieldText(c) && !HasChar(pre, '{') && !HasChar(post, '{')
    ensures var text := pre + (ThreeFields(a, b, c) + post); Placeholders(text, ctx) == text
  {
    var p := ThreeFields(a, b, c);
    var text := pre + (p + post);
    ThreeFieldsRejected(a, b, c, post);
    assert |p| > 2 && p[0] == '{' && p[1] == '{' && forall j :: 2 <= j < |p| ==> p[j] != '{' by {
      assert p == "{{" + a + ":" + b + ":" + c + "}}";
      forall j | 2 <= j < |p| ensures p[j] != '{' {
        if j < 2 + |a| { assert p[j] == a[j - 2]; }
        else if 2 + |a| < j < 3 + |a| + |b| { assert p[j] == b[j - 3 - |a|]; }
        else if 3 + |a| + |b| < j < 4 + |a| + |b| + |c| { assert p[j] == c[j - 4 - |a| - |b|]; }
      }
    }
    NoTypedAround(pre, p, post);
    Regex.SubWithNoMatch(TypedAt, text, PlaceholderRepl(ctx));
    Regex.SubWithNoMatch(ShortAt, text, PlaceholderRepl(ctx));
  }

  // ---------------------------------------------------------------------
  // Formatting directives `{%tag%}…{%tag stop%}`
  // ---------------------------------------------------------------------

  /** A directive registry: tags, in the pattern's order of alternatives, each with the function it stands for. */
  type Table = seq<(string, string -> string)>

  /**
    `_DIRECTIVE_FUNCS`: each directive under its name and then its alias, in
    the dictionary's order. `dedent` and `unescape` stand for
    `textwrap.dedent` and `html.unescape`.
   */
  function Registry(dedent: string -> string, unescape: string -> string): (rows: Table)
    ensures |rows| == 26
  {
    [("spaceless", Directives.Spaceless), ("sl", Directives.Spaceless),
     ("lower", Lower), ("lw", Lower),
     ("upper", Upper), ("up", Upper),
     ("title", Directives.Title), ("tl", Directives.Title),
     ("sentence", Directives.SentenceCase), ("snt", Directives.SentenceCase),
     ("trim", Strip), ("tr", Strip),
     ("dedent", dedent), ("dd", dedent),
     ("collapse_newlines", Directives.CollapseNewlines), ("cnl", Directives.CollapseNewlines),
     ("strip_punct", Directives.StripPunct), ("sp", Directives.StripPunct),
     ("unescape_html", unescape), ("uneh", unescape),
     ("list", Directives.List), ("cl", Directives.List),
     ("list_rtrim", Directives.ListRight), ("clr", Directives.ListRight),
     ("list_and", Directives.ListAnd), ("la", Directives.ListAnd)]
  }

  /** `dict.get`: the function of the first row with this tag. */
  function Lookup(rows: Table, tag: string): Option<string -> string>
    decreases |rows|
  {
    if rows == [] then None
    else if rows[0].0 == tag then Some(rows[0].1)
    else Lookup(rows[1..], tag)
  }

  /** A tag is found exactly when some row carries it, and then it gives that row's function or an earlier one's. */
  lemma {:induction false} LookupSpec(rows: Table, tag: string)
    ensures Lookup(rows, tag).Some? <==> exists i :: 0 <= i < |rows| && rows[i].0 == tag
    ensures Lookup(rows, tag).Some? ==> exists i :: 0 <= i < |rows| && rows[i].0 == tag && rows[i].1 == Lookup(rows, tag).value
    decreases |rows|
  {
    if rows != [] {
      LookupSpec(rows[1..], tag);
      if exists i :: 0 <= i < |rows| && rows[i].0 == tag {
        var i :| 0 <= i < |rows| && rows[i].0 == tag;
        if i > 0 { assert rows[1..][i - 1] == rows[i]; }
      }
      if Lookup(rows[1..], tag).Some? && rows[0].0 != tag {
        var i :| 0 <= i < |rows[1..]| && rows[1..][i].0 == tag && rows[1..][i].1 == Lookup(rows[1..], tag).value;
        assert rows[i + 1] == rows[1..][i];
      }
    }
  }

  /** A tag the pattern can delimit: it holds no `%`. */
  predicate PlainTag(t: string) { '%' !in t }

  /** Every tag of a table is plain. */
  predicate PlainTable(rows: Table) {
    forall i :: 0 <= i < |rows| ==> PlainTag(rows[i].0)
  }

  /** No tag of the registry holds a `%`. */
  lemma {:induction false} PlainRegistry(dedent: string -> string, unescape: string -> string)
    ensures PlainTable(Registry(dedent, unescape))
  {
  }

  /** Each alias stands for the same function as the name before it. */
  lemma {:induction false} DirectiveAliases(dedent: string -> string, unescape: string -> string)
    ensures var rows := Registry(dedent, unescape);
      forall i :: 0 <= i < |rows| && i % 2 == 1 ==> rows[i].1 == rows[i - 1].1
  {
  }

  function DirectiveOpen(tag: string): string { "{%" + tag + "%}" }
  function DirectiveStop(tag: string): string { "{%" + tag + " stop%}" }

  /** A match of the directive pattern at the start of a text: the tag, where the body ends and where the match ends. */
  datatype DirectiveMatch = DirectiveMatch(tag: string, bodyEnd: nat, end: nat)

  /**
    The directive pattern at the start of `s`, the tags of `rows` tried as
    its alternatives in order: an alternative whose opener is there takes the
    lazy body up to its first stop tag, and gives way to the next alternative
    when there is none.
   */
  function MatchTags(rows: Table, s: string): (r: Option<DirectiveMatch>)
    ensures r.Some? ==> var t := r.value.tag;
      && (exists i :: 0 <= i < |rows| && rows[i].0 == t)
      && OccursAt(s, DirectiveOpen(t), 0) && |DirectiveOpen(t)| <= r.value.bodyEnd
      && OccursAt(s, DirectiveStop(t), r.value.bodyEnd) && r.value.end == r.value.bodyEnd + |DirectiveStop(t)|
    decreases |rows|
  {
    if rows == [] then None
    else
      var t := rows[0].0;
      if OccursAt(s, DirectiveOpen(t), 0) then
        match CloserFrom(s, |DirectiveOpen(t)|, DirectiveStop(t), DirectiveStop(t))
        case Some(j) => Some(DirectiveMatch(t, j, j + |DirectiveStop(t)|))
        case None => MatchTags(rows[1..], s)
      else MatchTags(rows[1..], s)
  }

  /** Length of the directive span at the start of `s`, or 0. */
  function SpanAt(rows: Table, s: string): nat {
    match MatchTags(rows, s)
    case Some(m) => m.end
    case None => 0
  }

  /** The directive pattern of a table as a matcher. */
  function DirectiveMatcher(rows: Table): string -> nat {
    s => SpanAt(rows, s)
  }

  /** A directive span located in a text, by absolute indices. */
  datatype DirectiveSpan = DirectiveSpan(tag: string, start: nat, bodyStart: nat, bodyEnd: nat, end: nat)

  /** `pattern.search(text)`: the leftmost directive span. */
  function FindDirective(rows: Table, text: string): (r: Option<DirectiveSpan>)
    ensures r.Some? ==> r.value.start < r.value.bodyStart <= r.value.bodyEnd < r.value.end <= |text|
  {
    match Regex.Search(DirectiveMatcher(rows), text)
    case None => None
    case Some(p) =>
      match MatchTags(rows, text[p..])
      case None => None
      case Some(m) => Some(DirectiveSpan(m.tag, p, p + |DirectiveOpen(m.tag)|, p + m.bodyEnd, p + m.end))
  }

  /** The replacement of a span: the tag's function applied to the processed inner text, which is kept for an unknown tag. */
  function ApplyTag(rows: Table, tag: string, inner: string): string {
    match Lookup(rows, tag)
    case Some(f) => f(inner)
    case None => inner
  }

  /** A span inside `text`, its body strictly inside its tags. */
  predicate SpanIn(d: DirectiveSpan, text: string) {
    d.start < d.bodyStart <= d.bodyEnd < d.end <= |text|
  }

  /** A search that reports spans of the text it is given. */
  ghost predicate FinderOk(find: string -> Option<DirectiveSpan>) {
    forall t :: find(t).Some? ==> SpanIn(find(t).value, t)
  }

  /** The search of the directive pattern of `rows`. */
  function Finder(rows: Table): string -> Option<DirectiveSpan> {
    t => FindDirective(rows, t)
  }

  /** `text` with the span `d` replaced by `result`. */
  function Splice(text: string, d: DirectiveSpan, result: string): string
    requires SpanIn(d, text)
  {
    text[..d.start] + result + text[d.end..]
  }

  /**
    _process_directives with the search `find`: while a span is found, its
    inner text is processed first, then the tag's result replaces the whole
    span and the search starts again from the beginning. `fuel` bounds the
    number of replacements along any path; the result is None when it runs
    out. A result leaves no span for the search to find.
   */
  function ProcessWith(find: string -> Option<DirectiveSpan>, rows: Table, text: string, fuel: nat): (r: Option<string>)
    requires FinderOk(find)
    ensures r.Some? ==> (r.value == "" || find(r.value).None?)
    decreases fuel
  {
    if text == "" then Some(text)
    else
      match find(text)
      case None => Some(text)
      case Some(d) =>
        if fuel == 0 then None
        else
          match ProcessWith(find, rows, text[d.bodyStart..d.bodyEnd], fuel - 1)
          case None => None
          case Some(inner) => ProcessWith(find, rows, Splice(text, d, ApplyTag(rows, d.tag, inner)), fuel - 1)
  }

  /** _process_directives: the outcome with the pattern compiled from the tags of `rows`. */
  function Process(rows: Table, text: string, fuel: nat): (r: Option<string>)
    ensures r.Some? ==> FindDirective(rows, r.value).None?
  {
    FinderSound(rows);
    var r := ProcessWith(Finder(rows), rows, text, fuel);
    if r.Some? && r.value == "" then FindEmpty(rows); r else r
  }

  lemma {:induction false} FinderSound(rows: Table)
    ensures FinderOk(Finder(rows))
  {
  }

  lemma {:induction false} FindEmpty(rows: Table)
    ensures FindDirective(rows, "").None?
  {
  }

  /** _process_directives as a loop that restarts the search after every replacement. */
  method ProcessDirectives(find: string -> Option<DirectiveSpan>, rows: Table, text: string, fuel: nat)
    returns (r: Option<string>)
    requires FinderOk(find)
    ensures r == ProcessWith(find, rows, text, fuel)
    decreases fuel
  {
    if text == "" {
      return Some(text);
    }
    var t := text;
    var f: nat := fuel;
    while true
      invariant f <= fuel
      invariant ProcessWith(find, rows, t, f) == ProcessWith(find, rows, text, fuel)
      decreases f
    {
      var found := find(t);
      if found.None? {
        ProcessNoSpan(find, rows, t, f);
        return Some(t);
      }
      if f == 0 {
        return None;
      }
      var d := found.value;
      var inner := ProcessDirectives(find, rows, t[d.bodyStart..d.bodyEnd], f - 1);
      if inner.None? {
        ProcessInnerFails(find, rows, t, f, d);
        return None;
      }
      ProcessStep(find, rows, t, f, d, inner.value);
      t, f := Splice(t, d, ApplyTag(rows, d.tag, inner.value)), f - 1;
    }
  }

  /** Without a span the text is the result. */
  lemma {:induction false} ProcessNoSpan(find: string -> Option<DirectiveSpan>, rows: Table, t: string, f: nat)
    requires FinderOk(find) && find(t).None?
    ensures ProcessWith(find, rows, t, f) == Some(t)
  {
  }

  /** A span whose inner text cannot be processed leaves no result. */
  lemma {:induction false} ProcessInnerFails(find: string -> Option<DirectiveSpan>, rows: Table, t: string, f: nat, d: DirectiveSpan)
    requires FinderOk(find) && find(t).Some? && find(t).value == d && f > 0
    requires ProcessWith(find, rows, t[d.bodyStart..d.bodyEnd], f - 1).None?
    ensures ProcessWith(find, rows, t, f).None?
  {
  }

  /** One round of the loop: the first span found, with its inner text processed, is replaced. */
  lemma {:induction false} ProcessStep(find: string -> Option<DirectiveSpan>, rows: Table, t: string, f: nat, d: DirectiveSpan, inner: string)
    requires FinderOk(find) && find(t).Some? && find(t).value == d && f > 0
    requires var r := ProcessWith(find, rows, t[d.bodyStart..d.bodyEnd], f - 1); r.Some? && r.value == inner
    ensures SpanIn(d, t)
    ensures ProcessWith(find, rows, t, f) == ProcessWith(find, rows, Splice(t, d, ApplyTag(rows, d.tag, inner)), f - 1)
  {
  }

  /** Openers of two plain tags cannot both start a text unless the tags are the same. */
  lemma {:induction false} OpenersExclusive(s: string, t: string, u: string)
    requires PlainTag(t) && PlainTag(u)
    ensures OccursAt(s, DirectiveOpen(t), 0) && OccursAt(s, DirectiveOpen(u), 0) ==> t == u
  {
    var a := DirectiveOpen(t);
    var b := DirectiveOpen(u);
    if OccursAt(s, a, 0) && OccursAt(s, b, 0) {
      assert s[..|a|] == a && s[..|b|] == b;
      assert a[2 + |t|] == '%' && b[2 + |u|] == '%';
      assert forall k :: 0 <= k < |t| ==> a[2 + k] == t[k];
      assert forall k :: 0 <= k < |u| ==> b[2 + k] == u[k];
      assert t == a[2..2 + |t|] && u == b[2..2 + |u|];
    }
  }

  /** A body without `{` holds no stop tag. */
  lemma {:induction false} NoBraceFree(body: string, stop: string)
    requires !HasChar(body, '{') && stop != [] && stop[0] == '{'
    ensures FreeOf(body, stop, stop, stop)
  {
    forall i | 0 <= i < |body| ensures !OccursAt(body + stop, stop, i) {
      assert (body + stop)[i] == body[i];
      assert (body + stop)[i..i + |stop|][0] == (body + stop)[i];
    }
  }

  /** A match of the directive pattern starts with `{`. */
  lemma {:induction false} MatchTagsBrace(rows: Table, s: string)
    ensures MatchTags(rows, s).Some? ==> s != [] && s[0] == '{'
  {
    if MatchTags(rows, s).Some? {
      var o := DirectiveOpen(MatchTags(rows, s).value.tag);
      assert s[..|o|][0] == o[0];
    }
  }

  /**
    A directive of a table's tag whose body holds no `{` is matched with
    that tag, its body ending at the first stop tag: an earlier row with
    another tag fails at its opener.
   */
  lemma {:induction false} MatchTagsFirst(rows: Table, t: string, body: string, post: string)
    requires PlainTable(rows) && (exists i :: 0 <= i < |rows| && rows[i].0 == t)
    requires !HasChar(body, '{')
    ensures var o := DirectiveOpen(t); var stop := DirectiveStop(t);
      var m := MatchTags(rows, o + body + stop + post);
      m.Some? && m.value.tag == t && m.value.bodyEnd == |o| + |body| && m.value.end == |o| + |body| + |stop|
    decreases |rows|
  {
    var o := DirectiveOpen(t);
    var stop := DirectiveStop(t);
    var s := o + body + stop + post;
    assert s[..|o|] == o;
    if rows[0].0 == t {
      NoBraceFree(body, stop);
      CloserAfterBody(o, body, stop, post, stop, stop);
    } else {
      var i :| 0 <= i < |rows| && rows[i].0 == t;
      assert rows[1..][i - 1] == rows[i];
      assert PlainTag(t);
      OpenersExclusive(s, rows[0].0, t);
      assert PlainTable(rows[1..]) by {
        forall k | 0 <= k < |rows[1..]| ensures PlainTag(rows[1..][k].0) {
          assert rows[1..][k] == rows[k + 1];
        }
      }
      MatchTagsFirst(rows[1..], t, body, post);
    }
  }

  /** No directive starts inside a prefix without `{`. */
  lemma {:induction false} NoBraceNoSpanBefore(rows: Table, pre: string, rest: string)
    requires !HasChar(pre, '{')
    ensures Regex.NoMatchBefore(DirectiveMatcher(rows), pre, rest)
  {
    forall i | 0 <= i < |pre| ensures SpanAt(rows, (pre + rest)[i..]) == 0 {
      assert (pre + rest)[i..][0] == pre[i];
      MatchTagsBrace(rows, (pre + rest)[i..]);
    }
  }

  /** A text without `{` holds no directive. */
  lemma {:induction false} NoBraceNoDirective(rows: Table, text: string)
    requires !HasChar(text, '{')
    ensures FindDirective(rows, text).None?
  {
    NoBraceNoSpanBefore(rows, text, []);
    assert text + [] == text;
    Regex.SearchSpec(DirectiveMatcher(rows), text);
  }

  /** A text without `{` is its own result, for any fuel. */
  lemma {:induction false} ProcessNoBrace(rows: Table, text: string, fuel: nat)
    requires !HasChar(text, '{')
    ensures var r := Process(rows, text, fuel); r.Some? && r.value == text
  {
    NoBraceNoDirective(rows, text);
    FinderSound(rows);
  }

  /** The span found in a text with a single directive, preceded by text without `{`. */
  lemma {:induction false} FindSingle(rows: Table, pre: string, t: string, body: string, post: string)
    requires PlainTable(rows) && (exists i :: 0 <= i < |rows| && rows[i].0 == t)
    requires !HasChar(pre, '{') && !HasChar(body, '{')
    ensures var o := DirectiveOpen(t); var stop := DirectiveStop(t);
      var r := FindDirective(rows, pre + (o + body + stop + post));
      && r.Some? && r.value.tag == t && r.value.start == |pre| && r.value.bodyStart == |pre| + |o|
      && r.value.bodyEnd == |pre| + |o| + |body| && r.value.end == |pre| + |o| + |body| + |stop|
  {
    var o := DirectiveOpen(t);
    var stop := DirectiveStop(t);
    var rest := o + body + stop + post;
    MatchTagsFirst(rows, t, body, post);
    NoBraceNoSpanBefore(rows, pre, rest);
    Regex.SearchAfter(DirectiveMatcher(rows), pre, rest);
    assert (pre + rest)[|pre|..] == rest;
  }

  /**
    A text holding one directive, with no `{` around it, in its body or in
    its result, becomes the text around it with the directive's result in
    its place.
   */
  lemma {:induction false} SingleDirective(rows: Table, pre: string, t: string, body: string, post: string, fuel: nat)
    requires PlainTable(rows) && (exists i :: 0 <= i < |rows| && rows[i].0 == t)
    requires !HasChar(pre, '{') && !HasChar(body, '{') && !HasChar(post, '{')
    requires !HasChar(ApplyTag(rows, t, body), '{')
    requires fuel >= 1
    ensures var r := Process(rows, pre + (DirectiveOpen(t) + body + DirectiveStop(t) + post), fuel);
      r.Some? && r.value == pre + ApplyTag(rows, t, body) + post
  {
    var o := DirectiveOpen(t);
    var stop := DirectiveStop(t);
    var text := pre + (o + body + stop + post);
    var res := ApplyTag(rows, t, body);
    FindSingle(rows, pre, t, body, post);
    var d := FindDirective(rows, text).value;
    assert text[d.bodyStart..d.bodyEnd] == body;
    FinderSound(rows);
    ProcessNoBrace(rows, body, fuel - 1);
    ProcessStep(Finder(rows), rows, text, fuel, d, body);
    assert Splice(text, d, res) == pre + res + post by {
      assert text[..d.start] == pre;
      assert text[d.end..] == post;
    }
    HasCharConcat(pre, res, '{');
    HasCharConcat(pre + res, post, '{');
    ProcessNoBrace(rows, pre + res + post, fuel - 1);
  }

  /** A tag of the table finds a function, which is what the replacement applies. */
  lemma {:induction false} ApplyKnownTag(rows: Table, t: string, inner: string)
    requires exists i :: 0 <= i < |rows| && rows[i].0 == t
    ensures Lookup(rows, t).Some? && ApplyTag(rows, t, inner) == Lookup(rows, t).value(inner)
  {
    LookupSpec(rows, t);
  }

  /** More fuel does not change a result reached with less. */
  lemma {:induction false} ProcessFuel(find: string -> Option<DirectiveSpan>, rows: Table, text: string, fuel: nat)
    requires FinderOk(find)
    ensures ProcessWith(find, rows, text, fuel).Some? ==> ProcessWith(find, rows, text, fuel + 1) == ProcessWith(find, rows, text, fuel)
    decreases fuel
  {
    if text != "" && find(text).Some? && fuel > 0 {
      var d := find(text).value;
      ProcessFuel(find, rows, text[d.bodyStart..d.bodyEnd], fuel - 1);
      var inner := ProcessWith(find, rows, text[d.bodyStart..d.bodyEnd], fuel - 1);
      if inner.Some? {
        ProcessFuel(find, rows, Splice(text, d, ApplyTag(rows, d.tag, inner.value)), fuel - 1);
      }
    }
  }

  // ---------------------------------------------------------------------
  // build_prompt
  // ---------------------------------------------------------------------

  const CompiledKey := "compiled_prompt"
  const ExtraKey := "extra_compiled"

  /** The context: the decoded cached values (none when they do not parse) overridden by the keyword inputs, without the reserved keys. */
  function Context(cached: Option<map<string, Value>>, kwargs: map<string, Value>): (ctx: map<string, Value>)
    ensures CompiledKey !in ctx && ExtraKey !in ctx
    ensures forall k :: k in kwargs && k != CompiledKey && k != ExtraKey ==> k in ctx && ctx[k] == kwargs[k]
    ensures forall k :: k in ctx ==> k in kwargs || (cached.Some? && k in cached.value && ctx[k] == cached.value[k])
  {
    var base := if cached.Some? then cached.value else map[];
    (base + kwargs) - {CompiledKey, ExtraKey}
  }

  /** The prompt without comments and its first `[%vars%]` block, split into the extra text and the main text. */
  function Parts(prompt: string): (string, string) {
    SplitExtra(RemoveVars(SinglelineCommentsRemoved(RemoveMultilineComments(prompt))))
  }

  /** Toggle tags, then the two placeholder passes. */
  function Compile(text: string, ctx: map<string, Value>): string {
    Placeholders(Toggles(text, ctx), ctx)
  }

  /** A gate: the context value read as a boolean, false when absent. */
  function Gate(ctx: map<string, Value>, key: string): bool {
    ToBool(Get(ctx, key, Bool(false)))
  }

  /** The context of the extra text: the compiled main text is stored under `compiled_prompt`. */
  function ExtraContext(prompt: string, ctx: map<string, Value>): map<string, Value> {
    ctx[CompiledKey := Str(Compile(Parts(prompt).1, ctx))]
  }

  /** compiled_prompt before the directives: the compiled main text when `promptTextActive` is on, else "". */
  function MainOutput(prompt: string, ctx: map<string, Value>): string {
    if Gate(ExtraContext(prompt, ctx), "promptTextActive") then Compile(Parts(prompt).1, ctx) else ""
  }

  /** extra_compiled before the directives: the compiled extra text when there is one and `extraActive` is on, else "". */
  function ExtraOutput(prompt: string, ctx: map<string, Value>): string {
    var ectx := ExtraContext(prompt, ctx);
    if Parts(prompt).0 != "" && Gate(ectx, "extraActive") then Compile(Parts(prompt).0, ectx) else ""
  }

  /**
    build_prompt: the context is merged and cleaned step by step, the prompt
    goes through the pipeline, and both outputs through the directives of
    the registry. The help text, a constant, is not modelled.
   */
  method BuildPrompt(prompt: string, cached: Option<map<string, Value>>, kwargs: map<string, Value>,
                     dedent: string -> string, unescape: string -> string, fuel: nat)
    returns (compiled: Option<string>, extra: Option<string>)
    ensures var ctx := Context(cached, kwargs); var rows := Registry(dedent, unescape);
      && compiled == Process(rows, MainOutput(prompt, ctx), fuel)
      && extra == Process(rows, ExtraOutput(prompt, ctx), fuel)
  {
    var values := if cached.Some? then cached.value else map[];
    values := values + kwargs;
    values := values - {CompiledKey};
    values := values - {ExtraKey};
    assert values == Context(cached, kwargs);
    ghost var ctx := values;
    var clean := StripAllComments(prompt);
    var withoutVars := RemoveVars(clean);
    var parts := SplitExtra(withoutVars);
    assert parts == Parts(prompt);
    var extraRaw, main := parts.0, parts.1;
    var processed := Toggles(main, values);
    var compiledRaw := Placeholders(processed, values);
    assert compiledRaw == Compile(Parts(prompt).1, ctx);
    values := values[CompiledKey := Str(compiledRaw)];
    assert values == ExtraContext(prompt, ctx);
    var compiledPrompt := if ToBool(Get(values, "promptTextActive", Bool(false))) then compiledRaw else "";
    var extraCompiled := "";
    var extraActive := ToBool(Get(values, "extraActive", Bool(false)));
    assert extraActive == Gate(ExtraContext(prompt, ctx), "extraActive");
    if extraRaw != "" && extraActive {
      var extraProcessed := Toggles(extraRaw, values);
      extraCompiled := Placeholders(extraProcessed, values);
      assert extraCompiled == Compile(Parts(prompt).0, ExtraContext(prompt, ctx));
    }
    assert compiledPrompt == MainOutput(prompt, ctx);
    assert extraCompiled == ExtraOutput(prompt, ctx);
    var rows := Registry(dedent, unescape);
    FinderSound(rows);
    compiled := ProcessDirectives(Finder(rows), rows, compiledPrompt, fuel);
    extra := ProcessDirectives(Finder(rows), rows, extraCompiled, fuel);
  }

  /** Empty text goes through the directives unchanged. */
  lemma {:induction false} ProcessEmpty(rows: Table, fuel: nat)
    ensures var r := Process(rows, "", fuel); r.Some? && r.value == ""
  {
    FinderSound(rows);
  }

  /** The gates: compiled_prompt is "" unless `promptTextActive` is on, extra_compiled unless there is an extra text and `extraActive` is on. */
  lemma {:induction false} GatesClosed(prompt: string, ctx: map<string, Value>, rows: Table, fuel: nat)
    ensures !Gate(ctx, "promptTextActive") ==>
      var r := Process(rows, MainOutput(prompt, ctx), fuel); r.Some? && r.value == ""
    ensures Parts(prompt).0 == "" || !Gate(ctx, "extraActive") ==>
      var r := Process(rows, ExtraOutput(prompt, ctx), fuel); r.Some? && r.value == ""
  {
    var ectx := ExtraContext(prompt, ctx);
    assert Get(ectx, "promptTextActive", Bool(false)) == Get(ctx, "promptTextActive", Bool(false));
    assert Get(ectx, "extraActive", Bool(false)) == Get(ctx, "extraActive", Bool(false));
    ProcessEmpty(rows, fuel);
  }

  /** With its gate open the main text is compiled against the context, where the reserved keys are absent: `{{compiled_prompt}}` there gives "". */
  lemma {:induction false} MainCompiled(prompt: string, cached: Option<map<string, Value>>, kwargs: map<string, Value>)
    ensures var ctx := Context(cached, kwargs);
      && (Gate(ctx, "promptTextActive") ==> MainOutput(prompt, ctx) == Compile(Parts(prompt).1, ctx))
      && FieldValue(ctx, CompiledKey) == "" && FieldValue(ctx, ExtraKey) == ""
  {
  }

  /** `compiled_prompt` is a field name without brackets. */
  lemma {:induction false} CompiledKeyName()
    ensures FieldName(CompiledKey) && !HasChar(ShortPlaceholder(CompiledKey, ""), '[')
  {
    assert FieldName(CompiledKey) by {
      forall i | 0 <= i < |CompiledKey| ensures FieldChar(CompiledKey[i]) { }
    }
    forall i | 0 <= i < |ShortPlaceholder(CompiledKey, "")| ensures ShortPlaceholder(CompiledKey, "")[i] != '[' { }
  }

  /** A `{{compiled_prompt}}` between texts free of `[` and `{` compiles to the value stored under that key. */
  lemma {:induction false} CompileCompiledKey(pre: string, post: string, c: map<string, Value>)
    requires !HasChar(pre, '{') && !HasChar(post, '{') && !HasChar(pre, '[') && !HasChar(post, '[')
    ensures Compile(pre + (ShortPlaceholder(CompiledKey, "") + post), c) == pre + FieldValue(c, CompiledKey) + post
  {
    var p := ShortPlaceholder(CompiledKey, "");
    CompiledKeyName();
    HasCharConcat(p, post, '[');
    HasCharConcat(pre, p + post, '[');
    TogglesNoBracket(pre + (p + post), c);
    ShortPlaceholderFill(pre, CompiledKey, "", post, c);
  }

  /**
    The extra text is compiled against the context extended with the
    compiled main text, so a `{{compiled_prompt}}` in it, between texts free
    of `[` and `{`, gives the main text compiled but not gated.
   */
  lemma {:induction false} ExtraSeesCompiled(prompt: string, ctx: map<string, Value>, pre: string, post: string)
    requires Parts(prompt).0 == pre + (ShortPlaceholder(CompiledKey, "") + post)
    requires Gate(ExtraContext(prompt, ctx), "extraActive")
    requires !HasChar(pre, '{') && !HasChar(post, '{') && !HasChar(pre, '[') && !HasChar(post, '[')
    ensures ExtraOutput(prompt, ctx) == pre + Compile(Parts(prompt).1, ctx) + post
  {
    CompileCompiledKey(pre, post, ExtraContext(prompt, ctx));
  }
}
