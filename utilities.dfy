/**
  Shared parsing helpers of the text nodes (nodes/utilities.py): splitting
  the INPUT_VAR value into lines, reading `name=value` definitions and the
  default line, random variants, the boolean evaluator, quote stripping and
  comment stripping.

  `random.choice` is modelled as a nondeterministic choice, so the helpers
  that draw a variant are methods; what each of them may return is stated by
  a ghost "possible outcome" predicate.  Every draw is independent, so a
  compound condition can produce every combination of its parts' outcomes.
 */
module Utilities {
  import opened Wrappers
  import opened Strings
  import Regex

  // ---------------------------------------------------------------------
  // split_input_lines
  // ---------------------------------------------------------------------

  /** The INPUT_VAR value: a string, another scalar (already rendered by `str`), or a list of optional scalars. */
  datatype InputVar = Text(text: string) | Rendered(rendered: string) | Items(items: seq<Option<string>>)

  predicate IsBlank(c: char) { c == ' ' || c == '\t' }

  /** Matcher for `[ \t]*[\n\r]+[ \t]*`. */
  function LineSepAt(s: string): (n: nat)
    ensures n <= |s|
  {
    var a := Regex.RunEnd(s, 0, IsBlank);
    var b := Regex.RunEnd(s, a, IsLineBreak);
    if b == a then 0 else Regex.RunEnd(s, b, IsBlank)
  }

  /** The separator pattern matches wherever a run of blanks (possibly empty) reaches a line break. */
  lemma {:induction false} LineSepAtBreak(s: string)
    requires s != [] && (IsLineBreak(s[0]) || IsBlank(s[0]))
    requires IsBlank(s[0]) ==> Regex.MatchesAt(LineSepAt, s[1..])
    ensures Regex.MatchesAt(LineSepAt, s)
  {
    if IsBlank(s[0]) {
      var t := s[1..];
      var a := Regex.RunEnd(t, 0, IsBlank);
      assert forall i :: 1 <= i < a + 1 ==> IsBlank(s[i]) by {
        forall i | 1 <= i < a + 1 ensures IsBlank(s[i]) { assert s[i] == t[i - 1]; }
      }
      Regex.RunEndIs(s, 0, IsBlank, a + 1);
      assert s[a + 1] == t[a];
    }
  }

  /** `re.I + re.M`, passed positionally to `re.split`, lands in its `maxsplit` parameter. */
  const MaxSplit: nat := 10

  /** `re.split(r"[ \t]*[\n\r]+[ \t]*", s, maxsplit)` */
  function SplitLineSeps(s: string, maxsplit: nat): (r: seq<string>)
    ensures |r| >= 1
    decreases |s|
  {
    if maxsplit == 0 then [s]
    else
      match Regex.Search(LineSepAt, s)
      case None => [s]
      case Some(i) => [s[..i]] + SplitLineSeps(s[i + LineSepAt(s[i..])..], maxsplit - 1)
  }

  /** Without a separator there is no line break. */
  lemma {:induction false} NoSeparatorNoBreak(s: string)
    requires Regex.NoMatch(LineSepAt, s)
    ensures NoLineBreak(s)
  {
    forall j | 0 <= j < |s| ensures !IsLineBreak(s[j]) {
      if IsLineBreak(s[j]) { LineSepAtBreak(s[j..]); }
    }
  }

  /** The text before the leftmost separator has no line break and does not end with a blank. */
  lemma {:induction false} BeforeSeparator(s: string, i: nat)
    requires Regex.Search(LineSepAt, s) == Some(i)
    ensures NoLineBreak(s[..i]) && (i == 0 || !IsBlank(s[i - 1]))
  {
    Regex.SearchSpec(LineSepAt, s);
    forall j | 0 <= j < i ensures !IsLineBreak(s[..i][j]) {
      if IsLineBreak(s[j]) { LineSepAtBreak(s[j..]); }
    }
    if i > 0 && IsBlank(s[i - 1]) {
      assert s[i - 1..][1..] == s[i..];
      LineSepAtBreak(s[i - 1..]);
    }
  }

  /** The text after a separator does not start with a blank. */
  lemma {:induction false} AfterSeparator(t: string)
    requires Regex.MatchesAt(LineSepAt, t)
    ensures var rest := t[LineSepAt(t)..]; rest == [] || !IsBlank(rest[0])
  {
  }

  /** One cut of `SplitLineSeps`. */
  lemma {:induction false} SplitLineSepsCut(s: string, maxsplit: nat, i: nat, j: nat)
    requires maxsplit > 0 && Regex.Search(LineSepAt, s) == Some(i)
    requires j == i + LineSepAt(s[i..])
    ensures j <= |s| && SplitLineSeps(s, maxsplit) == [s[..i]] + SplitLineSeps(s[j..], maxsplit - 1)
  {
  }

  /**
    The shape of a split with at most `maxsplit` cuts: each piece before a cut
    is free of line breaks and does not end with a blank, each piece after a
    cut does not start with one, and when fewer cuts than allowed were made the
    last piece has no line break either.
   */
  predicate SplitShape(r: seq<string>, maxsplit: nat) {
    && 1 <= |r| <= maxsplit + 1
    && (forall k :: 0 <= k < |r| - 1 ==> CleanEnd(r[k]))
    && (forall k :: 0 < k < |r| ==> CleanStart(r[k]))
    && (|r| <= maxsplit ==> NoLineBreak(r[|r| - 1]))
  }

  /** A piece before a cut: no line break and no trailing blank. */
  predicate CleanEnd(p: string) {
    NoLineBreak(p) && (p == [] || !IsBlank(p[|p| - 1]))
  }

  /** A piece after a cut: no leading blank. */
  predicate CleanStart(p: string) {
    p == [] || !IsBlank(p[0])
  }

  lemma {:induction false} SplitShapeCons(head: string, tail: seq<string>, maxsplit: nat)
    requires maxsplit > 0 && SplitShape(tail, maxsplit - 1)
    requires CleanEnd(head) && CleanStart(tail[0])
    ensures SplitShape([head] + tail, maxsplit)
  {
    var r := [head] + tail;
    assert forall k :: 0 < k < |r| ==> r[k] == tail[k - 1];
  }

  /** The first piece of a split is a prefix of the input, so it starts as cleanly as the input. */
  lemma {:induction false} SplitLineSepsFirst(s: string, maxsplit: nat)
    ensures StartsWith(s, SplitLineSeps(s, maxsplit)[0])
    ensures CleanStart(s) ==> CleanStart(SplitLineSeps(s, maxsplit)[0])
  {
    var p := SplitLineSeps(s, maxsplit)[0];
    if p != [] { assert p[0] == s[0]; }
  }

  /** Around the leftmost separator: no line break and no trailing blank before it, no leading blank after it. */
  lemma {:induction false} SeparatorFacts(s: string, i: nat)
    requires Regex.Search(LineSepAt, s) == Some(i)
    ensures CleanEnd(s[..i]) && CleanStart(s[i + LineSepAt(s[i..])..])
  {
    Regex.SearchSpec(LineSepAt, s);
    BeforeSeparator(s, i);
    AfterSeparator(s[i..]);
    assert s[i + LineSepAt(s[i..])..] == s[i..][LineSepAt(s[i..])..];
  }

  /** A cut keeps the shape, since the split of what follows the separator has it. */
  lemma {:induction false} CutShape(s: string, maxsplit: nat, i: nat)
    requires maxsplit > 0 && Regex.Search(LineSepAt, s) == Some(i)
    ensures SplitShape(SplitLineSeps(s, maxsplit), maxsplit)
    decreases |s|, 0
  {
    SeparatorAdvances(s, i);
    var j := i + LineSepAt(s[i..]);
    var tail := SplitLineSeps(s[j..], maxsplit - 1);
    SplitLineSepsSpec(s[j..], maxsplit - 1);
    SplitLineSepsCut(s, maxsplit, i, j);
    SeparatorFacts(s, i);
    SplitLineSepsFirst(s[j..], maxsplit - 1);
    SplitShapeCons(s[..i], tail, maxsplit);
  }

  /** Without a separator the split is the input alone, which has no line break. */
  lemma {:induction false} UncutShape(s: string, maxsplit: nat)
    requires maxsplit == 0 || Regex.Search(LineSepAt, s).None?
    ensures SplitShape(SplitLineSeps(s, maxsplit), maxsplit)
  {
    if maxsplit > 0 {
      Regex.SearchSpec(LineSepAt, s);
      NoSeparatorNoBreak(s);
    }
    assert SplitLineSeps(s, maxsplit) == [s];
  }

  /** A separator found by the search is not empty, so the text after it is shorter. */
  lemma {:induction false} SeparatorAdvances(s: string, i: nat)
    requires Regex.Search(LineSepAt, s) == Some(i)
    ensures 0 < LineSepAt(s[i..]) && i + LineSepAt(s[i..]) <= |s|
  {
    Regex.SearchSpec(LineSepAt, s);
  }

  /** `re.split` with the line-separator pattern always has the shape above. */
  lemma {:induction false} SplitLineSepsSpec(s: string, maxsplit: nat)
    ensures SplitShape(SplitLineSeps(s, maxsplit), maxsplit)
    decreases |s|, 1
  {
    var m := Regex.Search(LineSepAt, s);
    if maxsplit > 0 && m.Some? {
      CutShape(s, maxsplit, m.value);
    } else {
      UncutShape(s, maxsplit);
    }
  }

  /** The stripped renderings of the list items that are not None, in order. */
  function PresentStripped(items: seq<Option<string>>): seq<string>
    decreases |items|
  {
    if items == [] then []
    else
      var last := match items[|items| - 1] case None => [] case Some(x) => [Strip(x)];
      PresentStripped(items[..|items| - 1]) + last
  }

  /** The lines split_input_lines returns. */
  function InputLines(inp: InputVar): seq<string> {
    match inp
    case Text(s) => if NoLineBreak(s) then [Strip(s)] else SplitLineSeps(s, MaxSplit)
    case Rendered(s) => [Strip(s)]
    case Items(items) => PresentStripped(items)
  }

  /** split_input_lines: a string with a line break is split by the pattern; any other scalar is one stripped line; a list gives its stripped non-None items. */
  method SplitInputLines(inp: InputVar) returns (result: seq<string>)
    ensures result == InputLines(inp)
    ensures inp.Text? && !NoLineBreak(inp.text) ==> result == SplitLineSeps(inp.text, MaxSplit)
    ensures inp.Text? && NoLineBreak(inp.text) ==> result == [Strip(inp.text)]
    ensures inp.Rendered? ==> result == [Strip(inp.rendered)]
    ensures inp.Items? ==> result == PresentStripped(inp.items)
  {
    match inp {
      case Text(s) =>
        if !NoLineBreak(s) {
          return SplitLineSeps(s, MaxSplit);
        }
        return [Strip(s)];
      case Rendered(s) =>
        return [Strip(s)];
      case Items(items) =>
        result := [];
        var i := 0;
        while i < |items|
          invariant 0 <= i <= |items|
          invariant result == PresentStripped(items[..i])
        {
          assert items[..i + 1][..i] == items[..i];
          if items[i].Some? {
            result := result + [Strip(items[i].value)];
          }
          i := i + 1;
        }
        assert items[..i] == items;
    }
  }

  /** Every line of a list input is already stripped. */
  lemma {:induction false} PresentStrippedAreStripped(items: seq<Option<string>>)
    ensures forall k :: 0 <= k < |PresentStripped(items)| ==> Strip(PresentStripped(items)[k]) == PresentStripped(items)[k]
    decreases |items|
  {
    if items != [] {
      PresentStrippedAreStripped(items[..|items| - 1]);
      match items[|items| - 1] {
        case None =>
        case Some(x) => StripIdempotent(x);
      }
    }
  }

  // ---------------------------------------------------------------------
  // parse_input_lines
  // ---------------------------------------------------------------------

  /** A line holding a definition `name=value`. */
  predicate IsDefinitionLine(line: string) { Contains(line, "=") }

  /** The stripped name left of the first `=`. */
  function NameOf(line: string): string { Strip(Before(line, "=")) }

  /** The stripped value right of the first `=`. */
  function ValueOf(line: string): string { Strip(After(line, "=")) }

  /** A candidate for the default line: non-empty and without `=`. */
  predicate IsDefaultLine(line: string) { line != "" && !Contains(line, "=") }

  /** Some line before index `n` defines `name`. */
  ghost predicate DefinedBefore(lines: seq<string>, n: nat, name: string)
    requires n <= |lines|
  {
    exists i :: 0 <= i < n && IsDefinitionLine(lines[i]) && NameOf(lines[i]) == name
  }

  /** Line `i` is the last definition of its name before index `n`. */
  ghost predicate LastDefinitionBefore(lines: seq<string>, n: nat, i: nat)
    requires i < n <= |lines|
  {
    && IsDefinitionLine(lines[i])
    && forall j :: i < j < n ==> !(IsDefinitionLine(lines[j]) && NameOf(lines[j]) == NameOf(lines[i]))
  }

  /** No default line lies in `lines[from..n]`. */
  ghost predicate NoDefaultBetween(lines: seq<string>, from: int, n: nat)
    requires n <= |lines|
  {
    forall j :: from <= j < n && 0 <= j ==> !IsDefaultLine(lines[j])
  }

  /** The definitions of `lines`, each later one overriding earlier ones. */
  function Definitions(lines: seq<string>): map<string, string>
    decreases |lines|
  {
    if lines == [] then map[]
    else
      var line := lines[|lines| - 1];
      var before := Definitions(lines[..|lines| - 1]);
      if IsDefinitionLine(line) then before[NameOf(line) := ValueOf(line)] else before
  }

  /** The last default line of `lines`, or "" when there is none. */
  function DefaultOf(lines: seq<string>): string
    decreases |lines|
  {
    if lines == [] then ""
    else if IsDefaultLine(lines[|lines| - 1]) then lines[|lines| - 1]
    else DefaultOf(lines[..|lines| - 1])
  }

  /** Extending the prefix by one line adds that line's definition or default. */
  lemma {:induction false} PrefixStep(lines: seq<string>, n: nat)
    requires n < |lines|
    ensures Definitions(lines[..n + 1]) == (if IsDefinitionLine(lines[n])
      then Definitions(lines[..n])[NameOf(lines[n]) := ValueOf(lines[n])] else Definitions(lines[..n]))
    ensures DefaultOf(lines[..n + 1]) == (if IsDefaultLine(lines[n]) then lines[n] else DefaultOf(lines[..n]))
  {
    assert lines[..n + 1][..n] == lines[..n];
  }

  /**
    parse_input_lines: the raw map holds the definitions, the later ones
    winning, and the default is the last default line itself (not stripped).
   */
  method ParseInputLines(lines: seq<string>) returns (raw: map<string, string>, default: string)
    ensures raw == Definitions(lines) && default == DefaultOf(lines)
  {
    raw := map[];
    default := "";
    var n := 0;
    while n < |lines|
      invariant 0 <= n <= |lines|
      invariant raw == Definitions(lines[..n]) && default == DefaultOf(lines[..n])
    {
      PrefixStep(lines, n);
      var line := lines[n];
      if line != "" {
        if Contains(line, "=") {
          raw := raw[NameOf(line) := ValueOf(line)];
        } else {
          default := line;
        }
      }
      n := n + 1;
    }
    assert lines[..n] == lines;
  }

  /** Every defined name is a key. */
  lemma {:induction false} DefinitionsHasKey(lines: seq<string>, i: nat)
    requires i < |lines| && IsDefinitionLine(lines[i])
    ensures NameOf(lines[i]) in Definitions(lines)
    decreases |lines|
  {
    var m := |lines| - 1;
    PrefixStep(lines, m);
    assert lines[..m + 1] == lines;
    if i < m {
      var init := lines[..m];
      assert init[i] == lines[i];
      DefinitionsHasKey(init, i);
    }
  }

  /** Every key is a name that some line defines. */
  lemma {:induction false} DefinitionsKeyDefined(lines: seq<string>, k: string)
    requires k in Definitions(lines)
    ensures DefinedBefore(lines, |lines|, k)
    decreases |lines|
  {
    var m := |lines| - 1;
    PrefixStep(lines, m);
    assert lines[..m + 1] == lines;
    var init := lines[..m];
    if IsDefinitionLine(lines[m]) && NameOf(lines[m]) == k {
    } else {
      assert k in Definitions(init);
      DefinitionsKeyDefined(init, k);
      var i :| 0 <= i < m && IsDefinitionLine(init[i]) && NameOf(init[i]) == k;
      assert lines[i] == init[i];
    }
  }

  /** The value of a name is the value of its last definition. */
  lemma {:induction false} DefinitionsLast(lines: seq<string>, i: nat)
    requires i < |lines| && LastDefinitionBefore(lines, |lines|, i)
    ensures NameOf(lines[i]) in Definitions(lines) && Definitions(lines)[NameOf(lines[i])] == ValueOf(lines[i])
    decreases |lines|
  {
    var m := |lines| - 1;
    PrefixStep(lines, m);
    assert lines[..m + 1] == lines;
    var init := lines[..m];
    if i < m {
      assert init[i] == lines[i];
      assert !(IsDefinitionLine(lines[m]) && NameOf(lines[m]) == NameOf(lines[i]));
      assert LastDefinitionBefore(init, m, i) by {
        forall j | i < j < m ensures !(IsDefinitionLine(init[j]) && NameOf(init[j]) == NameOf(init[i])) {
          assert init[j] == lines[j];
        }
      }
      DefinitionsLast(init, i);
    }
  }

  /** The default is "" exactly when no line is a default line, and otherwise the last default line. */
  lemma {:induction false} DefaultOfSpec(lines: seq<string>)
    ensures DefaultOf(lines) == "" <==> NoDefaultBetween(lines, 0, |lines|)
    ensures DefaultOf(lines) != "" ==> exists i :: (0 <= i < |lines| && lines[i] == DefaultOf(lines)
      && IsDefaultLine(lines[i]) && NoDefaultBetween(lines, i + 1, |lines|))
    decreases |lines|
  {
    if lines != [] {
      var m := |lines| - 1;
      var init := lines[..m];
      DefaultOfSpec(init);
      assert forall j :: 0 <= j < m ==> init[j] == lines[j];
      if !IsDefaultLine(lines[m]) && DefaultOf(init) != "" {
        var i :| 0 <= i < m && init[i] == DefaultOf(init) && IsDefaultLine(init[i]) && NoDefaultBetween(init, i + 1, m);
        assert lines[i] == DefaultOf(lines);
      }
    }
  }

  // ---------------------------------------------------------------------
  // choose_variant
  // ---------------------------------------------------------------------

  /** The stripped `|`-separated alternatives of a raw value; never empty. */
  function Variants(value: string): (r: seq<string>)
    ensures |r| == |Split(value, "|")| >= 1
  {
    var parts := Split(value, "|");
    seq(|parts|, k requires 0 <= k < |parts| => Strip(parts[k]))
  }

  /** A value without `|` has one variant: the value stripped. */
  lemma {:induction false} VariantsSingle(value: string)
    requires !Contains(value, "|")
    ensures Variants(value) == [Strip(value)]
  {
    SplitAbsent(value, "|");
  }

  /** choose_variant: `random.choice` over the stripped `|`-segments. */
  method ChooseVariant(value: string) returns (r: string)
    ensures r in Variants(value)
    ensures !Contains(value, "|") ==> r == Strip(value)
  {
    var parts := Variants(value);
    var k :| 0 <= k < |parts|;
    r := parts[k];
    if !Contains(value, "|") { VariantsSingle(value); }
  }

  // ---------------------------------------------------------------------
  // evaluate_part_bool / raw_as_bool
  // ---------------------------------------------------------------------

  /** `raw_dict.get(name, "")` */
  function Get(raw: map<string, string>, name: string): string {
    if name in raw then raw[name] else ""
  }

  /** Python's falsy spellings, compared after lowering. */
  predicate Truthy(s: string) {
    Lower(s) !in {"", "0", "false", "none"}
  }

  /** Some variant of `value` has truthiness `b`. */
  ghost predicate VariantCan(value: string, b: bool) {
    exists k :: 0 <= k < |Variants(value)| && Truthy(Variants(value)[k]) == b
  }

  /**
    Some variant of `raw.get(name, "")` has truthiness `b`; a missing name
    reads as "", whose one variant is false (see `ValueCanGet`).
   */
  ghost predicate ValueCan(raw: map<string, string>, name: string, b: bool) {
    if name in raw then VariantCan(raw[name], b) else !b
  }

  /** `b` is a possible result of evaluate_part_bool(part, raw). */
  ghost predicate PartCan(part: string, raw: map<string, string>, b: bool) {
    if Lower(part) in {"true", "false"} then b == (Lower(part) == "true")
    else ValueCan(raw, part, b)
  }

  /** evaluate_part_bool: a boolean literal, or the truthiness of a random variant of the named raw value. */
  method EvaluatePartBool(part: string, raw: map<string, string>) returns (b: bool)
    ensures PartCan(part, raw, b)
  {
    if Lower(part) in {"true", "false"} {
      return Lower(part) == "true";
    }
    var chosen := ChooseVariant(Get(raw, part));
    b := Truthy(chosen);
    ValueCanGet(raw, part, b);
  }

  /** The stripped operands of a compound condition. */
  function Operands(token: string, op: string): (r: seq<string>)
    requires op != []
    ensures |r| >= 1
  {
    var parts := Split(token, op);
    seq(|parts|, k requires 0 <= k < |parts| => Strip(parts[k]))
  }

  /** `b` is a possible result of `all(...)` over the operands. */
  ghost predicate AllCan(parts: seq<string>, raw: map<string, string>, b: bool) {
    if b then forall k :: 0 <= k < |parts| ==> PartCan(parts[k], raw, true)
    else exists k :: 0 <= k < |parts| && PartCan(parts[k], raw, false)
  }

  /** `b` is a possible result of `any(...)` over the operands. */
  ghost predicate AnyCan(parts: seq<string>, raw: map<string, string>, b: bool) {
    if b then exists k :: 0 <= k < |parts| && PartCan(parts[k], raw, true)
    else forall k :: 0 <= k < |parts| ==> PartCan(parts[k], raw, false)
  }

  /** The token selects the default line: the default is non-empty and the token is empty or a default keyword. */
  predicate SelectsDefault(token: string, default: string) {
    default != "" && (token == "" || Strip(Lower(token)) in {"default", "def", "_"})
  }

  /** `b` is a possible result of raw_as_bool(token, raw, default). */
  ghost predicate BoolCan(token: string, raw: map<string, string>, default: string, b: bool) {
    var lowered := Strip(Lower(token));
    if SelectsDefault(token, default) then b == Truthy(default)
    else if lowered in {"true", "false"} then b == (lowered == "true")
    else if Contains(token, "&&") then AllCan(Operands(token, "&&"), raw, b)
    else if Contains(token, "||") then AnyCan(Operands(token, "||"), raw, b)
    else ValueCan(raw, token, b)
  }

  /** `all(evaluate_part_bool(p, raw) for p in parts)`, stopping at the first false part. */
  method EvaluateAll(parts: seq<string>, raw: map<string, string>) returns (b: bool)
    ensures AllCan(parts, raw, b)
  {
    var k := 0;
    while k < |parts|
      invariant 0 <= k <= |parts|
      invariant forall j :: 0 <= j < k ==> PartCan(parts[j], raw, true)
    {
      var v := EvaluatePartBool(parts[k], raw);
      if !v {
        assert PartCan(parts[k], raw, false);
        return false;
      }
      k := k + 1;
    }
    return true;
  }

  /** `any(evaluate_part_bool(p, raw) for p in parts)`, stopping at the first true part. */
  method EvaluateAny(parts: seq<string>, raw: map<string, string>) returns (b: bool)
    ensures AnyCan(parts, raw, b)
  {
    var k := 0;
    while k < |parts|
      invariant 0 <= k <= |parts|
      invariant forall j :: 0 <= j < k ==> PartCan(parts[j], raw, false)
    {
      var v := EvaluatePartBool(parts[k], raw);
      if v {
        assert PartCan(parts[k], raw, true);
        return true;
      }
      k := k + 1;
    }
    return false;
  }

  /**
    raw_as_bool: the default keywords, then the literals, then `&&` (which wins
    over `||`), then `||`, then a variable looked up under the unstripped token.
   */
  method RawAsBool(token: string, raw: map<string, string>, default: string) returns (b: bool)
    ensures BoolCan(token, raw, default, b)
  {
    var lowered := Strip(Lower(token));
    if SelectsDefault(token, default) {
      b := Truthy(default);
    } else if lowered in {"true", "false"} {
      b := lowered == "true";
    } else if Contains(token, "&&") {
      b := EvaluateAll(Operands(token, "&&"), raw);
    } else if Contains(token, "||") {
      b := EvaluateAny(Operands(token, "||"), raw);
    } else {
      var chosen := ChooseVariant(Get(raw, token));
      b := Truthy(chosen);
      ValueCanGet(raw, token, b);
    }
  }

  /** A token that is no default keyword, no literal and no compound is a variable lookup. */
  predicate IsPlainVariable(token: string, default: string) {
    && !SelectsDefault(token, default)
    && Strip(Lower(token)) !in {"true", "false"}
    && !Contains(token, "&&")
    && !Contains(token, "||")
  }

  /** A plain variable is judged by one random variant of its raw value. */
  lemma {:induction false} PlainVariableCan(token: string, raw: map<string, string>, default: string, b: bool)
    requires IsPlainVariable(token, default)
    ensures BoolCan(token, raw, default, b) == ValueCan(raw, token, b)
  {
  }

  /** A value without `|` can only be as true as its stripped self. */
  lemma {:induction false} VariantOfSingle(value: string, b: bool)
    requires !Contains(value, "|")
    ensures VariantCan(value, b) <==> Truthy(Strip(value)) == b
  {
    VariantsSingle(value);
    var v := Variants(value);
    if Truthy(Strip(value)) == b {
      assert Truthy(v[0]) == b;
    } else {
      forall k | 0 <= k < |v| ensures Truthy(v[k]) != b { assert k == 0; }
    }
  }

  /** The empty value has the one variant "", which is false. */
  lemma {:induction false} VariantOfEmpty(b: bool)
    ensures VariantCan("", b) <==> !b
  {
    VariantOfSingle("", b);
    StripNoop("");
    assert Lower("") == "";
  }

  /** `ValueCan` is what a variant of `raw.get(name, "")` can give. */
  lemma {:induction false} ValueCanGet(raw: map<string, string>, name: string, b: bool)
    ensures ValueCan(raw, name, b) <==> VariantCan(Get(raw, name), b)
  {
    if name !in raw {
      VariantOfEmpty(b);
    }
  }

  /** A variable whose raw value has no `|` is true exactly when its stripped value is truthy. */
  lemma {:induction false} SingleVariantVariable(token: string, raw: map<string, string>, default: string, b: bool)
    requires IsPlainVariable(token, default)
    requires token in raw && !Contains(raw[token], "|")
    ensures BoolCan(token, raw, default, b) <==> b == Truthy(Strip(raw[token]))
  {
    PlainVariableCan(token, raw, default, b);
    VariantOfSingle(raw[token], b);
  }

  // ---------------------------------------------------------------------
  // strip_quotes
  // ---------------------------------------------------------------------

  /** strip_quotes: the text inside a stripped token wrapped in double quotes, if it is one. */
  function StripQuotes(token: string): (r: Option<string>)
    ensures var t := Strip(token);
      r.Some? <==> (|t| >= 2 && t[0] == '"' && t[|t| - 1] == '"')
    ensures r.Some? ==> "\"" + r.value + "\"" == Strip(token)
  {
    var t := Strip(token);
    if |t| >= 2 && t[0] == '"' && t[|t| - 1] == '"' then Some(t[1..|t| - 1]) else None
  }

  /** Quoting a text and stripping the quotes gives the text back. */
  lemma {:induction false} StripQuotesOfQuoted(x: string)
    ensures StripQuotes("\"" + x + "\"") == Some(x)
  {
    var q := "\"" + x + "\"";
    assert q[0] == '"' && q[|q| - 1] == '"';
    assert !IsSpace(q[0]) && !IsSpace(q[|q| - 1]);
    StripNoop(q);
    assert Strip(q) == q;
    assert q[1..|q| - 1] == x;
  }

  // ---------------------------------------------------------------------
  // remove_multiline_comments / remove_singleline_comments / strip_all_comments
  // ---------------------------------------------------------------------

  // The index of the first star-slash at or after `k`, or |s|.
  function CommentCloseFrom(s: string, k: nat): (j: nat)
    requires k <= |s|
    ensures k <= j <= |s|
    ensures j < |s| ==> j + 1 < |s| && s[j] == '*' && s[j + 1] == '/'
    ensures forall i :: k <= i < j && i + 1 < |s| ==> !(s[i] == '*' && s[i + 1] == '/')
    decreases |s| - k
  {
    if k + 1 >= |s| then |s|
    else if s[k] == '*' && s[k + 1] == '/' then k
    else CommentCloseFrom(s, k + 1)
  }

  // Matcher for the DOTALL pattern of a block comment: slash-star up to the first star-slash after it.
  function BlockCommentAt(s: string): (n: nat)
    ensures n <= |s|
  {
    if |s| >= 4 && s[0] == '/' && s[1] == '*' then
      var j := CommentCloseFrom(s, 2);
      if j < |s| then j + 2 else 0
    else 0
  }

  // A star-slash starts at index `j` of `s`.
  predicate ClosesAt(s: string, j: nat) { j + 1 < |s| && s[j] == '*' && s[j + 1] == '/' }

  // A block comment at the start of `s` runs from its slash-star to the first
  // star-slash after it, across lines; without a later star-slash nothing matches.
  lemma {:induction false} BlockCommentSpec(s: string)
    ensures var n := BlockCommentAt(s);
      n > 0 <==> (StartsWith(s, "/*") && exists j :: 2 <= j && ClosesAt(s, j))
    ensures var n := BlockCommentAt(s);
      n > 0 ==> (n >= 4 && ClosesAt(s, n - 2) && forall j :: 2 <= j < n - 2 ==> !ClosesAt(s, j))
  {
    if StartsWith(s, "/*") && exists j :: 2 <= j && ClosesAt(s, j) {
      var j :| 2 <= j && ClosesAt(s, j);
      assert s[0] == '/' && s[1] == '*';
      var k := CommentCloseFrom(s, 2);
      assert k <= j;
    }
    if BlockCommentAt(s) > 0 {
      var k := CommentCloseFrom(s, 2);
      assert ClosesAt(s, k);
    }
  }

  // A text in which no slash-star opens a comment goes through remove_multiline_comments unchanged.
  lemma {:induction false} NoOpenerKept(text: string)
    requires NoPair(text, '/', '*')
    ensures RemoveMultilineComments(text) == text
  {
    forall i | 0 <= i < |text| ensures !Regex.MatchesAt(BlockCommentAt, text[i..]) {
      if i + 1 < |text| {
        assert text[i..][1] == text[i + 1];
      }
    }
    Regex.SubNoMatch(BlockCommentAt, text, _ => "");
  }

  /** remove_multiline_comments */
  function RemoveMultilineComments(text: string): string {
    Regex.Sub(BlockCommentAt, text, _ => "")
  }

  /** `line.split("#", 1)[0]` */
  function CutHash(line: string): string { Before(line, "#") }

  function CutLines(lines: seq<string>): (r: seq<string>)
    ensures |r| == |lines| && forall k :: 0 <= k < |lines| ==> r[k] == CutHash(lines[k])
  {
    seq(|lines|, k requires 0 <= k < |lines| => CutHash(lines[k]))
  }

  /**
    What remove_singleline_comments computes: every line of `splitlines` cut
    at its first `#`, joined with "\n".
   */
  function SinglelineCommentsRemoved(text: string): string {
    Join(CutLines(SplitLines(text)), "\n")
  }

  /** remove_singleline_comments */
  method RemoveSinglelineComments(text: string) returns (r: string)
    ensures r == SinglelineCommentsRemoved(text)
  {
    var lines := SplitLines(text);
    var cleaned: seq<string> := [];
    var i := 0;
    while i < |lines|
      invariant 0 <= i <= |lines|
      invariant cleaned == CutLines(lines[..i])
    {
      cleaned := cleaned + [CutHash(lines[i])];
      i := i + 1;
    }
    assert lines[..i] == lines;
    r := Join(cleaned, "\n");
  }

  /** strip_all_comments */
  method StripAllComments(text: string) returns (r: string)
    ensures r == SinglelineCommentsRemoved(RemoveMultilineComments(text))
  {
    var noMl := RemoveMultilineComments(text);
    r := RemoveSinglelineComments(noMl);
  }

  /** A cut line has no `#`. */
  lemma {:induction false} CutHashFree(line: string)
    ensures !HasChar(CutHash(line), '#')
  {
    var r := CutHash(line);
    forall j | 0 <= j < |r| ensures r[j] != '#' {
      assert r[j] == line[j];
      assert line[j..j + 1] == [line[j]];
      assert !OccursAt(line, "#", j);
    }
  }

  /**
    After single-line comment removal no `#` is left, and the result has one
    "\n"-separated line per line of the input, each the input line cut at its
    first `#`.
   */
  lemma {:induction false} SinglelineCommentsRemovedSpec(text: string)
    ensures !HasChar(SinglelineCommentsRemoved(text), '#')
    ensures SplitLines(text) != [] ==> Split(SinglelineCommentsRemoved(text), "\n") == CutLines(SplitLines(text))
    ensures SplitLines(text) == [] ==> SinglelineCommentsRemoved(text) == ""
  {
    var lines := SplitLines(text);
    var cut := CutLines(lines);
    forall k | 0 <= k < |cut| ensures !HasChar(cut[k], '#') { CutHashFree(lines[k]); }
    JoinNoChar(cut, '#', '\n');
    if lines != [] {
      forall k | 0 <= k < |cut| ensures forall j :: 0 <= j < |cut[k]| ==> cut[k][j] != '\n' {
        assert StartsWith(lines[k], cut[k]);
        forall j | 0 <= j < |cut[k]| ensures cut[k][j] != '\n' { assert cut[k][j] == lines[k][j]; }
      }
      SplitJoinChar(cut, '\n');
    }
  }

  /** A non-empty single line with no `#` and no slash-star passes strip_all_comments unchanged. */
  lemma {:induction false} PlainLineKept(text: string)
    requires text != [] && NoLineBreak(text) && !HasChar(text, '#') && NoPair(text, '/', '*')
    ensures SinglelineCommentsRemoved(RemoveMultilineComments(text)) == text
  {
    NoOpenerKept(text);
    assert LineEnd(text) == |text|;
    assert SplitLines(text) == [text];
    ContainsChar(text, '#');
    assert CutLines([text]) == [text];
  }

  /** No `#` survives strip_all_comments. */
  lemma {:induction false} StrippedHasNoHash(text: string)
    ensures !HasChar(SinglelineCommentsRemoved(RemoveMultilineComments(text)), '#')
  {
    SinglelineCommentsRemovedSpec(RemoveMultilineComments(text));
  }
}
