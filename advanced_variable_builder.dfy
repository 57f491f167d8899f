/**
  AdvancedVariableBuilder.get_variable: the resolver of TextVariableBuilder,
  fed with definitions built by an external `parse_other_vals` from the
  dynamic keyword inputs and INPUT_VAR, and an output wrapping that turns
  the value's newlines into spaces when a name is given.
 */
module AdvancedVariableBuilder {
  import opened Strings
  import opened Utilities
  import opened VariableBuilder
  import Regex

  /** A keyword input that is passed on: its stripped name starts with `DYNAMIC_` and its value is non-empty. */
  predicate IsDynamic(kv: (string, string)) {
    StartsWith(Strip(kv.0), "DYNAMIC_") && kv.1 != ""
  }

  /** The values of the dynamic keyword inputs, in keyword order. */
  function DynamicValues(kwargs: seq<(string, string)>): seq<string>
    decreases |kwargs|
  {
    if kwargs == [] then []
    else (if IsDynamic(kwargs[0]) then [kwargs[0].1] else []) + DynamicValues(kwargs[1..])
  }

  /** A value is passed on exactly when some dynamic keyword input carries it. */
  lemma {:induction false} DynamicValuesMember(kwargs: seq<(string, string)>, v: string)
    ensures v in DynamicValues(kwargs) <==> exists i :: 0 <= i < |kwargs| && IsDynamic(kwargs[i]) && kwargs[i].1 == v
    decreases |kwargs|
  {
    if kwargs != [] {
      DynamicValuesMember(kwargs[1..], v);
      if exists i :: 0 <= i < |kwargs[1..]| && IsDynamic(kwargs[1..][i]) && kwargs[1..][i].1 == v {
        var i :| 0 <= i < |kwargs[1..]| && IsDynamic(kwargs[1..][i]) && kwargs[1..][i].1 == v;
        assert kwargs[i + 1] == kwargs[1..][i];
      }
      if exists i :: 0 <= i < |kwargs| && IsDynamic(kwargs[i]) && kwargs[i].1 == v {
        var i :| 0 <= i < |kwargs| && IsDynamic(kwargs[i]) && kwargs[i].1 == v;
        if i > 0 { assert kwargs[1..][i - 1] == kwargs[i]; }
      }
    }
  }

  /** The filter keeps the order of the inputs: it distributes over concatenation. */
  lemma {:induction false} DynamicValuesAppend(a: seq<(string, string)>, b: seq<(string, string)>)
    ensures DynamicValues(a + b) == DynamicValues(a) + DynamicValues(b)
    decreases |a|
  {
    if a != [] {
      assert (a + b)[1..] == a[1..] + b;
      DynamicValuesAppend(a[1..], b);
    } else {
      assert a + b == b;
    }
  }

  /**
    The output rule of the advanced get_variable: "" when the output follows
    the switch and the switch is off, otherwise `<name> = <value>` with every
    newline of the value turned into a space for a non-blank name, and the
    value unchanged for a blank one.
   */
  function WrapAdvanced(outValBySwitch: bool, switch: bool, varName: string, value: string): (r: string)
    ensures outValBySwitch && !switch ==> r == ""
  {
    var escaped := if Strip(varName) != "" then Replace(value, "\n", " ") else value;
    if outValBySwitch && !switch then ""
    else if Strip(varName) != "" then Strip(varName) + " = " + escaped
    else escaped
  }

  /**
    The advanced wrapping is the basic one applied to the value with its
    newlines mapped to spaces when a name is given; so the named output ends
    in a copy of the value, of the same length, without any newline.
   */
  lemma {:induction false} WrapAdvancedSpec(outValBySwitch: bool, switch: bool, varName: string, value: string)
    ensures var n := Strip(varName);
      WrapAdvanced(outValBySwitch, switch, varName, value)
      == WrapOutput(outValBySwitch, switch, varName, if n != "" then MapChar(value, '\n', ' ') else value)
    ensures var n := Strip(varName); var r := WrapAdvanced(outValBySwitch, switch, varName, value);
      !(outValBySwitch && !switch) && n != "" ==>
        && StartsWith(r, n + " = ")
        && |r| == |n| + 3 + |value|
        && !HasChar(r[|n| + 3..], '\n')
    ensures Strip(varName) == "" && !(outValBySwitch && !switch) ==>
      WrapAdvanced(outValBySwitch, switch, varName, value) == value
  {
    ReplaceChar(value, '\n', ' ');
    var n := Strip(varName);
    var escaped := if n != "" then MapChar(value, '\n', ' ') else value;
    if !(outValBySwitch && !switch) {
      WrapOutputParts(outValBySwitch, switch, varName, escaped);
    }
  }

  /**
    AdvancedVariableBuilder.get_variable: INPUT_VAR split into lines and the
    dynamic keyword values go to `parseOtherVals` (the external
    `parse_other_vals`), the template has its comments stripped and is
    expanded by the shared resolver when the switch is on, and the result is
    wrapped by the advanced rule.
   */
  method GetVariable(switch: bool, outValBySwitch: bool, varName: string, varText: string, input: InputVar,
                     kwargs: seq<(string, string)>,
                     parseOtherVals: (seq<string>, seq<string>) -> (map<string, string>, string),
                     date: string, time: string)
    returns (result: string, ghost env: Env, ghost trace: seq<Step>, ghost conds: seq<bool>)
    ensures (env.raw, env.default) == parseOtherVals(DynamicValues(kwargs), InputLines(input))
    ensures env.date == date && env.time == time
    ensures var template := if varText != "" then SinglelineCommentsRemoved(RemoveMultilineComments(varText)) else "";
      var ps := Regex.Pieces(PlaceholderAt, template);
      && Honest(env, template, CacheOf(trace), trace, [])
      && |conds| == |ps| && (switch ==> CondsOk(ps, env, conds) && PiecesSettled(ps, env, CacheOf(trace), [], conds))
      && (switch ==> PassWith(env, ChoicesOf(trace), ps, [], map[], conds) == (Fill(ps, env, CacheOf(trace), conds), CacheOf(trace)))
      && (!switch ==> trace == [])
      && result == WrapAdvanced(outValBySwitch, switch, varName, if switch then Fill(ps, env, CacheOf(trace), conds) else "")
  {
    var lines := SplitInputLines(input);
    var parsed := parseOtherVals(DynamicValues(kwargs), lines);
    var e := Env(parsed.0, parsed.1, date, time);
    env := e;
    var template := "";
    if varText != "" {
      template := StripAllComments(varText);
    }
    var resolver := new Resolver(e, template);
    var value := "";
    conds := seq(|Regex.Pieces(PlaceholderAt, template)|, _ => false);
    if switch {
      value, conds := resolver.ReplacePlaceholders(template, []);
    }
    trace := resolver.trace;
    result := WrapAdvanced(outValBySwitch, switch, varName, value);
  }

  /**
    get_variable with the template `{{n}}`, for a name whose parsed value has
    no `|` and no `{`, and the switch on: the output wraps that value,
    stripped, by the advanced rule.
   */
  method LonePlainOutput(outValBySwitch: bool, varName: string, n: string, input: InputVar,
                         kwargs: seq<(string, string)>,
                         parseOtherVals: (seq<string>, seq<string>) -> (map<string, string>, string),
                         date: string, time: string)
    returns (result: string)
    requires PlainName(n) && CommentFree(n)
    requires var raw := parseOtherVals(DynamicValues(kwargs), InputLines(input)).0;
      n in raw && raw[n] != "" && !HasChar(raw[n], '|') && !HasChar(raw[n], '{')
    ensures result == WrapAdvanced(outValBySwitch, true, varName,
      Strip(parseOtherVals(DynamicValues(kwargs), InputLines(input)).0[n]))
  {
    LoneTemplateKept(n);
    ghost var env, trace, conds;
    result, env, trace, conds := GetVariable(true, outValBySwitch, varName, "{{" + n + "}}", input, kwargs, parseOtherVals, date, time);
    LonePlainVariable(n, env, "{{" + n + "}}", trace, conds);
  }

  /**
    get_variable with the template `{{a}}`, for a variable `a` whose parsed
    value is `{{b}}` and a plain name `b` whose value has no `|` and no `{`,
    and the switch on: the output wraps b's value, stripped, by the advanced
    rule.
   */
  method NestedPlainOutput(outValBySwitch: bool, varName: string, a: string, b: string, input: InputVar,
                           kwargs: seq<(string, string)>,
                           parseOtherVals: (seq<string>, seq<string>) -> (map<string, string>, string),
                           date: string, time: string)
    returns (result: string)
    requires PlainName(a) && CommentFree(a) && PlainName(b) && a != b
    requires var raw := parseOtherVals(DynamicValues(kwargs), InputLines(input)).0;
      && a in raw && raw[a] == "{{" + b + "}}"
      && b in raw && raw[b] != "" && !HasChar(raw[b], '|') && !HasChar(raw[b], '{')
    ensures result == WrapAdvanced(outValBySwitch, true, varName,
      Strip(parseOtherVals(DynamicValues(kwargs), InputLines(input)).0[b]))
  {
    LoneTemplateKept(a);
    ghost var env, trace, conds;
    result, env, trace, conds := GetVariable(true, outValBySwitch, varName, "{{" + a + "}}", input, kwargs, parseOtherVals, date, time);
    NestedPlainTemplate(env, "{{" + a + "}}", trace, conds, a, b);
  }
}
