# darkil nodes: text templating core, in Dafny

This project models the text-processing core of the darkil custom node pack for ComfyUI and proves properties of it.

**Variable builders.** A block of `name=value` lines (INPUT_VAR) is read into a raw map plus a default line. A template's `{{...}}` placeholders are then expanded against it:
- recursively, from a random `|`-variant of each raw value;
- with a per-call memo cache and a call stack that turns a cyclic reference into "";
- with `IF:`/`IFNOT:` conditionals, the `??` fallback and quoted literals.

The result is wrapped as `name = value`. The advanced builder additionally passes only `DYNAMIC_*` keyword inputs on and turns newlines into spaces.

**Prompt builder.** A prompt is compiled in a fixed pipeline:
1. strip comments;
2. cut out the first `[%vars%]` block;
3. detach the first `[%extra%]` block;
4. apply one pass of `[[TAG]]...[[/TAG]]` toggles against a context of widget values;
5. run the typed placeholder pass, then the short one;
6. apply the `promptTextActive` and `extraActive` gates;
7. run the `{%tag%}...{%tag stop%}` formatting-directive loop.

**Directives.** The formatting directives: spaceless, lower/upper/title, sentence case, trim, collapse newlines, strip punctuation, and the three list cleaners.

**Smaller nodes.**
- The LoRA list text parser: comments, splitting, low/high trigger routing, `name:strength`, name lookup, and merging with previous lists.
- The MultiToggles join rule.
- The FilesList glob-pattern normaliser.

**Modules.** One module per source file: `Utilities`, `VariableBuilder`, `AdvancedVariableBuilder`, `PromptBuilder`, `Directives`, `LoraListBuilder`, `MultiToggles` and `FilesList`. Three shared modules sit underneath them:
- `Wrappers` (Option);
- `Strings`, Python's `str` methods on `seq<char>`;
- `Regex`, which re-expresses Python's `re` behaviour by hand.
  - A pattern is a matcher function giving the length of the match at the start of a string (0 for none).
  - `Sub` and `Pieces` scan leftmost and non-overlapping, and do not rescan replacement text.
  - `Search` finds the leftmost match.

**How the source's imperative code is modelled.**
- Loops that build lists or maps become methods with loop invariants, proved against a specification function:
  - `ParseInputLines`, `RemoveSinglelineComments`, `SplitInputLines`, `SplitItems`, `ParseLoras`, `ResolvePath`;
  - the `while True` loop of `_process_directives`;
  - the step-by-step context updates of `build_prompt`.
- The resolver's shared memo dictionary is the `cache` field of the class `VariableBuilder.Resolver`.
  - Ghost state beside it records the call structure. `trace` lists every expansion so far: the name, the chosen variant, the condition outcomes, the value and the frames open above it. `open` holds the frames of the expansions still running; their names are the call stack.
  - `Valid()` says four things. Every cached value is the filling of a variant of its name, against the cache as it stood before. Each such filling has every piece settled under the stack it ran with. The recorded expansions nest the way the recursion does. Each open frame is a variant mentioned by the text beneath it.
  - The recursion is also given as plain functions: `ResolveWith`, `ReplWith` and `PassWith`. They compute the source's answer once its random draws are fixed: the variant each expanded name drew, and each IF/IFNOT placeholder's test outcome. `ChoicesOf(trace)` reads these draws off the trace. Each method's result and new cache equal its function's under those draws. So the order in which placeholders are replaced, and in which names that refer to each other are cached, is the source's.
  - `ResolveVariable`, `Expand`, `Repl` and `ReplacePlaceholders` therefore carry ghost preconditions that tie their arguments to this state: the stack is the names of the open frames, and the name, placeholder or text comes from the text currently being passed over. In the source these functions are called only from that position, so the preconditions exclude no call the source makes.
- `random.choice` is a nondeterministic choice inside methods. What it may produce is stated by ghost "possible outcome" predicates.

**Where the code and its help text disagree, the model follows the code.**
- Comment stripping removes `/* */` spans and `#` to end of line, but not `//` (nodes/utilities.py:85-98), although the prompt builder's help text (nodes/text/prompt_builder.py:31) mentions `//`.
- The default line of INPUT_VAR is kept unstripped (nodes/utilities.py:35).
- `re.split` receives `re.I + re.M` positionally, so it acts as `maxsplit=10` (nodes/utilities.py:10, `Utilities.MaxSplit`).
- `_process_directives` takes the leftmost opener up to the first matching stop tag, not the innermost block its docstring promises (nodes/text/prompt_builder.py:129-160).
- Toggle tags are kept or dropped by their own value alone; the GROUP part is matched but not used, so the mutual exclusion the help text promises (nodes/text/prompt_builder.py:28) is not implemented (nodes/text/prompt_builder.py:258-269).
- `compiled_prompt` is stored in the context before the extra block is compiled, so `{{compiled_prompt}}` in the extra block sees the compiled main text before the `promptTextActive` gate (nodes/text/prompt_builder.py:290-306, `PromptBuilder.ExtraSeesCompiled`).

## Model

| member | source | states |
|---|---|---|
| Utilities.SplitInputLines | nodes/utilities.py:6-20 | a string with a line break is split by the blank-trimming separator pattern with maxsplit 10; any other scalar is one stripped line; a list gives its non-None items stripped, in order |
| Utilities.SplitLineSepsSpec | nodes/utilities.py:10 | the split gives 1 to maxsplit+1 pieces; each piece before a cut has no line break and no trailing blank, each piece after a cut no leading blank, and the last piece has no line break unless the cut limit was reached |
| Utilities.PresentStrippedAreStripped | nodes/utilities.py:15-20 | every line of a list input is already stripped |
| Utilities.ParseInputLines | nodes/utilities.py:23-36 | the loop yields exactly the definitions map and the default line of the lines (the later definition overriding) |
| Utilities.PrefixStep | nodes/utilities.py:27-35 | one more line adds its definition (stripped name to stripped value), or becomes the default when non-empty without `=`, or changes nothing |
| Utilities.DefinitionsHasKey | nodes/utilities.py:31-33 | the stripped name before the first `=` of every definition line is a key |
| Utilities.DefinitionsKeyDefined | nodes/utilities.py:31-33 | every key is defined by some line |
| Utilities.DefinitionsLast | nodes/utilities.py:31-33 | a name maps to the stripped value of its last definition |
| Utilities.DefaultOfSpec | nodes/utilities.py:25-35 | the default is "" exactly when no non-empty line lacks `=`; otherwise it is the last such line, unstripped |
| Utilities.Variants | nodes/utilities.py:40 | there is one stripped variant per `|`-segment, never none |
| Utilities.VariantsSingle | nodes/utilities.py:40 | a value without `|` has the single variant value.strip() |
| Utilities.ChooseVariant | nodes/utilities.py:39-41 | the result is one of the stripped `|`-segments; without `|` it is the stripped value |
| Utilities.EvaluatePartBool | nodes/utilities.py:44-49 | a true/false literal (any case) decides; otherwise the result is the truthiness of one possible variant of the named raw value ("" when absent) |
| Utilities.EvaluateAll | nodes/utilities.py:64-66 | the result is a possible outcome of all() over the parts, stopping at the first false |
| Utilities.EvaluateAny | nodes/utilities.py:67-69 | the result is a possible outcome of any() over the parts, stopping at the first true |
| Utilities.RawAsBool | nodes/utilities.py:52-75 | a possible outcome of the rules in order: default keyword with a non-empty default; literal; `&&` (taking precedence over `\|\|`); `\|\|`; plain variable |
| Utilities.PlainVariableCan | nodes/utilities.py:73-75 | a token that is not a default keyword, literal or compound is judged by one variant of its raw value |
| Utilities.VariantOfEmpty | nodes/utilities.py:47-49 | an unknown variable (raw value "") is false, only |
| Utilities.ValueCanGet | nodes/utilities.py:47-48 | a missing name behaves exactly like the empty raw value |
| Utilities.VariantOfSingle | nodes/utilities.py:48-49 | a value without `|` is true exactly when its stripped self is truthy |
| Utilities.SingleVariantVariable | nodes/utilities.py:73-75 | a plain variable with a `|`-free value is true iff the stripped value, lowered, is not "", "0", "false" or "none" |
| Utilities.StripQuotes | nodes/utilities.py:78-82 | Some exactly when the stripped token has at least 2 characters and starts and ends with `"`; then the quotes wrapped around the result give the stripped token back |
| Utilities.StripQuotesOfQuoted | nodes/utilities.py:78-82 | quoting a text and stripping the quotes gives the text back |
| Utilities.BlockCommentSpec | nodes/utilities.py:86 | a block comment match runs from its opening slash-star to the first closing star-slash after it (non-greedy, across lines), and there is none without a closer |
| Utilities.NoOpenerKept | nodes/utilities.py:85-86 | text in which no slash-star occurs is returned unchanged |
| Utilities.RemoveSinglelineComments | nodes/utilities.py:89-93 | the loop yields the lines of splitlines, each cut at its first `#`, joined with "\n" |
| Utilities.SinglelineCommentsRemovedSpec | nodes/utilities.py:89-93 | no `#` remains; splitting the result on "\n" gives back exactly the cut lines, one per input line |
| Utilities.StripAllComments | nodes/utilities.py:96-98 | block comments are removed first, then line comments |
| Utilities.StrippedHasNoHash | nodes/utilities.py:96-98 | no `#` survives strip_all_comments |
| Utilities.PlainLineKept | nodes/utilities.py:85-98 | a non-empty line with no line break, no `#` and no `/*` comes through strip_all_comments unchanged |
| VariableBuilder.PlaceholderAt | nodes/text/variable_builder.py:79 | a match opens with `{{`, closes with `}}` and has no brace in between |
| VariableBuilder.Resolver.ResolveVariable | nodes/text/variable_builder.py:81-102 | the result and the new cache are exactly `ResolveWith` of the name, the stack and the old cache under the draws the trace records, and the call only adds draws; the result is also the name's lookup in the updated cache (the default for a reserved name, else the cached value, else ""); a name that is reserved, cached, on the stack, unknown or empty leaves the cache unchanged; otherwise the result is the filling of one of its variants, every piece of which is settled with the name pushed on the stack, and it is cached under the name |
| VariableBuilder.Resolver.Expand | nodes/text/variable_builder.py:99-102 | a defined, non-empty, uncached name off the stack gets the pass over the given variant with the name pushed; the result and the new cache are exactly `ResolveWith` under the recorded draws, the draws now include this variant and its outcomes, and the value is cached under the name and recorded as the next step of the trace with the frames open above it; its pieces are all settled under the pushed stack |
| VariableBuilder.Resolver.Repl | nodes/text/variable_builder.py:107-169 | the result and the new cache are exactly `ReplWith` of the group under the recorded draws and the returned condition outcome; that outcome is the one raw_as_bool gives; the value follows repl's chain of tests (default, DATE, TIME, IF/IFNOT, `??`, quoted literal, variable) and the placeholder is settled under the current stack |
| VariableBuilder.Resolver.ReplacePlaceholders | nodes/text/variable_builder.py:104-171 | the result and the new cache are exactly `PassWith` over the text's pieces, from the left, under the recorded draws; the result is also the pieces with every match replaced by its value in the final cache, every piece settled in that cache, and the cache an honest, nested trace of expansions |
| VariableBuilder.ResolveWith | nodes/text/variable_builder.py:81-102 | resolve_variable once its random draws are given: the default line for a reserved name, the cached value, "" on a cycle or for an unknown or empty variable, and otherwise the pass over the drawn variant with the name pushed, after which the name is cached; the cache only grows |
| VariableBuilder.ReplWith | nodes/text/variable_builder.py:107-169 | repl once the draws and the test outcome are given, branch for branch; the cache only grows |
| VariableBuilder.PassWith | nodes/text/variable_builder.py:171 | `re.sub` of repl: the placeholders are replaced from the left, each seeing the cache the ones before it left behind; the cache only grows |
| VariableBuilder.ResolveFrame | nodes/text/variable_builder.py:99-101 | draws for names a resolution never caches do not change its value or its cache |
| VariableBuilder.PassFrame | nodes/text/variable_builder.py:171 | the same for a whole pass |
| VariableBuilder.ChoicesVariants | nodes/text/variable_builder.py:99 | every draw of an honest trace is one of its name's variants |
| VariableBuilder.CrossedPass | nodes/text/variable_builder.py:81-171 | with `a` defined as `{{b}}` and `b` as `c{{a}}`, the template `{{a}}{{b}}` fills to `cc` whatever the draws: `b`, expanded inside `a` with `a` on the stack, is cached as `c`, and the second placeholder reads that cached value |
| VariableBuilder.CrossedOutput | nodes/text/variable_builder.py:62-185 | the node named `v` with the switch on, the template `{{a}}{{b}}` and the input lines `a={{b}}` and `b=x{{a}}` outputs `v = xx` |
| VariableBuilder.GetVariable | nodes/text/variable_builder.py:62-185 | the environment is the parse of INPUT_VAR; when the switch is on, the filled template is exactly `PassWith` over the comment-stripped template's pieces from an empty cache and stack, under the draws of an honest trace whose cache is the final one; every placeholder is settled; with the switch off nothing is expanded; the result is the wrapping of that value |
| VariableBuilder.DefaultPlaceholder | nodes/text/variable_builder.py:110-112 | `{{}}`, `{{default}}` and `{{_}}`, in any case and with any padding, give the default line |
| VariableBuilder.ReservedLookup | nodes/text/variable_builder.py:83-84 | the exact names default, def and _ resolve to the default line |
| VariableBuilder.UnknownResolvesEmpty | nodes/text/variable_builder.py:95-97 | an unknown or empty-valued variable resolves to "" |
| VariableBuilder.MalformedConditional | nodes/text/variable_builder.py:122-126 | an IF/IFNOT placeholder with fewer than three `:`-parts gives "" |
| VariableBuilder.ConditionalBranch | nodes/text/variable_builder.py:128-147 | the condition (negated for IFNOT) picks the true token or the false token ("" when missing); a quoted token is emitted literally, any other is resolved as a variable |
| VariableBuilder.FallbackValue | nodes/text/variable_builder.py:150-161 | `var??fb` gives the variable's value when it is non-empty, else fb unquoted when quoted, else fb stripped |
| VariableBuilder.FallbackSplit | nodes/text/variable_builder.py:151 | the split is at the first `??`: the name part has none and the parts rebuild the stripped inner text |
| VariableBuilder.NoPlaceholderUnchanged | nodes/text/variable_builder.py:171 | text in which no placeholder matches is returned unchanged |
| VariableBuilder.NoBraceNoPlaceholder | nodes/text/variable_builder.py:79 | text without `{` holds no placeholder |
| VariableBuilder.FillPlain | nodes/text/variable_builder.py:171 | pieces outside any match are copied as they are |
| VariableBuilder.FillStable | nodes/text/variable_builder.py:86-87 | text whose names are settled keeps its value however the cache grows later in the call |
| VariableBuilder.LookupStable | nodes/text/variable_builder.py:86-87 | a settled name looks up identically in every later cache |
| VariableBuilder.SameGroupSameValue | nodes/text/variable_builder.py:107-169 | two non-conditional placeholders with the same text have the same value against the same cache |
| VariableBuilder.CachedHalvesEqual | nodes/text/variable_builder.py:86-101 | `{{x}}-{{x}}` fills to v + "-" + v for the one cached value v of x |
| VariableBuilder.LoneVariableFill | nodes/text/variable_builder.py:168-169 | a lone `{{n}}` for a plain name fills to that name's lookup |
| VariableBuilder.PushDecreases | nodes/text/variable_builder.py:99-100 | every recursive call pushes a raw-map name not yet on the stack, so the count of unvisited names drops and resolution terminates |
| VariableBuilder.TwoNameCycle | nodes/text/variable_builder.py:89-100 | with `a={{b}}` and `b={{a}}`, a fresh resolution of a from an empty stack and an empty cache, made while passing over the template `{{a}}`, gives "", and b ends up cached as "" |
| VariableBuilder.CycleEmpty | nodes/text/variable_builder.py:89-100 | with `a={{b}}` and `b={{a}}`, every honest trace of expansions gives a and b the value "" |
| VariableBuilder.CycleStepEmpty | nodes/text/variable_builder.py:89-100 | in such a trace, every recorded expansion of a or b has the value "" |
| VariableBuilder.TracedPrefix | nodes/text/variable_builder.py:86-101 | a prefix of an honest trace is an honest trace |
| VariableBuilder.CachedExpansion | nodes/text/variable_builder.py:86-101 | every cached name has a step in the trace that set its value, and that step is the filling of a variant of the name's raw value against the cache before it, with every piece of the variant settled under the stack the step ran with |
| VariableBuilder.DefinedVariableExpands | nodes/text/variable_builder.py:168-169 | a settled placeholder `{{x}}` for a defined, non-empty, non-reserved x has the value of the filling of one of x's variants, and every placeholder in that variant is settled under the stack the expansion ran with |
| VariableBuilder.NestedVariableExpands | nodes/text/variable_builder.py:99-101 | a variable placeholder inside an expanded variant, naming a defined, non-empty, non-reserved variable off that expansion's stack, has as its value an earlier honest expansion of that variable: nested placeholders are expanded, not emptied |
| VariableBuilder.AncestorFinishesLater | nodes/text/variable_builder.py:99-102 | every frame on the stack of a recorded expansion is finished later in the trace, by an expansion of the same name and variant under the frames below it |
| VariableBuilder.PushFrame | nodes/text/variable_builder.py:99-100 | pushing a proper frame for a name mentioned by the current text, uncached and off the stack, keeps the resolver honest |
| VariableBuilder.PopFrame | nodes/text/variable_builder.py:100-101 | recording a finished, settled expansion of the top frame and popping it keeps the resolver honest, with the name cached as its value |
| VariableBuilder.PlainValueCached | nodes/text/variable_builder.py:99-101 | a cached name whose raw value has no `|` and no `{` is cached as that value stripped |
| VariableBuilder.LoneDefinedVariable | nodes/text/variable_builder.py:168-171 | a settled template `{{n}}` for a defined, non-empty name is filled with n's cached value |
| VariableBuilder.LonePlainVariable | nodes/text/variable_builder.py:168-171 | a settled template `{{n}}` whose value has no `|` and no `{` is filled with that value stripped |
| VariableBuilder.PlainNotBelow | nodes/text/variable_builder.py:99-100 | a name whose value has no `|` and no `{` is never on the stack of another expansion |
| VariableBuilder.NestedPlainCached | nodes/text/variable_builder.py:86-102 | a cached variable whose value is `{{b}}`, for a plain name b whose value has no `|` and no `{`, is cached as b's value stripped |
| VariableBuilder.NestedPlainTemplate | nodes/text/variable_builder.py:86-171 | the settled template `{{a}}`, for a defined as `{{b}}` and such a b, fills to b's value stripped |
| VariableBuilder.HelloTemplate | nodes/text/variable_builder.py:168-171 | with `x=hello`, the settled template `{{x}}` fills to `hello` |
| VariableBuilder.LoneTemplateKept | nodes/text/variable_builder.py:174 | comment stripping keeps a template `{{n}}` whose name has no line break, `#` or `/*` |
| VariableBuilder.LonePlainOutput | nodes/text/variable_builder.py:62-185 | the node with the switch on and the template `{{n}}`, for n defined in INPUT_VAR with a value having no `|` and no `{`, outputs the wrapping of that value stripped |
| VariableBuilder.OneDefinition | nodes/utilities.py:23-37 | the input `x=hello` parses to the single definition x = hello |
| VariableBuilder.HelloOutput | nodes/text/variable_builder.py:62-185 | the node named `v` with the switch on, the template `{{x}}` and the input `x=hello` outputs `v = hello` |
| VariableBuilder.NestedPlainOutput | nodes/text/variable_builder.py:62-185 | the node with the switch on and the template `{{a}}`, for a defined in INPUT_VAR as `{{b}}` and b defined with a value having no `|` and no `{`, outputs the wrapping of b's value stripped |
| VariableBuilder.NestedHelloOutput | nodes/text/variable_builder.py:62-185 | the node named `v` with the switch on, the template `{{a}}` and the input lines `a={{b}}` and `b=hello` outputs `v = hello` |
| VariableBuilder.WrapOutput | nodes/text/variable_builder.py:179-180 | out_val_by_switch with the switch off gives "" |
| VariableBuilder.WrapOutputParts | nodes/text/variable_builder.py:182-185 | otherwise a non-blank name gives the stripped name, " = " and the value, newlines kept and the value recoverable; a blank name gives the value |
| AdvancedVariableBuilder.DynamicValuesMember | nodes/text/advanced_variable_builder.py:106-107 | a value is passed on exactly when a keyword input whose stripped name starts with `DYNAMIC_` carries it and it is non-empty |
| AdvancedVariableBuilder.DynamicValuesAppend | nodes/text/advanced_variable_builder.py:106-107 | the filter keeps keyword order |
| AdvancedVariableBuilder.WrapAdvanced | nodes/text/advanced_variable_builder.py:208-209 | out_val_by_switch with the switch off gives "" |
| AdvancedVariableBuilder.WrapAdvancedSpec | nodes/text/advanced_variable_builder.py:203-214 | with a name, the output is `name = ` followed by the value with every newline turned into a space (same length, no newline left); without one, the value unchanged |
| AdvancedVariableBuilder.GetVariable | nodes/text/advanced_variable_builder.py:93-214 | the environment comes from parse_other_vals on the dynamic values and the input lines; when the switch is on, the filled template is exactly the shared resolver's `PassWith` over the template's pieces from an empty cache and stack, under the draws of an honest trace whose cache is the final one; with the switch off nothing is expanded; the result is wrapped by the advanced rule |
| AdvancedVariableBuilder.LonePlainOutput | nodes/text/advanced_variable_builder.py:93-214 | with the switch on and the template `{{n}}`, for n defined by parse_other_vals with a value having no `|` and no `{`, the output is the advanced wrapping of that value stripped |
| AdvancedVariableBuilder.NestedPlainOutput | nodes/text/advanced_variable_builder.py:93-214 | with the switch on and the template `{{a}}`, for a defined by parse_other_vals as `{{b}}` and b with a value having no `|` and no `{`, the output is the advanced wrapping of b's value stripped |
| PromptBuilder.ToBoolRender | nodes/text/prompt_builder.py:92-95 | a boolean is itself; a value and its str() rendering ("True"/"False") are equally true; "yes", "+" and "1" are true; "", "False" and "0" are false |
| PromptBuilder.Context | nodes/text/prompt_builder.py:210-222 | keyword inputs override cached values; compiled_prompt and extra_compiled are absent; every other key comes from the keywords or the cache |
| PromptBuilder.CloserFrom | nodes/text/prompt_builder.py:193-205 | the lazy body ends at the first occurrence of either closer |
| PromptBuilder.RemoveVarsBlock | nodes/text/prompt_builder.py:232-239 | the first `[%vars%]` block, closed by `[%vars%]` or `[%/vars%]`, is cut out with its content; what surrounds it is kept |
| PromptBuilder.RemoveVarsNone | nodes/text/prompt_builder.py:232-239 | without a vars block the text is kept |
| PromptBuilder.SplitExtraBlock | nodes/text/prompt_builder.py:244-253 | the first `[%extra%]` block's body becomes the extra text and the block is cut out of the main text |
| PromptBuilder.SplitExtraNone | nodes/text/prompt_builder.py:244-253 | without an extra block the extra text is "" and the main text is kept |
| PromptBuilder.ToggleBlock | nodes/text/prompt_builder.py:258-269 | a `[[TAG]]` or `[[TAG:GROUP]]` block closed by `[[/TAG]]` or `[[TAG]]` becomes its body when the stripped tag is enabled (absent means True), and nothing otherwise; the scan goes on after the closer without rescanning the kept body |
| PromptBuilder.TogglesNoBracket | nodes/text/prompt_builder.py:258-269 | text without `[` has no toggle and is kept |
| PromptBuilder.ShortPlaceholderFill | nodes/text/prompt_builder.py:279-289 | a short `{{N}}` or `{{N:X}}` is left alone by the typed pass and replaced by str(context[N]) (or "") in the short pass |
| PromptBuilder.TypedPlaceholderFill | nodes/text/prompt_builder.py:279-289 | a typed `{{N:T:V:EV}}` is replaced by the value of N in the first pass; the short pass then scans that value once more |
| PromptBuilder.ThreeFieldsKept | nodes/text/prompt_builder.py:186-189 | `{{A:B:C}}` matches neither pattern and stays literal |
| PromptBuilder.PlaceholdersNoBrace | nodes/text/prompt_builder.py:286-289 | text without `{` goes through both placeholder passes unchanged |
| PromptBuilder.Registry | nodes/text/prompt_builder.py:98-125 | the table has the 26 rows of the directive dictionary |
| PromptBuilder.DirectiveAliases | nodes/text/prompt_builder.py:98-125 | each alias stands for the same function as its name |
| PromptBuilder.PlainRegistry | nodes/text/prompt_builder.py:138-139 | no registered tag holds a `%` |
| PromptBuilder.LookupSpec | nodes/text/prompt_builder.py:152 | a tag is found exactly when some row carries it, with that row's function |
| PromptBuilder.MatchTags | nodes/text/prompt_builder.py:139 | a match is a registered tag's opener at the start, a lazy body, and that same tag's stop tag |
| PromptBuilder.FindDirective | nodes/text/prompt_builder.py:142 | a found span has its body strictly inside its tags and within the text |
| PromptBuilder.ProcessWith | nodes/text/prompt_builder.py:134-162 | a result (the span's body processed first, the tag's function of it spliced in, the search restarted) is empty or leaves no span for the search to find |
| PromptBuilder.Process | nodes/text/prompt_builder.py:128-162 | a result has no directive span left |
| PromptBuilder.ProcessDirectives | nodes/text/prompt_builder.py:128-162 | the while-loop, with its recursive call on the span's body, computes exactly ProcessWith |
| PromptBuilder.ProcessNoBrace | nodes/text/prompt_builder.py:134-144 | text without `{` is its own result, for any fuel |
| PromptBuilder.SingleDirective | nodes/text/prompt_builder.py:141-160 | a text with one registered directive and no other `{` becomes the surrounding text with the tag's function of the body in place of the span |
| PromptBuilder.ApplyKnownTag | nodes/text/prompt_builder.py:152-157 | a registered tag's function is what the replacement applies |
| PromptBuilder.ProcessFuel | nodes/text/prompt_builder.py:141-160 | more fuel does not change a result reached with less |
| PromptBuilder.BuildPrompt | nodes/text/prompt_builder.py:173-316 | the context is merged and cleaned step by step; both outputs are the directive processing of the gated compilations of the main and extra text |
| PromptBuilder.GatesClosed | nodes/text/prompt_builder.py:291-308 | the main output is "" unless promptTextActive is truthy (default false); the extra output is "" unless the extra text is non-empty and extraActive is truthy |
| PromptBuilder.CompileCompiledKey | nodes/text/prompt_builder.py:279-290 | `{{compiled_prompt}}` in bracket- and brace-free text compiles to the value stored under that key |
| PromptBuilder.ExtraSeesCompiled | nodes/text/prompt_builder.py:290-306 | in the extra text, `{{compiled_prompt}}` gives the compiled main text before its gate |
| Directives.SpacelessSpec | nodes/text/directives.py:7-9 | the result has no leading or trailing whitespace and every whitespace run is one space |
| Directives.SpacelessIdempotent | nodes/text/directives.py:7-9 | spaceless is idempotent |
| Directives.CaseSpec | nodes/text/directives.py:11-15 | lower leaves no upper-case letter and upper no lower-case one; letters stay letters; both are idempotent and each undoes the other's case |
| Directives.TitleSpec | nodes/text/directives.py:17-18 | a letter after a letter is lower-cased, any other letter upper-cased, non-letters kept, length kept; title is idempotent |
| Directives.SentenceCaseSpec | nodes/text/directives.py:20-31 | the result is the stripped input with its first character upper-cased and every word character after `[.!?]` and whitespace upper-cased; empty input gives "" |
| Directives.TrimSpec | nodes/text/directives.py:36-37 | trim leaves no whitespace at either end, is idempotent, and keeps trimmed text |
| Directives.CollapseNewlinesSpec | nodes/text/directives.py:42-43 | no "\n\n" remains |
| Directives.CollapseNewlinesIdempotent | nodes/text/directives.py:42-43 | collapse_newlines is idempotent |
| Directives.StripPunctSpec | nodes/text/directives.py:45-47 | the result is the input with every character of string.punctuation deleted, the others kept in order |
| Directives.WithoutPunctFacts | nodes/text/directives.py:45-47 | no punctuation remains, and punctuation-free text is kept |
| Directives.ListSpec | nodes/text/directives.py:52-55 | the lines of the result are the input lines left-stripped, empty ones dropped, in order, each non-empty without leading whitespace |
| Directives.ListRightSpec | nodes/text/directives.py:57-60 | as list, with the lines also free of trailing whitespace |
| Directives.ListAndSpec | nodes/text/directives.py:62-74 | no line gives "", one line gives it, n ≥ 2 lines give the first n−1 joined by ", " then " and " and the last |
| Directives.ListAndThree | nodes/text/directives.py:62-74 | "a\nb\nc" gives "a, b and c" |
| LoraListBuilder.CleanCommentSpec | nodes/lora/wan22_lora_list_builder.py:89-92 | the cleaned text is stripped and holds no `//` |
| LoraListBuilder.LineCommentsErased | nodes/lora/wan22_lora_list_builder.py:91 | removing `//` comments to the end of the line leaves no `//`, and keeps the first character unless a comment starts there |
| LoraListBuilder.SplitItems | nodes/lora/wan22_lora_list_builder.py:157-161 | the nested loops give the non-blank stripped pieces of the lines, then `;`-segments, then `|`-pieces, in order |
| LoraListBuilder.SplitSegments | nodes/lora/wan22_lora_list_builder.py:159-160 | the inner loop over one line extends the parts with every segment's `|`-pieces |
| LoraListBuilder.TextItemsShape | nodes/lora/wan22_lora_list_builder.py:155-161 | the items of a text are non-empty, stripped, and hold no newline, `;` or `|` |
| LoraListBuilder.InputItems | nodes/lora/wan22_lora_list_builder.py:155-169 | a text is cleaned and split; a list keeps its non-blank stripped items; any other input gives none |
| LoraListBuilder.FirstTrigger | nodes/lora/wan22_lora_list_builder.py:186-194 | the first trigger in list order that the text starts with, or none when it starts with no trigger |
| LoraListBuilder.RouteSpec | nodes/lora/wan22_lora_list_builder.py:182-194 | a high trigger (checked first, on the lowered stripped text) sends the item only to high; else a low trigger only to low; else to both, text unchanged; the prefix removed has the length of the first matching trigger in list order and the rest is stripped |
| LoraListBuilder.FirstResolved | nodes/lora/wan22_lora_list_builder.py:77-86 | the first candidate file name that contains the name and has a full path; None exactly when no candidate does |
| LoraListBuilder.ResolvePath | nodes/lora/wan22_lora_list_builder.py:77-86 | the loop returns at the first candidate that resolves |
| LoraListBuilder.SplitExtRoot | nodes/lora/wan22_lora_list_builder.py:136 | the name is a prefix of the file name; when shorter, it is followed by the last `.`, after which no `.` or `/` occurs |
| LoraListBuilder.NameOfSpec | nodes/lora/wan22_lora_list_builder.py:103-124 | the name holds no `:`; without a `:` it is the stripped item |
| LoraListBuilder.ItemMetaSpec | nodes/lora/wan22_lora_list_builder.py:103-143 | an item yields metadata exactly when its name is non-empty and some candidate resolves it; its strength is the parse of the text after the last `:` or the default, and the default without `:` |
| LoraListBuilder.ParseItem | nodes/lora/wan22_lora_list_builder.py:94-143 | _parse_item computes the item's metadata as specified |
| LoraListBuilder.ParseRaw | nodes/lora/wan22_lora_list_builder.py:177-204 | an item is skipped when it is a comment or its routed text is rejected; otherwise its target lists and metadata are those of the specification |
| LoraListBuilder.ParseLoras | nodes/lora/wan22_lora_list_builder.py:145-222 | the low and high lists are the previous lists extended by the items routed to each, in input order |
| LoraListBuilder.ListsAppend | nodes/lora/wan22_lora_list_builder.py:176-209 | the lists of concatenated inputs are the concatenated lists, so input order is kept |
| LoraListBuilder.LowOfMember | nodes/lora/wan22_lora_list_builder.py:206-207 | metadata is in the low list exactly when some item routes it there |
| LoraListBuilder.ItemRouting | nodes/lora/wan22_lora_list_builder.py:177-209 | a comment item contributes nothing; a high-triggered item only to high, a low-triggered one only to low, an untriggered one to both with its text unchanged |
| LoraListBuilder.UnroutedSameLists | nodes/lora/wan22_lora_list_builder.py:182-209 | when no item carries a trigger, the low and high lists are the same |
| LoraListBuilder.NoTriggerUnrouted | nodes/lora/wan22_lora_list_builder.py:182-194 | an item without a trigger goes to both lists or none |
| MultiToggles.SelectActiveToggles | nodes/logic/multi_toggles.py:53-80 | the list output is the decoded list, or [] when it is absent or does not parse |
| MultiToggles.NormalizedHasNoEscape | nodes/logic/multi_toggles.py:67 | no backslash-n is left in the normalised delimiter |
| MultiToggles.PlainDelimiter | nodes/logic/multi_toggles.py:67 | a delimiter without a backslash is used as given |
| MultiToggles.EscapedNewline | nodes/logic/multi_toggles.py:67 | the typed escape backslash-n and the escaped-backslash form backslash-backslash-n both become a newline |
| MultiToggles.EscapedBackslashNewline | nodes/logic/multi_toggles.py:67 | the first replacement turns backslash-backslash-n into a newline and the second leaves it |
| MultiToggles.FewLabels | nodes/logic/multi_toggles.py:69-72 | no label gives "" and one label gives that label, whatever the last word |
| MultiToggles.LastWordJoin | nodes/logic/multi_toggles.py:69-70 | with a last word and two or more labels, the leading labels are joined, then " ", the word, " " and the last label |
| MultiToggles.PlainJoinSplits | nodes/logic/multi_toggles.py:71-72 | without a last word, the join with a one-character delimiter no label contains splits back into the labels |
| MultiToggles.Defaults | nodes/logic/multi_toggles.py:55-65 | nothing selected gives ""; an absent delimiter and last word give the join with ", " |
| FilesList.MakePattern | nodes/files/files_list.py:58-79 | the pattern is never empty, and an input whose stripped form holds a wildcard is returned stripped |
| FilesList.PatternIsWildcard | nodes/files/files_list.py:67-79 | the pattern always holds a wildcard |
| FilesList.StarOnly | nodes/files/files_list.py:67-74 | the pattern is `*` exactly for a blank input or a bare `*` |
| FilesList.PatternOfExtension | nodes/files/files_list.py:73-79 | a non-blank input, stripped, ends its pattern; one without a wildcard becomes `*.` and the extension without its leading dot |
| FilesList.MakePatternIdempotent | nodes/files/files_list.py:58-79 | a pattern is its own pattern |
| FilesList.MakePatternExamples | nodes/files/files_list.py:60-66 | `png` gives `*.png`, `.jpg` gives `*.jpg`, and `*.txt` and `*.*` are kept; blank input gives `*` |

## Left out

- Host metadata is not modelled: INPUT_TYPES, HELP_TEXT and its localisation, IS_CHANGED, VALIDATE_INPUTS and node registration. The help text is the third output of several nodes, and that output is not modelled.
- `logging` calls and warnings are not modelled; they have no effect on the results.
- JSON decoding is not modelled. Decoded values are parameters:
  - `cachedValues` is an `Option<map<string, Value>>`, with None for a parse error. A JSON value that parses to something other than an object is not modelled.
  - `selected` is an `Option<seq<string>>`. A decoded value that is not a list of strings is not modelled.
- PromptBuilder.Value: context values are booleans or strings only. Numbers, for which Python renders `str(1.0)`, are not modelled.
- Standard library functions with no visible source are parameters:
  - `datetime.now()`: `DATE` and `TIME` are digit strings in `Env`, fixed for the whole call. The source reads the clock again for each placeholder, so two `{{TIME}}` placeholders can differ there; the model gives them one value.
  - `textwrap.dedent` and `html.unescape`: the `dedent` and `unescape` arguments of `PromptBuilder.Registry`.
  - `folder_paths.get_filename_list` and `get_full_path`: the `Library` datatype.
  - `round(float(s), 4)`: `Library.parseStrength`, a partial function on strings. Floating point is not modelled.
- LoraListBuilder.ResolvePath: `Library.fullPath` is None exactly where `get_full_path` raises. A `get_full_path` that returns None without raising, for which the source returns `(None, fn)`, is not modelled.
- Utilities.SplitInputLines: no round trip is claimed, because the separators are dropped and the lines are stripped.
- `parse_other_vals` is not defined in the repository's utilities and is a function parameter of `AdvancedVariableBuilder.GetVariable`.
- Strings.Lower, Strings.Upper and Directives.Title use ASCII case mapping only. Unicode case mapping, `str.title`'s treatment of non-ASCII letters, and Unicode whitespace and word characters are not modelled.
- Strings.SplitLines: `splitlines` breaks on "\n", "\r" and "\r\n" only. The other Unicode line boundaries are not modelled.
- PromptBuilder.ProcessWith carries a fuel bound and returns None when it runs out, so termination of `_process_directives` is not claimed. Termination cannot be claimed in general: `lower` can turn `{%SL%}` into a live tag, and `list_and` can lengthen text.
- PromptBuilder.ProcessDirectives is modelled over a generic search function. `PromptBuilder.BuildPrompt` instantiates it with the registry's pattern.
- Utilities.RawAsBool, Utilities.ChooseVariant, Utilities.EvaluatePartBool, Utilities.EvaluateAll and Utilities.EvaluateAny: `random.choice` is a nondeterministic choice, so their contracts state the possible outcomes rather than one value.
- LoraListBuilder.ParseLoras: list items are given as their `str()` renderings.
- LoraListBuilder.ParseLoras: a `blocks` input that is not a dictionary is not modelled. Its two keys are optional fields of `Blocks`.
- LoraListBuilder.SplitExtRoot follows `posixpath.splitext` with `/` as the separator. Windows path rules are not modelled.
- The property that comment stripping is idempotent is not claimed, because it is false: `//**/*x*/` gives `/*x*/` after one pass and `""` after two.
- FilesList.process (globbing, `stat`, sorting by time or size) is not modelled; it is file-system I/O.
- Not modelled: `custom_combo.py` (a passthrough), `simple.py` (it depends on an `is_empty_text` that the repository does not define) and `global_utils.py` (locale file loading).
