/**
  The placeholder resolver of the variable builder nodes
  (TextVariableBuilder.get_variable in nodes/text/variable_builder.py, and the
  same resolver in nodes/text/advanced_variable_builder.py).

  `{{...}}` spans of a template are replaced in one leftmost, non-overlapping
  pass; a variable is expanded recursively from a random `|`-variant of its
  raw value.  One call shares a memo cache, so a variable keeps the value it
  got first, and a call stack, so a cyclic reference yields "".

  The current date and time are parameters (`Env.date`, `Env.time`: the
  digits `str(int(strftime(...)))` would give).
 */
module VariableBuilder {
  import opened Wrappers
  import opened Strings
  import opened Utilities
  import Regex

  /** What one get_variable call resolves against. */
  datatype Env = Env(raw: map<string, string>, default: string, date: string, time: string)

  /** Names that resolve_variable maps to the default line, compared exactly. */
  predicate Reserved(name: string) { name in {"default", "def", "_"} }

  // ---------------------------------------------------------------------
  // Placeholders
  // ---------------------------------------------------------------------

  /** Matcher for `\{\{([^{}]*)\}\}`. */
  function PlaceholderAt(s: string): (n: nat)
    ensures n <= |s|
    ensures n > 0 ==> (n >= 4 && s[..2] == "{{" && s[n - 2..n] == "}}"
      && forall i :: 2 <= i < n - 2 ==> NotBrace(s[i]))
  {
    if |s| >= 4 && s[0] == '{' && s[1] == '{' then
      var j := Regex.RunEnd(s, 2, NotBrace);
      if j + 1 < |s| && s[j] == '}' && s[j + 1] == '}' then j + 2 else 0
    else 0
  }

  /** The text between the braces of a placeholder match (group 1). */
  function Inner(t: string): string {
    if |t| >= 4 then t[2..|t| - 2] else ""
  }

  /** How repl reads the stripped inner text of a placeholder. */
  datatype Kind =
    | DefaultRef
    | DateRef
    | TimeRef
    | Malformed
    | Cond(negate: bool, token: string, ifTrue: string, ifFalse: string)
    | Fallback(name: string, fallback: string)
    | Literal(text: string)
    | VarRef(name: string)

  /** repl's chain of tests, in the order the source makes them. */
  function Classify(group: string): Kind {
    var inner := Strip(group);
    var upper := Upper(inner);
    if Lower(inner) in {"", "default", "_"} then DefaultRef
    else if upper == "DATE" then DateRef
    else if upper == "TIME" then TimeRef
    else if StartsWith(upper, "IF:") || StartsWith(upper, "IFNOT:") then
      var parts := Split(inner, ":");
      if |parts| < 3 then Malformed
      else Cond(StartsWith(upper, "IFNOT:"), parts[1], parts[2], if |parts| > 3 then parts[3] else "")
    else if Contains(inner, "??") then Fallback(Before(inner, "??"), After(inner, "??"))
    else
      match StripQuotes(inner)
      case Some(l) => Literal(l)
      case None => VarRef(inner)
  }

  // ---------------------------------------------------------------------
  // Values of placeholders, given the cache
  // ---------------------------------------------------------------------

  /**
    What resolve_variable has returned for `name`, read off the cache it
    leaves behind: the default for a reserved name, the cached expansion, or
    "" for a name that is unknown, empty-valued or on the stack.
   */
  function Lookup(name: string, env: Env, cache: map<string, string>): string {
    if Reserved(name) then env.default
    else if name in cache then cache[name]
    else ""
  }

  /** The value of a `??` fallback text: its quoted content, or the text stripped. */
  function FallbackText(fb: string): string {
    match StripQuotes(Strip(fb))
    case Some(l) => l
    case None => Strip(fb)
  }

  /** The branch a conditional takes when its (already negated) condition is `cond`. */
  function Branch(k: Kind, cond: bool): string
    requires k.Cond?
  {
    if cond then k.ifTrue else k.ifFalse
  }

  /** The value repl gives a placeholder; `cond` is the outcome of a conditional's test after IFNOT. */
  function HoleValue(group: string, env: Env, cache: map<string, string>, cond: bool): string {
    var k := Classify(group);
    match k
    case DefaultRef => env.default
    case DateRef => env.date
    case TimeRef => env.time
    case Malformed => ""
    case Cond(_, _, _, _) =>
      (match StripQuotes(Branch(k, cond))
       case Some(l) => l
       case None => Lookup(Branch(k, cond), env, cache))
    case Fallback(name, fb) =>
      var v := Lookup(Strip(name), env, cache);
      if v != "" then v else FallbackText(fb)
    case Literal(l) => l
    case VarRef(name) => Lookup(name, env, cache)
  }

  /** `cond` is a possible outcome of a placeholder's test: raw_as_bool, negated by IFNOT. */
  ghost predicate CondOk(group: string, env: Env, cond: bool) {
    var k := Classify(group);
    k.Cond? ==> BoolCan(k.token, env.raw, env.default, cond != k.negate)
  }

  /** The value of one piece of the scan. */
  function PieceValue(p: Regex.Piece, env: Env, cache: map<string, string>, cond: bool): string {
    match p
    case Plain(c) => [c]
    case Found(t) => HoleValue(Inner(t), env, cache, cond)
  }

  /** `re.sub(placeholder_pattern, repl, text)` on the scanned pieces, with one test outcome per piece. */
  function Fill(ps: seq<Regex.Piece>, env: Env, cache: map<string, string>, conds: seq<bool>): string
    requires |conds| == |ps|
    decreases |ps|
  {
    if ps == [] then ""
    else Fill(ps[..|ps| - 1], env, cache, conds[..|ps| - 1]) + PieceValue(ps[|ps| - 1], env, cache, conds[|ps| - 1])
  }

  ghost predicate CondsOk(ps: seq<Regex.Piece>, env: Env, conds: seq<bool>)
    requires |conds| == |ps|
  {
    forall i :: 0 <= i < |ps| && ps[i].Found? ==> CondOk(Inner(ps[i].text), env, conds[i])
  }

  // ---------------------------------------------------------------------
  // Cache discipline
  // ---------------------------------------------------------------------

  /** The cache only ever holds expansions of non-reserved names with a non-empty raw value. */
  ghost predicate CacheOk(env: Env, cache: map<string, string>) {
    forall k :: k in cache ==> k in env.raw && env.raw[k] != "" && !Reserved(k)
  }

  /** From `c0` to `c1` the cache kept its entries and gained only names not on `stack`. */
  ghost predicate Grows(c0: map<string, string>, c1: map<string, string>, stack: seq<string>) {
    && (forall k :: k in c0 ==> k in c1 && c1[k] == c0[k])
    && (forall k :: k in c1 && k !in c0 ==> k !in stack)
  }

  /** Nothing that happens later under `stack` can change what `name` looks up to. */
  ghost predicate Settled(name: string, env: Env, cache: map<string, string>, stack: seq<string>) {
    Reserved(name) || name in cache || name in stack || name !in env.raw || env.raw[name] == ""
  }

  /** The names a placeholder looked up are settled. */
  ghost predicate HoleSettled(group: string, env: Env, cache: map<string, string>, stack: seq<string>, cond: bool) {
    var k := Classify(group);
    match k
    case Cond(_, _, _, _) => StripQuotes(Branch(k, cond)).Some? || Settled(Branch(k, cond), env, cache, stack)
    case Fallback(name, _) => Settled(Strip(name), env, cache, stack)
    case VarRef(name) => Settled(name, env, cache, stack)
    case _ => true
  }

  ghost predicate PiecesSettled(ps: seq<Regex.Piece>, env: Env, cache: map<string, string>, stack: seq<string>, conds: seq<bool>)
    requires |conds| == |ps|
  {
    forall i :: 0 <= i < |ps| && ps[i].Found? ==> HoleSettled(Inner(ps[i].text), env, cache, stack, conds[i])
  }

  lemma {:induction false} GrowsTrans(c0: map<string, string>, c1: map<string, string>, c2: map<string, string>, stack: seq<string>)
    requires Grows(c0, c1, stack) && Grows(c1, c2, stack)
    ensures Grows(c0, c2, stack)
  {
  }

  /** A settled name looks up the same in every later cache. */
  lemma {:induction false} LookupStable(name: string, env: Env, c0: map<string, string>, c1: map<string, string>, stack: seq<string>)
    requires Settled(name, env, c0, stack) && Grows(c0, c1, stack) && CacheOk(env, c1)
    ensures Lookup(name, env, c1) == Lookup(name, env, c0) && Settled(name, env, c1, stack)
  {
  }

  /** A placeholder whose names are settled keeps its value in every later cache. */
  lemma {:induction false} HoleStable(group: string, env: Env, c0: map<string, string>, c1: map<string, string>, stack: seq<string>, cond: bool)
    requires HoleSettled(group, env, c0, stack, cond) && Grows(c0, c1, stack) && CacheOk(env, c1)
    ensures HoleValue(group, env, c1, cond) == HoleValue(group, env, c0, cond)
    ensures HoleSettled(group, env, c1, stack, cond)
  {
    var k := Classify(group);
    match k {
      case Cond(_, _, _, _) =>
        if StripQuotes(Branch(k, cond)).None? {
          LookupStable(Branch(k, cond), env, c0, c1, stack);
        }
      case Fallback(name, _) => LookupStable(Strip(name), env, c0, c1, stack);
      case VarRef(name) => LookupStable(name, env, c0, c1, stack);
      case _ =>
    }
  }

  /** Filled text whose names are settled keeps its value in every later cache. */
  lemma {:induction false} FillStable(ps: seq<Regex.Piece>, env: Env, c0: map<string, string>, c1: map<string, string>,
                                      stack: seq<string>, conds: seq<bool>)
    requires |conds| == |ps|
    requires PiecesSettled(ps, env, c0, stack, conds) && Grows(c0, c1, stack) && CacheOk(env, c1)
    ensures Fill(ps, env, c1, conds) == Fill(ps, env, c0, conds)
    ensures PiecesSettled(ps, env, c1, stack, conds)
    decreases |ps|
  {
    if ps != [] {
      var n := |ps| - 1;
      FillStable(ps[..n], env, c0, c1, stack, conds[..n]);
      if ps[n].Found? {
        HoleStable(Inner(ps[n].text), env, c0, c1, stack, conds[n]);
      }
      forall i | 0 <= i < |ps| && ps[i].Found? ensures HoleSettled(Inner(ps[i].text), env, c1, stack, conds[i]) {
        if i < n {
          assert ps[..n][i] == ps[i] && conds[..n][i] == conds[i];
        }
      }
    }
  }

  /** Appending one piece to filled text. */
  lemma {:induction false} FillSnoc(ps: seq<Regex.Piece>, p: Regex.Piece, env: Env, cache: map<string, string>, conds: seq<bool>, cond: bool)
    requires |conds| == |ps|
    ensures Fill(ps + [p], env, cache, conds + [cond]) == Fill(ps, env, cache, conds) + PieceValue(p, env, cache, cond)
  {
    assert (ps + [p])[..|ps|] == ps;
    assert (conds + [cond])[..|ps|] == conds;
  }

  /** One step of the pass: the text so far keeps its value and the next piece is appended. */
  lemma {:induction false} FillStep(ps: seq<Regex.Piece>, i: nat, env: Env, c0: map<string, string>, c1: map<string, string>,
                 stack: seq<string>, conds: seq<bool>, cond: bool, r: string, v: string)
    requires |conds| == i < |ps|
    requires r == Fill(ps[..i], env, c0, conds) && CondsOk(ps[..i], env, conds)
    requires PiecesSettled(ps[..i], env, c0, stack, conds)
    requires Grows(c0, c1, stack) && CacheOk(env, c1)
    requires v == PieceValue(ps[i], env, c1, cond)
    requires ps[i].Found? ==> CondOk(Inner(ps[i].text), env, cond) && HoleSettled(Inner(ps[i].text), env, c1, stack, cond)
    ensures r + v == Fill(ps[..i + 1], env, c1, conds + [cond])
    ensures CondsOk(ps[..i + 1], env, conds + [cond])
    ensures PiecesSettled(ps[..i + 1], env, c1, stack, conds + [cond])
  {
    assert ps[..i + 1] == ps[..i] + [ps[i]];
    FillStable(ps[..i], env, c0, c1, stack, conds);
    FillSnoc(ps[..i], ps[i], env, c1, conds, cond);
    SnocConds(ps[..i], ps[i], env, conds, cond);
    SnocSettled(ps[..i], ps[i], env, c1, stack, conds, cond);
  }

  /** A piece whose condition is consistent keeps the conditions consistent. */
  lemma {:induction false} SnocConds(qs: seq<Regex.Piece>, p: Regex.Piece, env: Env, conds: seq<bool>, cond: bool)
    requires |conds| == |qs| && CondsOk(qs, env, conds)
    requires p.Found? ==> CondOk(Inner(p.text), env, cond)
    ensures CondsOk(qs + [p], env, conds + [cond])
  {
    assert forall j :: 0 <= j < |qs| ==> (qs + [p])[j] == qs[j] && (conds + [cond])[j] == conds[j];
  }

  /** A settled piece keeps the pieces settled. */
  lemma {:induction false} SnocSettled(qs: seq<Regex.Piece>, p: Regex.Piece, env: Env, cache: map<string, string>, stack: seq<string>,
                    conds: seq<bool>, cond: bool)
    requires |conds| == |qs| && PiecesSettled(qs, env, cache, stack, conds)
    requires p.Found? ==> HoleSettled(Inner(p.text), env, cache, stack, cond)
    ensures PiecesSettled(qs + [p], env, cache, stack, conds + [cond])
  {
    assert forall j :: 0 <= j < |qs| ==> (qs + [p])[j] == qs[j] && (conds + [cond])[j] == conds[j];
  }

  // ---------------------------------------------------------------------
  // The resolver
  // ---------------------------------------------------------------------

  /** The raw-map names not yet on the stack: the measure every expansion decreases. */
  function Unvisited(raw: map<string, string>, stack: seq<string>): nat {
    |raw.Keys - (set x | x in stack)|
  }

  /** Pushing an unvisited raw-map name shrinks the measure. */
  lemma {:induction false} PushDecreases(raw: map<string, string>, stack: seq<string>, name: string)
    requires name in raw && name !in stack
    ensures Unvisited(raw, stack + [name]) < Unvisited(raw, stack)
  {
    var before := raw.Keys - (set x | x in stack);
    var after := raw.Keys - (set x | x in stack + [name]);
    assert before == after + {name};
    assert name !in after;
  }

  /** A name resolve_variable would expand (and then cache) rather than answer directly. */
  ghost predicate Expands(name: string, env: Env, cache: map<string, string>, stack: seq<string>) {
    !Settled(name, env, cache, stack)
  }

  // ---------------------------------------------------------------------
  // How the cache came about
  // ---------------------------------------------------------------------

  /** An expansion in progress: the name resolve_variable pushed on the stack and the variant it is filling. */
  datatype Frame = Frame(name: string, variant: string)

  /** The stack of names a chain of frames stands for. */
  function Names(frames: seq<Frame>): (r: seq<string>)
    ensures |r| == |frames| && forall f :: 0 <= f < |frames| ==> r[f] == frames[f].name
  {
    seq(|frames|, f requires 0 <= f < |frames| => frames[f].name)
  }

  /** The names repl may resolve for a placeholder: either branch of a conditional, a fallback's name, a variable. */
  function Refs(group: string): set<string> {
    match Classify(group)
    case Cond(_, _, ifTrue, ifFalse) => {ifTrue, ifFalse}
    case Fallback(name, _) => {Strip(name)}
    case VarRef(name) => {name}
    case _ => {}
  }

  /** The groups of the placeholders among the pieces. */
  function GroupsOf(ps: seq<Regex.Piece>): set<string>
    decreases |ps|
  {
    if ps == [] then {}
    else GroupsOf(ps[..|ps| - 1]) + (match ps[|ps| - 1] case Plain(_) => {} case Found(t) => {Inner(t)})
  }

  /** The names a pass over the pieces may resolve. */
  function RefsOf(ps: seq<Regex.Piece>): set<string>
    decreases |ps|
  {
    if ps == [] then {}
    else RefsOf(ps[..|ps| - 1]) + (match ps[|ps| - 1] case Plain(_) => {} case Found(t) => Refs(Inner(t)))
  }

  /** Some placeholder of `text` has the group `group`. */
  ghost predicate Occurs(text: string, group: string) {
    group in GroupsOf(Regex.Pieces(PlaceholderAt, text))
  }

  /** The pass over `text` may resolve `name`: some placeholder of it refers to the name. */
  ghost predicate Mentions(text: string, name: string) {
    name in RefsOf(Regex.Pieces(PlaceholderAt, text))
  }

  /** Every placeholder piece contributes its group. */
  lemma {:induction false} FoundInGroups(ps: seq<Regex.Piece>, i: nat)
    requires i < |ps| && ps[i].Found?
    ensures Inner(ps[i].text) in GroupsOf(ps)
    decreases |ps|
  {
    var n := |ps| - 1;
    if i < n {
      FoundInGroups(ps[..n], i);
    }
  }

  /** A name a group may resolve is one the pass over its pieces may resolve. */
  lemma {:induction false} GroupRefs(ps: seq<Regex.Piece>, group: string, name: string)
    requires group in GroupsOf(ps) && name in Refs(group)
    ensures name in RefsOf(ps)
    decreases |ps|
  {
    var n := |ps| - 1;
    if group !in (match ps[n] case Plain(_) => {} case Found(t) => {Inner(t)}) {
      GroupRefs(ps[..n], group, name);
    }
  }

  lemma {:induction false} OccursMentions(text: string, group: string, name: string)
    requires Occurs(text, group) && name in Refs(group)
    ensures Mentions(text, name)
  {
    GroupRefs(Regex.Pieces(PlaceholderAt, text), group, name);
  }

  /** A frame is a defined, non-empty, non-reserved name filling one of its variants. */
  ghost predicate FrameOk(env: Env, fr: Frame) {
    fr.name in env.raw && env.raw[fr.name] != "" && !Reserved(fr.name) && fr.variant in Variants(env.raw[fr.name])
  }

  /** The text whose pass works at depth `f` of the frames: the root template, or the variant of the frame below. */
  function TextAt(root: string, frames: seq<Frame>, f: nat): string
    requires f <= |frames|
  {
    if f == 0 then root else frames[f - 1].variant
  }

  /**
    The frames are a chain of nested expansions started by the pass over the
    root template: each frame's name is mentioned by the text beneath it and
    is not already on the chain.
   */
  ghost predicate ChainOk(env: Env, root: string, frames: seq<Frame>)
    decreases |frames|
  {
    frames == [] ||
      (var n := |frames| - 1;
       && ChainOk(env, root, frames[..n])
       && FrameOk(env, frames[n])
       && Mentions(TextAt(root, frames, n), frames[n].name)
       && frames[n].name !in Names(frames[..n]))
  }

  /**
    One expansion resolve_variable cached: the name, the variant it chose,
    the test outcomes met, the value, and the frames of the expansions it ran
    inside (their names are the stack it was called with).
   */
  datatype Step = Step(name: string, variant: string, conds: seq<bool>, value: string, frames: seq<Frame>)

  /** The cache the steps leave behind, each step adding its name. */
  function CacheOf(trace: seq<Step>): map<string, string>
    decreases |trace|
  {
    if trace == [] then map[]
    else CacheOf(trace[..|trace| - 1])[trace[|trace| - 1].name := trace[|trace| - 1].value]
  }

  /**
    A step is one honest expansion against the cache `before` it: an unknown
    or empty or reserved name is never expanded, a name is expanded once, the
    variant is one of its raw value's, the step ends a chain of expansions
    from the root template that are all still unfinished, the names its
    variant refers to are settled with its own name pushed on that stack,
    and the value is the pass over the variant with the names cached so far.
   */
  ghost predicate StepOk(st: Step, env: Env, root: string, before: map<string, string>) {
    var ps := Regex.Pieces(PlaceholderAt, st.variant);
    && FrameOk(env, Frame(st.name, st.variant)) && st.name !in before
    && ChainOk(env, root, st.frames + [Frame(st.name, st.variant)])
    && (forall f :: 0 <= f < |st.frames| ==> st.frames[f].name !in before)
    && |st.conds| == |ps|
    && CondsOk(ps, env, st.conds)
    && PiecesSettled(ps, env, before, Names(st.frames) + [st.name], st.conds)
    && st.value == Fill(ps, env, before, st.conds)
  }

  /** Every step of the trace is an honest expansion against the cache of the steps before it. */
  ghost predicate Traced(env: Env, root: string, trace: seq<Step>) {
    forall j :: 0 <= j < |trace| ==> StepOk(trace[j], env, root, CacheOf(trace[..j]))
  }

  /** Wherever `inner` has `outer`'s name among its frames, it ran inside `outer`: same variant, same frames below. */
  ghost predicate Encloses(outer: Step, inner: Step) {
    forall f :: 0 <= f < |inner.frames| && inner.frames[f].name == outer.name ==>
      inner.frames[f].variant == outer.variant && inner.frames[..f] == outer.frames
  }

  /** Steps nest as the recursion does: a step finishes after every step that ran inside it. */
  ghost predicate Nested(trace: seq<Step>) {
    forall j, k :: 0 <= j < k < |trace| ==> Encloses(trace[k], trace[j])
  }

  /** The frames of a step that have not finished are the bottom of the open stack. */
  ghost predicate OpenPrefix(frames: seq<Frame>, open: seq<Frame>, cache: map<string, string>) {
    forall f :: 0 <= f < |frames| && frames[f].name !in cache ==> f < |open| && frames[..f + 1] == open[..f + 1]
  }

  /**
    The state of one get_variable call is honest: the cache is the trace's,
    every step is honest and nested, and the open frames are an unfinished
    chain from the root template that every step's unfinished frames begin.
   */
  ghost predicate Honest(env: Env, root: string, cache: map<string, string>, trace: seq<Step>, open: seq<Frame>) {
    && CacheOk(env, cache) && cache == CacheOf(trace)
    && Traced(env, root, trace) && Nested(trace)
    && ChainOk(env, root, open) && (forall f :: 0 <= f < |open| ==> open[f].name !in cache)
    && (forall j :: 0 <= j < |trace| ==> OpenPrefix(trace[j].frames, open, cache))
  }

  /** Appending an honest step keeps the trace honest. */
  lemma {:induction false} TraceSnoc(env: Env, root: string, trace: seq<Step>, st: Step)
    requires Traced(env, root, trace) && StepOk(st, env, root, CacheOf(trace))
    ensures Traced(env, root, trace + [st])
    ensures CacheOf(trace + [st]) == CacheOf(trace)[st.name := st.value]
  {
    var t := trace + [st];
    assert t[..|trace|] == trace;
    forall j | 0 <= j < |t| ensures StepOk(t[j], env, root, CacheOf(t[..j])) {
      if j < |trace| {
        assert t[..j] == trace[..j];
      }
    }
  }

  /** Caching a known, non-empty, non-reserved name keeps the cache disciplined. */
  lemma {:induction false} CacheOkInsert(env: Env, cache: map<string, string>, name: string, v: string)
    requires CacheOk(env, cache) && name in env.raw && env.raw[name] != "" && !Reserved(name)
    ensures CacheOk(env, cache[name := v])
  {
  }

  lemma {:induction false} RemoveInserted(cache: map<string, string>, name: string, v: string)
    requires name !in cache
    ensures cache[name := v] - {name} == cache
  {
  }

  /** Opening the expansion of a name the current text mentions keeps the state honest. */
  lemma {:induction false} PushFrame(env: Env, root: string, cache: map<string, string>, trace: seq<Step>, open: seq<Frame>, fr: Frame)
    requires Honest(env, root, cache, trace, open)
    requires FrameOk(env, fr) && fr.name !in cache && fr.name !in Names(open)
    requires Mentions(TextAt(root, open, |open|), fr.name)
    ensures Honest(env, root, cache, trace, open + [fr])
  {
    var o := open + [fr];
    ChainPush(env, root, open, fr);
    forall f | 0 <= f < |o| ensures o[f].name !in cache {
      if f < |open| { assert o[f] == open[f]; }
    }
    forall j | 0 <= j < |trace| ensures OpenPrefix(trace[j].frames, o, cache) {
      PrefixPush(trace[j].frames, open, fr, cache);
    }
  }

  /** Pushing a frame keeps every step's unfinished frames at the bottom of the open stack. */
  lemma {:induction false} PrefixPush(frames: seq<Frame>, open: seq<Frame>, fr: Frame, cache: map<string, string>)
    requires OpenPrefix(frames, open, cache)
    ensures OpenPrefix(frames, open + [fr], cache)
  {
    var o := open + [fr];
    forall f | 0 <= f < |frames| && frames[f].name !in cache ensures f < |o| && frames[..f + 1] == o[..f + 1] {
      assert o[..f + 1] == open[..f + 1];
    }
  }

  lemma {:induction false} ChainPush(env: Env, root: string, open: seq<Frame>, fr: Frame)
    requires ChainOk(env, root, open) && FrameOk(env, fr) && fr.name !in Names(open)
    requires Mentions(TextAt(root, open, |open|), fr.name)
    ensures ChainOk(env, root, open + [fr])
  {
    var o := open + [fr];
    assert o[..|open|] == open;
    assert TextAt(root, o, |open|) == TextAt(root, open, |open|);
  }

  /** A chain's bottom part is a chain. */
  lemma {:induction false} ChainPop(env: Env, root: string, open: seq<Frame>, fr: Frame)
    requires ChainOk(env, root, open + [fr])
    ensures ChainOk(env, root, open) && FrameOk(env, fr) && fr.name !in Names(open)
  {
    var o := open + [fr];
    assert o[..|open|] == open;
  }

  /**
    Closing the innermost open expansion with the step it produced keeps the
    state honest; the step's frames are the open frames beneath it.
   */
  lemma {:induction false} PopFrame(env: Env, root: string, trace: seq<Step>, st: Step)
    requires var cache := CacheOf(trace); var ps := Regex.Pieces(PlaceholderAt, st.variant);
      && Honest(env, root, cache, trace, st.frames + [Frame(st.name, st.variant)])
      && |st.conds| == |ps| && CondsOk(ps, env, st.conds)
      && PiecesSettled(ps, env, cache, Names(st.frames) + [st.name], st.conds)
      && st.value == Fill(ps, env, cache, st.conds)
    ensures CacheOf(trace + [st]) == CacheOf(trace)[st.name := st.value]
    ensures Honest(env, root, CacheOf(trace)[st.name := st.value], trace + [st], st.frames)
  {
    var cache := CacheOf(trace);
    var fr := Frame(st.name, st.variant);
    var o := st.frames + [fr];
    var c := cache[st.name := st.value];
    ChainPop(env, root, st.frames, fr);
    assert o[|st.frames|] == fr;
    forall f | 0 <= f < |st.frames| ensures st.frames[f].name !in cache && st.frames[f].name != st.name {
      assert o[f] == st.frames[f] && Names(st.frames)[f] == st.frames[f].name;
    }
    assert StepOk(st, env, root, cache);
    TraceSnoc(env, root, trace, st);
    CacheOkInsert(env, cache, st.name, st.value);
    var t := trace + [st];
    forall j, k | 0 <= j < k < |t| ensures Encloses(t[k], t[j]) {
      assert t[j] == trace[j];
      if k == |trace| {
        EnclosesNew(trace[j], st, cache);
      } else {
        assert t[k] == trace[k];
      }
    }
    forall j | 0 <= j < |t| ensures OpenPrefix(t[j].frames, st.frames, c) {
      if j < |trace| {
        assert t[j] == trace[j];
        PrefixPop(trace[j].frames, st, cache);
      } else {
        assert t[j] == st;
      }
    }
  }

  /** A step whose unfinished frames begin the open stack ran inside the innermost open expansion, if it names it. */
  lemma {:induction false} EnclosesNew(inner: Step, st: Step, cache: map<string, string>)
    requires OpenPrefix(inner.frames, st.frames + [Frame(st.name, st.variant)], cache)
    requires st.name !in cache && forall g :: 0 <= g < |st.frames| ==> st.frames[g].name != st.name
    ensures Encloses(st, inner)
  {
    var o := st.frames + [Frame(st.name, st.variant)];
    forall f | 0 <= f < |inner.frames| && inner.frames[f].name == st.name
      ensures inner.frames[f].variant == st.variant && inner.frames[..f] == st.frames
    {
      assert inner.frames[..f + 1] == o[..f + 1];
      assert inner.frames[f] == o[f];
      assert f == |st.frames|;
      assert inner.frames[..f] == inner.frames[..f + 1][..f];
      assert o[..f] == st.frames;
    }
  }

  /** Closing the innermost open expansion keeps every step's unfinished frames at the bottom of the open stack. */
  lemma {:induction false} PrefixPop(frames: seq<Frame>, st: Step, cache: map<string, string>)
    requires OpenPrefix(frames, st.frames + [Frame(st.name, st.variant)], cache)
    requires st.name !in Names(st.frames)
    ensures OpenPrefix(frames, st.frames, cache[st.name := st.value])
  {
    var o := st.frames + [Frame(st.name, st.variant)];
    var c := cache[st.name := st.value];
    forall f | 0 <= f < |frames| && frames[f].name !in c
      ensures f < |st.frames| && frames[..f + 1] == st.frames[..f + 1]
    {
      assert frames[..f + 1] == o[..f + 1];
      assert frames[f] == o[f];
      assert f != |st.frames|;
      assert o[..f + 1] == st.frames[..f + 1];
    }
  }

  // ---------------------------------------------------------------------
  // The recursion as functions of the random draws
  // ---------------------------------------------------------------------

  /** What one expansion drew at random: the variant, and each placeholder's test outcome. */
  datatype Choice = Choice(variant: string, conds: seq<bool>)

  /** The draws the steps of a trace record, each under its name. */
  function ChoicesOf(trace: seq<Step>): map<string, Choice>
    decreases |trace|
  {
    if trace == [] then map[]
    else
      var n := |trace| - 1;
      ChoicesOf(trace[..n])[trace[n].name := Choice(trace[n].variant, trace[n].conds)]
  }

  /** `o2` keeps every draw of `o1`. */
  ghost predicate Extends(o1: map<string, Choice>, o2: map<string, Choice>) {
    forall k :: k in o1 ==> k in o2 && o2[k] == o1[k]
  }

  /**
    resolve_variable with its random draws given by `o`: the default line
    for a reserved name, the cached value, "" on a cycle or for an unknown or
    empty variable, and otherwise the pass over the drawn variant with the
    name pushed, after which the name is cached with its value.  A name `o`
    holds no draw for takes its first variant.
   */
  function ResolveWith(env: Env, o: map<string, Choice>, name: string, stack: seq<string>, cache: map<string, string>)
    : (r: (string, map<string, string>))
    ensures cache.Keys <= r.1.Keys
    decreases Unvisited(env.raw, stack), 1
  {
    if name in {"default", "def", "_"} then (env.default, cache)
    else if name in cache then (cache[name], cache)
    else if name in stack then ("", cache)
    else if Get(env.raw, name) == "" then ("", cache)
    else
      var ch := if name in o then o[name] else Choice(Variants(env.raw[name])[0], []);
      PushDecreases(env.raw, stack, name);
      var (v, c) := PassWith(env, o, Regex.Pieces(PlaceholderAt, ch.variant), stack + [name], cache, ch.conds);
      (v, c[name := v])
  }

  /** repl with the draws given by `o` and the test outcome `cond`: the value and the cache after it. */
  function ReplWith(env: Env, o: map<string, Choice>, group: string, stack: seq<string>, cache: map<string, string>, cond: bool)
    : (r: (string, map<string, string>))
    ensures cache.Keys <= r.1.Keys
    decreases Unvisited(env.raw, stack), 2
  {
    var k := Classify(group);
    match k
    case DefaultRef => (env.default, cache)
    case DateRef => (env.date, cache)
    case TimeRef => (env.time, cache)
    case Malformed => ("", cache)
    case Cond(_, _, _, _) =>
      (match StripQuotes(Branch(k, cond))
       case Some(l) => (l, cache)
       case None => ResolveWith(env, o, Branch(k, cond), stack, cache))
    case Fallback(name, fb) =>
      var (v, c) := ResolveWith(env, o, Strip(name), stack, cache);
      if v != "" then (v, c) else (FallbackText(fb), c)
    case Literal(l) => (l, cache)
    case VarRef(name) => ResolveWith(env, o, name, stack, cache)
  }

  /**
    The `re.sub` pass of repl over the pieces `ps` with the draws given by
    `o`: placeholder by placeholder from the left, each one seeing the cache
    that the ones before it left behind, the i-th one with test outcome
    `conds[i]`.
   */
  function PassWith(env: Env, o: map<string, Choice>, ps: seq<Regex.Piece>, stack: seq<string>,
                    cache: map<string, string>, conds: seq<bool>)
    : (r: (string, map<string, string>))
    ensures cache.Keys <= r.1.Keys
    decreases Unvisited(env.raw, stack), 3, |ps|
  {
    if ps == [] then ("", cache)
    else
      var n := |ps| - 1;
      var (front, c) := PassWith(env, o, ps[..n], stack, cache, conds);
      match ps[n]
      case Plain(ch) => (front + [ch], c)
      case Found(t) =>
        var (v, c2) := ReplWith(env, o, Inner(t), stack, c, if n < |conds| then conds[n] else false);
        (front + v, c2)
  }

  lemma {:induction false} ExtendsTrans(o1: map<string, Choice>, o2: map<string, Choice>, o3: map<string, Choice>)
    requires Extends(o1, o2) && Extends(o2, o3)
    ensures Extends(o1, o3)
  {
  }

  /** A trace records a draw for exactly the names it caches. */
  lemma {:induction false} ChoicesKeys(trace: seq<Step>)
    ensures ChoicesOf(trace).Keys == CacheOf(trace).Keys
    decreases |trace|
  {
    if trace != [] {
      ChoicesKeys(trace[..|trace| - 1]);
    }
  }

  /**
    Draws for names the resolution never caches do not matter: with more
    draws, a resolution whose cache stays within the first draws gives the
    same value and the same cache.
   */
  lemma {:induction false} ResolveFrame(env: Env, o1: map<string, Choice>, o2: map<string, Choice>, name: string,
                                        stack: seq<string>, cache: map<string, string>)
    requires Extends(o1, o2) && ResolveWith(env, o1, name, stack, cache).1.Keys <= o1.Keys
    ensures ResolveWith(env, o2, name, stack, cache) == ResolveWith(env, o1, name, stack, cache)
    decreases Unvisited(env.raw, stack), 1
  {
    if name !in {"default", "def", "_"} && name !in cache && name !in stack && Get(env.raw, name) != "" {
      PushDecreases(env.raw, stack, name);
      assert name in o1;
      var ch := o1[name];
      PassFrame(env, o1, o2, Regex.Pieces(PlaceholderAt, ch.variant), stack + [name], cache, ch.conds);
    }
  }

  lemma {:induction false} ReplFrame(env: Env, o1: map<string, Choice>, o2: map<string, Choice>, group: string,
                                     stack: seq<string>, cache: map<string, string>, cond: bool)
    requires Extends(o1, o2) && ReplWith(env, o1, group, stack, cache, cond).1.Keys <= o1.Keys
    ensures ReplWith(env, o2, group, stack, cache, cond) == ReplWith(env, o1, group, stack, cache, cond)
    decreases Unvisited(env.raw, stack), 2
  {
    var k := Classify(group);
    match k
    case Cond(_, _, _, _) =>
      if StripQuotes(Branch(k, cond)).None? {
        ResolveFrame(env, o1, o2, Branch(k, cond), stack, cache);
      }
    case Fallback(name, _) => ResolveFrame(env, o1, o2, Strip(name), stack, cache);
    case VarRef(name) => ResolveFrame(env, o1, o2, name, stack, cache);
    case _ =>
  }

  lemma {:induction false} PassFrame(env: Env, o1: map<string, Choice>, o2: map<string, Choice>, ps: seq<Regex.Piece>,
                                     stack: seq<string>, cache: map<string, string>, conds: seq<bool>)
    requires Extends(o1, o2) && PassWith(env, o1, ps, stack, cache, conds).1.Keys <= o1.Keys
    ensures PassWith(env, o2, ps, stack, cache, conds) == PassWith(env, o1, ps, stack, cache, conds)
    decreases Unvisited(env.raw, stack), 3, |ps|
  {
    if ps != [] {
      var n := |ps| - 1;
      var c := PassWith(env, o1, ps[..n], stack, cache, conds).1;
      PassFrame(env, o1, o2, ps[..n], stack, cache, conds);
      if ps[n].Found? {
        ReplFrame(env, o1, o2, Inner(ps[n].text), stack, c, if n < |conds| then conds[n] else false);
      }
    }
  }

  /** Outcomes past the last piece do not matter. */
  lemma {:induction false} PassConds(env: Env, o: map<string, Choice>, ps: seq<Regex.Piece>, stack: seq<string>,
                                     cache: map<string, string>, conds: seq<bool>, cond: bool)
    requires |ps| <= |conds|
    ensures PassWith(env, o, ps, stack, cache, conds + [cond]) == PassWith(env, o, ps, stack, cache, conds)
    decreases |ps|
  {
    if ps != [] {
      PassConds(env, o, ps[..|ps| - 1], stack, cache, conds, cond);
    }
  }

  /**
    One more piece of the pass: given the pass over the first `i` pieces
    with the draws `o0`, and the value `v` and cache `c1` of piece `i` with
    the draws `o1` that extend them, the pass over `i + 1` pieces with the
    draws `o1` appends `v` and leaves `c1`.
   */
  lemma {:induction false} PassStep(env: Env, o0: map<string, Choice>, o1: map<string, Choice>, ps: seq<Regex.Piece>,
                                    i: nat, stack: seq<string>, cache: map<string, string>, conds: seq<bool>,
                                    front: string, c0: map<string, string>, cond: bool, v: string, c1: map<string, string>)
    requires |conds| == i < |ps|
    requires Extends(o0, o1) && c0.Keys <= o0.Keys
    requires (front, c0) == PassWith(env, o0, ps[..i], stack, cache, conds)
    requires ps[i].Plain? ==> v == [ps[i].c] && c1 == c0
    requires ps[i].Found? ==> (v, c1) == ReplWith(env, o1, Inner(ps[i].text), stack, c0, cond)
    ensures (front + v, c1) == PassWith(env, o1, ps[..i + 1], stack, cache, conds + [cond])
  {
    PassFrame(env, o0, o1, ps[..i], stack, cache, conds);
    PassConds(env, o1, ps[..i], stack, cache, conds, cond);
    assert ps[..i + 1][..i] == ps[..i];
  }

  /** One iteration of the pass keeps the replay: the draws only grow, and the pass so far extends by the piece's value. */
  lemma {:induction false} ReplayStep(env: Env, o: map<string, Choice>, t0: seq<Step>, t1: seq<Step>, ps: seq<Regex.Piece>,
                                      i: nat, stack: seq<string>, cache: map<string, string>, conds: seq<bool>,
                                      r: string, cond: bool, v: string)
    requires |conds| == i < |ps|
    requires Extends(o, ChoicesOf(t0)) && Extends(ChoicesOf(t0), ChoicesOf(t1))
    requires (r, CacheOf(t0)) == PassWith(env, ChoicesOf(t0), ps[..i], stack, cache, conds)
    requires ps[i].Plain? ==> v == [ps[i].c] && t1 == t0
    requires ps[i].Found? ==> (v, CacheOf(t1)) == ReplWith(env, ChoicesOf(t1), Inner(ps[i].text), stack, CacheOf(t0), cond)
    ensures Extends(o, ChoicesOf(t1))
    ensures (r + v, CacheOf(t1)) == PassWith(env, ChoicesOf(t1), ps[..i + 1], stack, cache, conds + [cond])
  {
    ChoicesKeys(t0);
    PassStep(env, ChoicesOf(t0), ChoicesOf(t1), ps, i, stack, cache, conds, r, CacheOf(t0), cond, v, CacheOf(t1));
    ExtendsTrans(o, ChoicesOf(t0), ChoicesOf(t1));
  }

  /**
    The expanding branch of the resolution, replayed: if the pass over the
    drawn variant with the draws of `trace` left `st.value` and the cache of
    `trace`, then with the draws of `trace + [st]` the name resolves to
    `st.value` and is cached with it.
   */
  lemma {:induction false} ExpandStep(env: Env, trace: seq<Step>, st: Step, stack: seq<string>, cache: map<string, string>)
    requires st.name in env.raw && env.raw[st.name] != "" && !Reserved(st.name)
    requires st.name !in cache && st.name !in stack && st.name !in CacheOf(trace)
    requires (st.value, CacheOf(trace)) ==
      PassWith(env, ChoicesOf(trace), Regex.Pieces(PlaceholderAt, st.variant), stack + [st.name], cache, st.conds)
    ensures Extends(ChoicesOf(trace), ChoicesOf(trace + [st]))
    ensures ResolveWith(env, ChoicesOf(trace + [st]), st.name, stack, cache) == (st.value, CacheOf(trace)[st.name := st.value])
  {
    var t := trace + [st];
    assert t[..|trace|] == trace;
    assert ChoicesOf(t) == ChoicesOf(trace)[st.name := Choice(st.variant, st.conds)];
    ChoicesKeys(trace);
    PushDecreases(env.raw, stack, st.name);
    PassFrame(env, ChoicesOf(trace), ChoicesOf(t), Regex.Pieces(PlaceholderAt, st.variant), stack + [st.name], cache, st.conds);
  }

  /** The memo cache and the recursion of one get_variable call. */
  class Resolver {
    const env: Env
    /** The text the call's first pass runs over. */
    ghost const root: string
    var cache: map<string, string>
    /** The expansions that filled the cache, in the order they finished. */
    ghost var trace: seq<Step>
    /** The expansions under way, outermost first; their names are the stack. */
    ghost var open: seq<Frame>

    ghost predicate Valid()
      reads this
    {
      Honest(env, root, cache, trace, open)
    }

    /** The text whose pass is running: the variant of the innermost open expansion, or the root template. */
    ghost function Current(): string
      reads this
    {
      TextAt(root, open, |open|)
    }

    constructor(env: Env, ghost root: string)
      ensures this.env == env && this.root == root && cache == map[] && trace == [] && open == [] && Valid()
    {
      this.env := env;
      this.root := root;
      cache := map[];
      trace := [];
      open := [];
    }

    /**
      resolve_variable: the default for a reserved name, the cached value,
      "" on a cycle or for an unknown or empty variable, and otherwise the
      expansion of a random variant, which is then cached under the name.
     */
    method ResolveVariable(name: string, stack: seq<string>) returns (r: string, ghost chosen: string, ghost conds: seq<bool>)
      requires Valid() && stack == Names(open) && Mentions(Current(), name)
      modifies this
      ensures Valid() && open == old(open)
      ensures Grows(old(cache), cache, stack)
      ensures r == Lookup(name, env, cache) && Settled(name, env, cache, stack)
      ensures !Expands(name, env, old(cache), stack) ==> cache == old(cache)
      ensures Expands(name, env, old(cache), stack) ==>
        (var ps := Regex.Pieces(PlaceholderAt, chosen);
         && name in cache
         && chosen in Variants(env.raw[name])
         && |conds| == |ps|
         && r == Fill(ps, env, cache - {name}, conds)
         && CondsOk(ps, env, conds)
         && PiecesSettled(ps, env, cache - {name}, stack + [name], conds))
      ensures Extends(ChoicesOf(old(trace)), ChoicesOf(trace))
      ensures (r, cache) == ResolveWith(env, ChoicesOf(trace), name, stack, old(cache))
      decreases Unvisited(env.raw, stack), 1
    {
      chosen, conds := "", [];
      if name in {"default", "def", "_"} {
        return env.default, chosen, conds;
      }
      if name in cache {
        return cache[name], chosen, conds;
      }
      if name in stack {
        return "", chosen, conds;
      }
      var rawValue := Get(env.raw, name);
      if rawValue == "" {
        return "", chosen, conds;
      }
      var variant := ChooseVariant(rawValue);
      chosen := variant;
      r, conds := Expand(name, variant, stack);
    }

    /**
      The expanding branch of resolve_variable: fill the chosen variant with
      `name` pushed on the stack, then cache it.  The names the variant
      refers to are settled under the pushed stack, so a defined one that is
      not on it has been expanded and cached first.
     */
    method Expand(name: string, variant: string, stack: seq<string>) returns (r: string, ghost conds: seq<bool>)
      requires Valid() && stack == Names(open) && Mentions(Current(), name)
      requires name in env.raw && env.raw[name] != "" && !Reserved(name) && name !in cache && name !in stack
      requires variant in Variants(env.raw[name])
      modifies this
      ensures Valid() && open == old(open)
      ensures Grows(old(cache), cache, stack)
      ensures name in cache && r == cache[name]
      ensures var ps := Regex.Pieces(PlaceholderAt, variant);
        && |conds| == |ps|
        && r == Fill(ps, env, cache - {name}, conds)
        && CondsOk(ps, env, conds)
        && PiecesSettled(ps, env, cache - {name}, stack + [name], conds)
      ensures Extends(ChoicesOf(old(trace)), ChoicesOf(trace))
      ensures (r, cache) == ResolveWith(env, ChoicesOf(trace), name, stack, old(cache))
      decreases Unvisited(env.raw, stack), 0
    {
      PushDecreases(env.raw, stack, name);
      ghost var below := open;
      PushFrame(env, root, cache, trace, open, Frame(name, variant));
      open := open + [Frame(name, variant)];
      assert Names(open) == stack + [name];
      r, conds := ReplacePlaceholders(variant, stack + [name]);
      ghost var st := Step(name, variant, conds, r, below);
      PopFrame(env, root, trace, st);
      RemoveInserted(cache, name, r);
      ExpandStep(env, trace, st, stack, old(cache));
      ExtendsTrans(ChoicesOf(old(trace)), ChoicesOf(trace), ChoicesOf(trace + [st]));
      trace := trace + [st];
      cache := cache[name := r];
      open := below;
    }

    /** repl: the value of one placeholder, given its group text. */
    method Repl(group: string, stack: seq<string>) returns (r: string, ghost cond: bool)
      requires Valid() && stack == Names(open) && Occurs(Current(), group)
      modifies this
      ensures Valid() && open == old(open)
      ensures Grows(old(cache), cache, stack)
      ensures r == HoleValue(group, env, cache, cond)
      ensures CondOk(group, env, cond) && HoleSettled(group, env, cache, stack, cond)
      ensures Extends(ChoicesOf(old(trace)), ChoicesOf(trace))
      ensures (r, cache) == ReplWith(env, ChoicesOf(trace), group, stack, old(cache), cond)
      decreases Unvisited(env.raw, stack), 2
    {
      cond := false;
      var k := Classify(group);
      match k {
        case DefaultRef => r := env.default;
        case DateRef => r := env.date;
        case TimeRef => r := env.time;
        case Malformed => r := "";
        case Cond(negate, token, ifTrue, ifFalse) =>
          var c := RawAsBool(token, env.raw, env.default);
          var taken := if negate then !c else c;
          cond := taken;
          var chosenToken := if taken then ifTrue else ifFalse;
          match StripQuotes(chosenToken) {
            case Some(l) => r := l;
            case None =>
              ghost var ch, cs;
              OccursMentions(Current(), group, chosenToken);
              r, ch, cs := ResolveVariable(chosenToken, stack);
          }
        case Fallback(name, fb) =>
          ghost var ch, cs;
          var resolved;
          OccursMentions(Current(), group, Strip(name));
          resolved, ch, cs := ResolveVariable(Strip(name), stack);
          if resolved != "" {
            r := resolved;
          } else {
            r := FallbackText(fb);
          }
        case Literal(l) => r := l;
        case VarRef(name) =>
          ghost var ch, cs;
          OccursMentions(Current(), group, name);
          r, ch, cs := ResolveVariable(name, stack);
      }
    }

    /** replace_placeholders: one `re.sub` pass of repl over the text. */
    method ReplacePlaceholders(text: string, stack: seq<string>) returns (r: string, ghost conds: seq<bool>)
      requires Valid() && stack == Names(open) && text == Current()
      modifies this
      ensures Valid() && open == old(open)
      ensures Grows(old(cache), cache, stack)
      ensures var ps := Regex.Pieces(PlaceholderAt, text);
        && |conds| == |ps|
        && r == Fill(ps, env, cache, conds)
        && CondsOk(ps, env, conds)
        && PiecesSettled(ps, env, cache, stack, conds)
      ensures Extends(ChoicesOf(old(trace)), ChoicesOf(trace))
      ensures (r, cache) == PassWith(env, ChoicesOf(trace), Regex.Pieces(PlaceholderAt, text), stack, old(cache), conds)
      decreases Unvisited(env.raw, stack), 3
    {
      var ps := Regex.Pieces(PlaceholderAt, text);
      r, conds := "", [];
      var i := 0;
      while i < |ps|
        invariant 0 <= i <= |ps| && |conds| == i
        invariant Valid() && open == old(open) && Grows(old(cache), cache, stack)
        invariant r == Fill(ps[..i], env, cache, conds)
        invariant CondsOk(ps[..i], env, conds)
        invariant PiecesSettled(ps[..i], env, cache, stack, conds)
        invariant Extends(ChoicesOf(old(trace)), ChoicesOf(trace))
        invariant (r, cache) == PassWith(env, ChoicesOf(trace), ps[..i], stack, old(cache), conds)
      {
        ghost var c0 := cache;
        ghost var t0 := trace;
        var v;
        ghost var cond := false;
        match ps[i] {
          case Plain(c) =>
            v := [c];
            FillStep(ps, i, env, c0, cache, stack, conds, cond, r, v);
            ReplayStep(env, ChoicesOf(old(trace)), t0, trace, ps, i, stack, old(cache), conds, r, cond, v);
          case Found(t) =>
            FoundInGroups(ps, i);
            v, cond := Repl(Inner(t), stack);
            FillStep(ps, i, env, c0, cache, stack, conds, cond, r, v);
            GrowsTrans(old(cache), c0, cache, stack);
            ReplayStep(env, ChoicesOf(old(trace)), t0, trace, ps, i, stack, old(cache), conds, r, cond, v);
        }
        r := r + v;
        conds := conds + [cond];
        i := i + 1;
      }
      assert ps[..i] == ps;
    }
  }

  // ---------------------------------------------------------------------
  // Properties of placeholder values and of the pass
  // ---------------------------------------------------------------------

  /** `{{}}`, `{{default}}` and `{{_}}`, in any case and padding, give the default line. */
  lemma {:induction false} DefaultPlaceholder(group: string, env: Env, cache: map<string, string>, cond: bool)
    requires Lower(Strip(group)) in {"", "default", "_"}
    ensures HoleValue(group, env, cache, cond) == env.default
  {
  }

  /** A reserved name, wherever it is resolved, gives the default line. */
  lemma {:induction false} ReservedLookup(name: string, env: Env, cache: map<string, string>)
    requires Reserved(name)
    ensures Lookup(name, env, cache) == env.default
  {
  }

  /** A name that is unknown or has an empty raw value is never cached and resolves to "". */
  lemma {:induction false} UnknownResolvesEmpty(name: string, env: Env, cache: map<string, string>)
    requires CacheOk(env, cache) && !Reserved(name)
    requires name !in env.raw || env.raw[name] == ""
    ensures Lookup(name, env, cache) == ""
  {
  }

  /** An IF/IFNOT placeholder with fewer than three `:`-parts gives "". */
  lemma {:induction false} MalformedConditional(group: string, env: Env, cache: map<string, string>, cond: bool)
    requires var inner := Strip(group);
      && Lower(inner) !in {"", "default", "_"} && Upper(inner) != "DATE" && Upper(inner) != "TIME"
      && (StartsWith(Upper(inner), "IF:") || StartsWith(Upper(inner), "IFNOT:"))
      && |Split(inner, ":")| < 3
    ensures HoleValue(group, env, cache, cond) == ""
  {
  }

  /**
    A well-formed conditional takes its true branch exactly when raw_as_bool
    can give `true` for IF, or `false` for IFNOT; a missing false branch is "",
    a quoted branch is emitted literally, and any other branch is resolved.
   */
  lemma {:induction false} ConditionalBranch(group: string, env: Env, cache: map<string, string>, cond: bool)
    requires Classify(group).Cond? && CondOk(group, env, cond)
    ensures var k := Classify(group);
      && BoolCan(k.token, env.raw, env.default, if k.negate then !cond else cond)
      && (|Split(Strip(group), ":")| == 3 ==> k.ifFalse == "")
    ensures var k := Classify(group); var b := if cond then k.ifTrue else k.ifFalse;
      HoleValue(group, env, cache, cond) == (if StripQuotes(b).Some? then StripQuotes(b).value else Lookup(b, env, cache))
  {
  }

  /** `var??fb`: the variable's value when it is non-empty, else the fallback unquoted or stripped. */
  lemma {:induction false} FallbackValue(group: string, env: Env, cache: map<string, string>, cond: bool)
    requires Classify(group).Fallback?
    ensures var k := Classify(group); var v := Lookup(Strip(k.name), env, cache);
      && (v != "" ==> HoleValue(group, env, cache, cond) == v)
      && (v == "" && StripQuotes(Strip(k.fallback)).Some? ==> HoleValue(group, env, cache, cond) == StripQuotes(Strip(k.fallback)).value)
      && (v == "" && StripQuotes(Strip(k.fallback)).None? ==> HoleValue(group, env, cache, cond) == Strip(k.fallback))
  {
  }

  /** The fallback split is at the first `??`: the name part has none. */
  lemma {:induction false} FallbackSplit(group: string)
    requires Classify(group).Fallback?
    ensures var k := Classify(group); k.name + "??" + k.fallback == Strip(group) && !Contains(k.name, "??")
  {
    BeforeAfter(Strip(group), "??");
  }

  /** Filled text made only of plain characters is the characters themselves. */
  lemma {:induction false} FillPlain(ps: seq<Regex.Piece>, env: Env, cache: map<string, string>, conds: seq<bool>)
    requires |conds| == |ps| && forall k :: 0 <= k < |ps| ==> ps[k].Plain?
    ensures Fill(ps, env, cache, conds) == Regex.Render(ps)
    decreases |ps|
  {
    if ps != [] {
      var n := |ps| - 1;
      FillPlain(ps[..n], env, cache, conds[..n]);
      RenderSnoc(ps[..n], ps[n]);
      assert ps[..n] + [ps[n]] == ps;
    }
  }

  lemma {:induction false} RenderSnoc(ps: seq<Regex.Piece>, p: Regex.Piece)
    ensures Regex.Render(ps + [p]) == Regex.Render(ps) + (match p case Plain(c) => [c] case Found(t) => t)
    decreases |ps|
  {
    if ps == [] {
      assert [p][1..] == [];
    } else {
      assert (ps + [p])[1..] == ps[1..] + [p];
      RenderSnoc(ps[1..], p);
    }
  }

  /** Text without a placeholder match passes through the pass unchanged. */
  lemma {:induction false} NoPlaceholderUnchanged(text: string, env: Env, cache: map<string, string>, conds: seq<bool>)
    requires Regex.NoMatch(PlaceholderAt, text)
    requires |conds| == |Regex.Pieces(PlaceholderAt, text)|
    ensures Fill(Regex.Pieces(PlaceholderAt, text), env, cache, conds) == text
  {
    Regex.PiecesNoMatch(PlaceholderAt, text);
    FillPlain(Regex.Pieces(PlaceholderAt, text), env, cache, conds);
    Regex.RenderPieces(PlaceholderAt, text);
  }

  /** Text without `{` has no placeholder. */
  lemma {:induction false} NoBraceNoPlaceholder(text: string)
    requires !HasChar(text, '{')
    ensures Regex.NoMatch(PlaceholderAt, text)
  {
    forall i | 0 <= i < |text| ensures !Regex.MatchesAt(PlaceholderAt, text[i..]) {
      if |text[i..]| >= 1 { assert text[i..][0] == text[i]; }
    }
  }

  /** Two placeholders that are not conditionals have the same value whenever their groups agree. */
  lemma {:induction false} SameGroupSameValue(g: string, env: Env, cache: map<string, string>, c1: bool, c2: bool)
    requires !Classify(g).Cond?
    ensures HoleValue(g, env, cache, c1) == HoleValue(g, env, cache, c2)
  {
  }

  lemma {:induction false} PiecesOfHalves()
    ensures Regex.Pieces(PlaceholderAt, "{{x}}-{{x}}") == [Regex.Found("{{x}}"), Regex.Plain('-'), Regex.Found("{{x}}")]
  {
    assert NotBrace("x"[0]);
    HalvesPieces("x");
    assert "{{" + "x" + "}}" == "{{x}}";
    assert "{{x}}" + "-" + "{{x}}" == "{{x}}-{{x}}";
  }

  /** `{{n}}-{{n}}` is a placeholder, a dash and the placeholder again. */
  lemma {:induction false} HalvesPieces(n: string)
    requires forall i :: 0 <= i < |n| ==> NotBrace(n[i])
    ensures var t := "{{" + n + "}}";
      Regex.Pieces(PlaceholderAt, t + "-" + t) == [Regex.Found(t), Regex.Plain('-'), Regex.Found(t)]
  {
    var t := "{{" + n + "}}";
    PiecesOfLeading(n, "-" + t);
    PiecesOfLeadingChar('-', t);
    PiecesOfPlaceholder(n);
    assert t + ("-" + t) == t + "-" + t && ['-'] + t == "-" + t;
    assert [Regex.Found(t)] + ([Regex.Plain('-')] + [Regex.Found(t)]) == [Regex.Found(t), Regex.Plain('-'), Regex.Found(t)];
  }

  lemma {:induction false} ClassifyX()
    ensures Classify("x") == VarRef("x")
  {
    StripNoop("x");
    assert Lower("x") == "x" && Upper("x") == "X";
    assert !Contains("x", "??");
  }

  /** `{{x}}-{{x}}` has equal halves: both read the one cached expansion of `x`. */
  lemma {:induction false} CachedHalvesEqual(env: Env, cache: map<string, string>, conds: seq<bool>)
    requires |conds| == |Regex.Pieces(PlaceholderAt, "{{x}}-{{x}}")|
    ensures var v := Lookup("x", env, cache); Fill(Regex.Pieces(PlaceholderAt, "{{x}}-{{x}}"), env, cache, conds) == v + "-" + v
  {
    PiecesOfHalves();
    FillThree(Regex.Found("{{x}}"), Regex.Plain('-'), Regex.Found("{{x}}"), env, cache, conds);
    XValue(env, cache, conds[0]);
    XValue(env, cache, conds[2]);
  }

  /** Three pieces fill to their three values in order. */
  lemma {:induction false} FillThree(p0: Regex.Piece, p1: Regex.Piece, p2: Regex.Piece,
                                     env: Env, cache: map<string, string>, conds: seq<bool>)
    requires |conds| == 3
    ensures Fill([p0, p1, p2], env, cache, conds)
      == PieceValue(p0, env, cache, conds[0]) + PieceValue(p1, env, cache, conds[1]) + PieceValue(p2, env, cache, conds[2])
  {
    var ps := [p0, p1, p2];
    assert ps[..2] == [p0, p1] && ps[..2][..1] == [p0] && ps[..1][..0] == [];
    assert conds[..2][..1] == conds[..1] && conds[..2][1] == conds[1] && conds[..1][0] == conds[0];
    assert Fill(ps[..1], env, cache, conds[..1]) == PieceValue(p0, env, cache, conds[0]);
    assert Fill(ps[..2], env, cache, conds[..2]) == PieceValue(p0, env, cache, conds[0]) + PieceValue(p1, env, cache, conds[1]);
  }

  /** The placeholder `{{x}}` reads the value of `x`. */
  lemma {:induction false} XValue(env: Env, cache: map<string, string>, cond: bool)
    ensures PieceValue(Regex.Found("{{x}}"), env, cache, cond) == Lookup("x", env, cache)
  {
    ClassifyX();
    assert Inner("{{x}}") == "x";
  }

  /** The pieces of a lone placeholder `{{n}}` whose name has no brace. */
  lemma {:induction false} PiecesOfPlaceholder(n: string)
    requires forall i :: 0 <= i < |n| ==> NotBrace(n[i])
    ensures Regex.Pieces(PlaceholderAt, "{{" + n + "}}") == [Regex.Found("{{" + n + "}}")]
    ensures Inner("{{" + n + "}}") == n
  {
    var s := "{{" + n + "}}";
    assert forall i :: 2 <= i < 2 + |n| ==> NotBrace(s[i]) by {
      forall i | 2 <= i < 2 + |n| ensures NotBrace(s[i]) { assert s[i] == n[i - 2]; }
    }
    Regex.RunEndIs(s, 2, NotBrace, 2 + |n|);
    assert PlaceholderAt(s) == |s|;
    assert s[..|s|] == s && s[|s|..] == [];
    assert s[2..|s| - 2] == n;
  }

  /** A name that a placeholder `{{n}}` refers to as a plain variable, and that is not reserved. */
  ghost predicate PlainName(n: string) {
    && (forall i :: 0 <= i < |n| ==> NotBrace(n[i]))
    && !HasChar(n, '|')
    && !Reserved(n)
    && Classify(n) == VarRef(n)
  }

  /** A lone placeholder `{{n}}` for a plain name is its own only variant. */
  lemma {:induction false} PlaceholderVariant(n: string)
    requires PlainName(n)
    ensures Variants("{{" + n + "}}") == ["{{" + n + "}}"]
  {
    var v := "{{" + n + "}}";
    assert !HasChar(v, '|') by {
      forall i | 0 <= i < |v| ensures v[i] != '|' {
        if 2 <= i < 2 + |n| { assert v[i] == n[i - 2]; }
      }
    }
    StripNoop(v);
    ContainsChar(v, '|');
    VariantsSingle(v);
  }

  /** A lone placeholder for a plain name fills to that name's lookup. */
  lemma {:induction false} LoneVariableFill(n: string, env: Env, cache: map<string, string>, conds: seq<bool>)
    requires PlainName(n)
    requires |conds| == |Regex.Pieces(PlaceholderAt, "{{" + n + "}}")|
    ensures Fill(Regex.Pieces(PlaceholderAt, "{{" + n + "}}"), env, cache, conds) == Lookup(n, env, cache)
  {
    PiecesOfPlaceholder(n);
    var ps := [Regex.Found("{{" + n + "}}")];
    assert ps[..0] == [];
  }

  /** A prefix of an honest trace is honest. */
  lemma {:induction false} TracedPrefix(env: Env, root: string, trace: seq<Step>, n: nat)
    requires Traced(env, root, trace) && n <= |trace|
    ensures Traced(env, root, trace[..n])
  {
    forall j | 0 <= j < n ensures StepOk(trace[..n][j], env, root, CacheOf(trace[..n][..j])) {
      assert trace[..n][..j] == trace[..j];
    }
  }

  /**
    Every cached value is one honest expansion: the filling of one of the
    name's variants against the cache as it stood before the name was expanded.
   */
  lemma {:induction false} CachedExpansion(env: Env, root: string, trace: seq<Step>, k: string)
    requires Traced(env, root, trace) && k in CacheOf(trace)
    ensures exists j :: (0 <= j < |trace| && trace[j].name == k && CacheOf(trace)[k] == trace[j].value
      && StepOk(trace[j], env, root, CacheOf(trace[..j])))
  {
    CachedIndex(trace, k);
    var j :| 0 <= j < |trace| && trace[j].name == k && CacheOf(trace)[k] == trace[j].value;
    assert StepOk(trace[j], env, root, CacheOf(trace[..j]));
  }

  /** Every cached name was set by a step of the trace, which holds its value. */
  lemma {:induction false} CachedIndex(trace: seq<Step>, k: string)
    requires k in CacheOf(trace)
    ensures exists j :: 0 <= j < |trace| && trace[j].name == k && CacheOf(trace)[k] == trace[j].value
    decreases |trace|
  {
    var n := |trace| - 1;
    if trace[n].name != k {
      CachedIndex(trace[..n], k);
      var j :| 0 <= j < n && trace[..n][j].name == k && CacheOf(trace[..n])[k] == trace[..n][j].value;
      assert trace[..n][j] == trace[j];
    }
  }

  /** A name a step cached is in the cache of every longer prefix. */
  lemma {:induction false} StepCached(trace: seq<Step>, i: nat, n: nat)
    requires i < n <= |trace|
    ensures trace[i].name in CacheOf(trace[..n])
    decreases n
  {
    assert trace[..n][..n - 1] == trace[..n - 1];
    if i < n - 1 {
      StepCached(trace, i, n - 1);
    }
  }

  /**
    After a pass with an empty stack, a placeholder naming a defined,
    non-empty variable has the value of one expansion of that variable: the
    filling of one of its variants against the names cached before it, in
    which every name the variant refers to was settled with the variable
    pushed on the stack the expansion ran under.
   */
  lemma {:induction false} DefinedVariableExpands(group: string, env: Env, root: string, trace: seq<Step>, cond: bool)
    requires Traced(env, root, trace) && Classify(group).VarRef?
    requires var n := Classify(group).name; n in env.raw && env.raw[n] != "" && !Reserved(n)
    requires HoleSettled(group, env, CacheOf(trace), [], cond)
    ensures var n := Classify(group).name;
      exists j :: (0 <= j < |trace| && trace[j].name == n && trace[j].variant in Variants(env.raw[n])
        && |trace[j].conds| == |Regex.Pieces(PlaceholderAt, trace[j].variant)|
        && HoleValue(group, env, CacheOf(trace), cond)
           == Fill(Regex.Pieces(PlaceholderAt, trace[j].variant), env, CacheOf(trace[..j]), trace[j].conds)
        && PiecesSettled(Regex.Pieces(PlaceholderAt, trace[j].variant), env, CacheOf(trace[..j]),
             Names(trace[j].frames) + [n], trace[j].conds))
  {
    CachedExpansion(env, root, trace, Classify(group).name);
  }

  /**
    Inside an expansion, a placeholder of the variant that names a defined,
    non-empty variable not on the expansion's stack has the value of an
    earlier, honest expansion of that variable.
   */
  lemma {:induction false} NestedVariableExpands(env: Env, root: string, trace: seq<Step>, j: nat, p: nat)
    requires Traced(env, root, trace) && j < |trace|
    requires var ps := Regex.Pieces(PlaceholderAt, trace[j].variant);
      p < |ps| && ps[p].Found? && Classify(Inner(ps[p].text)).VarRef?
    requires var m := Classify(Inner(Regex.Pieces(PlaceholderAt, trace[j].variant)[p].text)).name;
      m in env.raw && env.raw[m] != "" && !Reserved(m) && m !in Names(trace[j].frames) + [trace[j].name]
    ensures var ps := Regex.Pieces(PlaceholderAt, trace[j].variant); var m := Classify(Inner(ps[p].text)).name;
      exists i :: (0 <= i < j && trace[i].name == m
        && PieceValue(ps[p], env, CacheOf(trace[..j]), trace[j].conds[p]) == trace[i].value
        && StepOk(trace[i], env, root, CacheOf(trace[..i])))
  {
    var st := trace[j];
    var ps := Regex.Pieces(PlaceholderAt, st.variant);
    var m := Classify(Inner(ps[p].text)).name;
    var before := CacheOf(trace[..j]);
    assert StepOk(st, env, root, before);
    assert HoleSettled(Inner(ps[p].text), env, before, Names(st.frames) + [st.name], st.conds[p]);
    assert m in before;
    CachedIndex(trace[..j], m);
    var i :| 0 <= i < j && trace[..j][i].name == m && before[m] == trace[..j][i].value;
    assert trace[..j][i] == trace[i];
    assert StepOk(trace[i], env, root, CacheOf(trace[..i]));
  }

  /**
    When a call has finished, a name is on a step's stack only because that
    step ran inside the name's own expansion: a later step expands the name,
    with the variant the frame records, under the frames beneath it.
   */
  lemma {:induction false} AncestorFinishesLater(env: Env, root: string, trace: seq<Step>, j: nat, f: nat)
    requires Honest(env, root, CacheOf(trace), trace, [])
    requires j < |trace| && f < |trace[j].frames|
    ensures exists k :: (j < k < |trace| && trace[k].name == trace[j].frames[f].name
      && trace[k].variant == trace[j].frames[f].variant && trace[k].frames == trace[j].frames[..f])
  {
    var st := trace[j];
    var y := st.frames[f].name;
    assert OpenPrefix(st.frames, [], CacheOf(trace));
    assert y in CacheOf(trace);
    CachedIndex(trace, y);
    var k :| 0 <= k < |trace| && trace[k].name == y && CacheOf(trace)[y] == trace[k].value;
    assert StepOk(st, env, root, CacheOf(trace[..j]));
    ChainPop(env, root, st.frames, Frame(st.name, st.variant));
    assert Names(st.frames)[f] == y;
    if k < j {
      StepCached(trace, k, j);
      assert false;
    }
    assert Encloses(trace[k], trace[j]);
  }

  /** A value without `|` or `{` is cached as itself, stripped. */
  lemma {:induction false} PlainValueCached(env: Env, root: string, trace: seq<Step>, k: string)
    requires Traced(env, root, trace) && k in CacheOf(trace)
    requires k in env.raw && !HasChar(env.raw[k], '|') && !HasChar(env.raw[k], '{')
    ensures CacheOf(trace)[k] == Strip(env.raw[k])
  {
    CachedExpansion(env, root, trace, k);
    var j :| (0 <= j < |trace| && trace[j].name == k && CacheOf(trace)[k] == trace[j].value
      && StepOk(trace[j], env, root, CacheOf(trace[..j])));
    PlainStep(trace[j], env, root, CacheOf(trace[..j]));
  }

  /** An honest expansion of a value without `|` or `{` is that value, stripped. */
  lemma {:induction false} PlainStep(st: Step, env: Env, root: string, before: map<string, string>)
    requires StepOk(st, env, root, before)
    requires !HasChar(env.raw[st.name], '|') && !HasChar(env.raw[st.name], '{')
    ensures st.value == Strip(env.raw[st.name])
  {
    var t := Strip(env.raw[st.name]);
    PlainVariant(env.raw[st.name]);
    NoBraceNoPlaceholder(t);
    NoPlaceholderUnchanged(t, env, before, st.conds);
  }


  /**
    Resolving `a` for `a={{b}}`, `b={{a}}` meets `a` again on the stack while
    expanding `b`, so every cached value of the two is "".
   */
  lemma {:induction false} CycleStepEmpty(env: Env, root: string, trace: seq<Step>, a: string, b: string, j: nat)
    requires Traced(env, root, trace) && a != b && PlainName(a) && PlainName(b)
    requires a in env.raw && env.raw[a] == "{{" + b + "}}"
    requires b in env.raw && env.raw[b] == "{{" + a + "}}"
    requires j < |trace| && (trace[j].name == a || trace[j].name == b)
    ensures trace[j].value == ""
    decreases j
  {
    var x := trace[j].name;
    var y := if x == a then b else a;
    var c := CacheOf(trace[..j]);
    assert StepOk(trace[j], env, root, c);
    PlaceholderVariant(y);
    assert trace[j].variant == "{{" + y + "}}";
    LoneVariableFill(y, env, c, trace[j].conds);
    if y in c {
      TracedPrefix(env, root, trace, j);
      CachedExpansion(env, root, trace[..j], y);
      var i :| (0 <= i < j && trace[..j][i].name == y && c[y] == trace[..j][i].value
        && StepOk(trace[..j][i], env, root, CacheOf(trace[..j][..i])));
      assert trace[..j][i] == trace[i];
      CycleStepEmpty(env, root, trace, a, b, i);
    }
  }

  /** After any calls, both names of the cycle `a={{b}}`, `b={{a}}` look up as "". */
  lemma {:induction false} CycleEmpty(env: Env, root: string, trace: seq<Step>, a: string, b: string)
    requires Traced(env, root, trace) && a != b && PlainName(a) && PlainName(b)
    requires a in env.raw && env.raw[a] == "{{" + b + "}}"
    requires b in env.raw && env.raw[b] == "{{" + a + "}}"
    ensures Lookup(a, env, CacheOf(trace)) == "" && Lookup(b, env, CacheOf(trace)) == ""
  {
    forall x | x in {a, b} && x in CacheOf(trace) ensures CacheOf(trace)[x] == "" {
      CachedExpansion(env, root, trace, x);
      var j :| (0 <= j < |trace| && trace[j].name == x && CacheOf(trace)[x] == trace[j].value
        && StepOk(trace[j], env, root, CacheOf(trace[..j])));
      CycleStepEmpty(env, root, trace, a, b, j);
    }
  }

  /** The template `{{n}}` for a plain name mentions the name. */
  lemma {:induction false} PlaceholderMentions(n: string)
    requires PlainName(n)
    ensures Mentions("{{" + n + "}}", n)
  {
    PiecesOfPlaceholder(n);
    var ps := Regex.Pieces(PlaceholderAt, "{{" + n + "}}");
    assert ps[..0] == [];
  }

  /**
    A two-name cycle `a={{b}}`, `b={{a}}`: the fresh resolve_variable call on
    `a` that the pass over `{{a}}` makes gives "", and so does whatever it
    left cached for `b`.
   */
  method TwoNameCycle(env: Env, a: string, b: string) returns (outer: string, cachedB: string)
    requires a != b && PlainName(a) && PlainName(b)
    requires a in env.raw && env.raw[a] == "{{" + b + "}}"
    requires b in env.raw && env.raw[b] == "{{" + a + "}}"
    ensures outer == "" && cachedB == ""
  {
    PlaceholderMentions(a);
    var resolver := new Resolver(env, "{{" + a + "}}");
    ghost var ch, cs;
    outer, ch, cs := resolver.ResolveVariable(a, []);
    cachedB := Lookup(b, env, resolver.cache);
    CycleEmpty(env, resolver.root, resolver.trace, a, b);
  }

  /** A lone `{{n}}` for a defined, non-empty plain name fills to the name's cached expansion. */
  lemma {:induction false} LoneDefinedVariable(n: string, env: Env, root: string, trace: seq<Step>, conds: seq<bool>)
    requires PlainName(n) && Traced(env, root, trace) && n in env.raw && env.raw[n] != ""
    requires |conds| == |Regex.Pieces(PlaceholderAt, "{{" + n + "}}")|
    requires PiecesSettled(Regex.Pieces(PlaceholderAt, "{{" + n + "}}"), env, CacheOf(trace), [], conds)
    ensures n in CacheOf(trace)
    ensures Fill(Regex.Pieces(PlaceholderAt, "{{" + n + "}}"), env, CacheOf(trace), conds) == CacheOf(trace)[n]
  {
    PiecesOfPlaceholder(n);
    LoneVariableFill(n, env, CacheOf(trace), conds);
    assert HoleSettled(Inner("{{" + n + "}}"), env, CacheOf(trace), [], conds[0]);
  }

  /** A lone `{{n}}` for a plain name whose value has no `|` and no `{` fills to the value, stripped. */
  lemma {:induction false} LonePlainVariable(n: string, env: Env, root: string, trace: seq<Step>, conds: seq<bool>)
    requires PlainName(n) && Traced(env, root, trace) && n in env.raw && env.raw[n] != ""
    requires !HasChar(env.raw[n], '|') && !HasChar(env.raw[n], '{')
    requires |conds| == |Regex.Pieces(PlaceholderAt, "{{" + n + "}}")|
    requires PiecesSettled(Regex.Pieces(PlaceholderAt, "{{" + n + "}}"), env, CacheOf(trace), [], conds)
    ensures Fill(Regex.Pieces(PlaceholderAt, "{{" + n + "}}"), env, CacheOf(trace), conds) == Strip(env.raw[n])
  {
    LoneDefinedVariable(n, env, root, trace, conds);
    PlainValueCached(env, root, trace, n);
  }

  /** With `x=hello`, the template `{{x}}` fills to "hello". */
  lemma {:induction false} HelloTemplate(env: Env, root: string, trace: seq<Step>, conds: seq<bool>)
    requires Traced(env, root, trace) && "x" in env.raw && env.raw["x"] == "hello"
    requires |conds| == |Regex.Pieces(PlaceholderAt, "{{x}}")|
    requires PiecesSettled(Regex.Pieces(PlaceholderAt, "{{x}}"), env, CacheOf(trace), [], conds)
    ensures Fill(Regex.Pieces(PlaceholderAt, "{{x}}"), env, CacheOf(trace), conds) == "hello"
  {
    PlainNameX();
    HelloPlain();
    LonePlainVariable("x", env, root, trace, conds);
  }

  /** The last frame of a chain is proper and mentioned by the text beneath it, and the rest is a chain. */
  lemma {:induction false} ChainLast(env: Env, root: string, frames: seq<Frame>)
    requires ChainOk(env, root, frames) && frames != []
    ensures var n := |frames| - 1;
      && ChainOk(env, root, frames[..n]) && FrameOk(env, frames[n]) && Mentions(TextAt(root, frames, n), frames[n].name)
  {
  }

  /** The frame at any depth of a chain is proper and mentioned by the text beneath it. */
  lemma {:induction false} ChainAt(env: Env, root: string, frames: seq<Frame>, f: nat)
    requires ChainOk(env, root, frames) && f < |frames|
    ensures FrameOk(env, frames[f]) && Mentions(TextAt(root, frames, f), frames[f].name)
    decreases |frames|
  {
    var n := |frames| - 1;
    ChainLast(env, root, frames);
    if f < n {
      var below := frames[..n];
      ChainAt(env, root, below, f);
      assert below[f] == frames[f];
      assert TextAt(root, below, f) == TextAt(root, frames, f) by {
        if f > 0 {
          assert below[f - 1] == frames[f - 1];
        }
      }
    } else {
      assert f == n;
    }
  }

  /** A value without `|` or `{` is its own only variant, stripped, and that has no `{`. */
  lemma {:induction false} PlainVariant(v: string)
    requires !HasChar(v, '|') && !HasChar(v, '{')
    ensures Variants(v) == [Strip(v)] && !HasChar(Strip(v), '{')
  {
    ContainsChar(v, '|');
    VariantsSingle(v);
    var t := Strip(v);
    var k0 := StripSlice(v);
    forall i | 0 <= i < |t| ensures t[i] != '{' { assert t[i] == v[k0 + i]; }
  }

  /** The variants of a value without `|` or `{` mention no name. */
  lemma {:induction false} PlainMentionsNothing(v: string, variant: string, name: string)
    requires !HasChar(v, '|') && !HasChar(v, '{') && variant in Variants(v)
    ensures !Mentions(variant, name)
  {
    PlainVariant(v);
    NoBraceNoPlaceholder(variant);
    Regex.PiecesNoMatch(PlaceholderAt, variant);
    PlainNoRefs(Regex.Pieces(PlaceholderAt, variant));
  }

  /** Pieces without a placeholder refer to no name. */
  lemma {:induction false} PlainNoRefs(ps: seq<Regex.Piece>)
    requires forall k :: 0 <= k < |ps| ==> ps[k].Plain?
    ensures RefsOf(ps) == {}
    decreases |ps|
  {
    if ps != [] {
      PlainNoRefs(ps[..|ps| - 1]);
    }
  }

  /** Each frame of a chain but the last is proper and its variant mentions the next frame's name. */
  lemma {:induction false} ChainLink(env: Env, root: string, frames: seq<Frame>, f: nat)
    requires ChainOk(env, root, frames) && f + 1 < |frames|
    ensures FrameOk(env, frames[f]) && Mentions(frames[f].variant, frames[f + 1].name)
  {
    ChainAt(env, root, frames, f);
    ChainAt(env, root, frames, f + 1);
  }

  /** A name whose value has no `|` or `{` starts no nested expansion, so no frame but the last of a chain has it. */
  lemma {:induction false} PlainNotOnChain(env: Env, root: string, frames: seq<Frame>, b: string)
    requires ChainOk(env, root, frames)
    requires b in env.raw && !HasChar(env.raw[b], '|') && !HasChar(env.raw[b], '{')
    ensures forall f :: 0 <= f < |frames| - 1 ==> frames[f].name != b
  {
    forall f | 0 <= f < |frames| - 1 ensures frames[f].name != b {
      ChainLink(env, root, frames, f);
      if frames[f].name == b {
        PlainMentionsNothing(env.raw[b], frames[f].variant, frames[f + 1].name);
      }
    }
  }

  /** Such a name is never on the stack of another expansion. */
  lemma {:induction false} PlainNotBelow(env: Env, root: string, st: Step, b: string)
    requires ChainOk(env, root, st.frames + [Frame(st.name, st.variant)])
    requires b in env.raw && !HasChar(env.raw[b], '|') && !HasChar(env.raw[b], '{')
    ensures b !in Names(st.frames)
  {
    var o := st.frames + [Frame(st.name, st.variant)];
    PlainNotOnChain(env, root, o, b);
    forall f | 0 <= f < |st.frames| ensures Names(st.frames)[f] != b {
      assert o[f] == st.frames[f];
    }
  }

  /**
    An honest expansion of a variable whose value is the lone placeholder
    `{{b}}`, for a plain name `b` whose value has no `|` and no `{`, is b's
    value, stripped: the nested placeholder was expanded first.
   */
  lemma {:induction false} NestedPlainStep(env: Env, root: string, trace: seq<Step>, st: Step, b: string)
    requires Traced(env, root, trace) && StepOk(st, env, root, CacheOf(trace))
    requires st.name != b && PlainName(b) && env.raw[st.name] == "{{" + b + "}}"
    requires b in env.raw && env.raw[b] != "" && !HasChar(env.raw[b], '|') && !HasChar(env.raw[b], '{')
    ensures st.value == Strip(env.raw[b])
  {
    PlaceholderVariant(b);
    assert st.variant == "{{" + b + "}}";
    PlainNotBelow(env, root, st, b);
    PiecesOfPlaceholder(b);
    var before := CacheOf(trace);
    assert HoleSettled(Inner("{{" + b + "}}"), env, before, Names(st.frames) + [st.name], st.conds[0]);
    assert b in before;
    PlainValueCached(env, root, trace, b);
    LoneVariableFill(b, env, before, st.conds);
  }

  /** A variable whose value is `{{b}}`, for such a `b`, is cached as b's value, stripped. */
  lemma {:induction false} NestedPlainCached(env: Env, root: string, trace: seq<Step>, a: string, b: string)
    requires Traced(env, root, trace) && a in CacheOf(trace)
    requires a != b && PlainName(b) && a in env.raw && env.raw[a] == "{{" + b + "}}"
    requires b in env.raw && env.raw[b] != "" && !HasChar(env.raw[b], '|') && !HasChar(env.raw[b], '{')
    ensures CacheOf(trace)[a] == Strip(env.raw[b])
  {
    CachedExpansion(env, root, trace, a);
    var j :| (0 <= j < |trace| && trace[j].name == a && CacheOf(trace)[a] == trace[j].value
      && StepOk(trace[j], env, root, CacheOf(trace[..j])));
    TracedPrefix(env, root, trace, j);
    NestedPlainStep(env, root, trace[..j], trace[j], b);
  }

  /**
    After a pass with an empty stack, the template `{{a}}`, for a plain name
    `a` whose value is `{{b}}` and a plain name `b` whose value has no `|`
    and no `{`, fills to b's value, stripped.
   */
  lemma {:induction false} NestedPlainTemplate(env: Env, root: string, trace: seq<Step>, conds: seq<bool>, a: string, b: string)
    requires Traced(env, root, trace) && PlainName(a) && PlainName(b) && a != b
    requires a in env.raw && env.raw[a] == "{{" + b + "}}"
    requires b in env.raw && env.raw[b] != "" && !HasChar(env.raw[b], '|') && !HasChar(env.raw[b], '{')
    requires |conds| == |Regex.Pieces(PlaceholderAt, "{{" + a + "}}")|
    requires PiecesSettled(Regex.Pieces(PlaceholderAt, "{{" + a + "}}"), env, CacheOf(trace), [], conds)
    ensures Fill(Regex.Pieces(PlaceholderAt, "{{" + a + "}}"), env, CacheOf(trace), conds) == Strip(env.raw[b])
  {
    LoneDefinedVariable(a, env, root, trace, conds);
    NestedPlainCached(env, root, trace, a, b);
  }

  lemma {:induction false} PlainNameX()
    ensures PlainName("x") && "{{" + "x" + "}}" == "{{x}}"
  {
    ClassifyX();
  }

  lemma {:induction false} HelloPlain()
    ensures !HasChar("hello", '|') && !HasChar("hello", '{') && Strip("hello") == "hello"
  {
    StripNoop("hello");
  }

  /** `a` and `b` are plain names, so `a={{b}}`, `b={{a}}` is such a cycle. */
  lemma {:induction false} PlainNamesAB()
    ensures PlainName("a") && PlainName("b")
  {
    StripNoop("a");
    StripNoop("b");
    assert Lower("a") == "a" && Upper("a") == "A";
    assert Lower("b") == "b" && Upper("b") == "B";
    assert !Contains("a", "??") && !Contains("b", "??");
  }

  // ---------------------------------------------------------------------
  // get_variable
  // ---------------------------------------------------------------------

  /**
    The output rule of get_variable: "" when the output follows the switch and
    the switch is off, otherwise `<name> = <value>` for a non-blank name and
    the value alone for a blank one.
   */
  function WrapOutput(outValBySwitch: bool, switch: bool, varName: string, value: string): (r: string)
    ensures outValBySwitch && !switch ==> r == ""
  {
    if outValBySwitch && !switch then ""
    else if Strip(varName) != "" then Strip(varName) + " = " + value
    else value
  }

  /** The wrapped output starts with the stripped name and ends with the value, which is recoverable. */
  lemma {:induction false} WrapOutputParts(outValBySwitch: bool, switch: bool, varName: string, value: string)
    requires !(outValBySwitch && !switch)
    ensures var r := WrapOutput(outValBySwitch, switch, varName, value); var n := Strip(varName);
      && (n == "" ==> r == value)
      && (n != "" ==> StartsWith(r, n + " = ") && r[|n| + 3..] == value)
  {
    var r := WrapOutput(outValBySwitch, switch, varName, value);
    var n := Strip(varName);
    if n != "" {
      assert r[..|n| + 3] == n + " = ";
    }
  }

  /**
    TextVariableBuilder.get_variable: parse INPUT_VAR, strip comments from the
    template, expand it when the switch is on, and wrap the result.
   */
  method GetVariable(switch: bool, outValBySwitch: bool, varName: string, varValue: string, input: InputVar,
                     date: string, time: string)
    returns (result: string, ghost env: Env, ghost trace: seq<Step>, ghost conds: seq<bool>)
    ensures env.raw == Definitions(InputLines(input)) && env.default == DefaultOf(InputLines(input))
    ensures env.date == date && env.time == time
    ensures var template := if varValue != "" then SinglelineCommentsRemoved(RemoveMultilineComments(varValue)) else "";
      var ps := Regex.Pieces(PlaceholderAt, template);
      && Honest(env, template, CacheOf(trace), trace, [])
      && |conds| == |ps| && (switch ==> CondsOk(ps, env, conds) && PiecesSettled(ps, env, CacheOf(trace), [], conds))
      && (switch ==> PassWith(env, ChoicesOf(trace), ps, [], map[], conds) == (Fill(ps, env, CacheOf(trace), conds), CacheOf(trace)))
      && (!switch ==> trace == [])
      && result == WrapOutput(outValBySwitch, switch, varName, if switch then Fill(ps, env, CacheOf(trace), conds) else "")
  {
    var lines := SplitInputLines(input);
    var raw, default := ParseInputLines(lines);
    var e := Env(raw, default, date, time);
    env := e;
    var template := "";
    if varValue != "" {
      template := StripAllComments(varValue);
    }
    var resolver := new Resolver(e, template);
    var value := "";
    conds := seq(|Regex.Pieces(PlaceholderAt, template)|, _ => false);
    if switch {
      value, conds := resolver.ReplacePlaceholders(template, []);
    }
    trace := resolver.trace;
    result := WrapOutput(outValBySwitch, switch, varName, value);
  }

  /** A name that strip_all_comments leaves alone inside `{{...}}`: one line, no `#`, no slash-star. */
  predicate CommentFree(n: string) {
    NoLineBreak(n) && !HasChar(n, '#') && NoPair(n, '/', '*')
  }

  /** The template `{{n}}` for a brace-free, comment-free name passes strip_all_comments unchanged. */
  lemma {:induction false} LoneTemplateKept(n: string)
    requires CommentFree(n) && forall i :: 0 <= i < |n| ==> NotBrace(n[i])
    ensures SinglelineCommentsRemoved(RemoveMultilineComments("{{" + n + "}}")) == "{{" + n + "}}"
  {
    var t := "{{" + n + "}}";
    assert forall i :: 2 <= i < 2 + |n| ==> t[i] == n[i - 2];
    assert forall i :: 0 <= i < |t| ==> (t[i] == '{' || t[i] == '}' || (2 <= i < 2 + |n| && t[i] == n[i - 2]));
    assert NoLineBreak(t);
    assert !HasChar(t, '#');
    assert NoPair(t, '/', '*') by {
      forall i | 0 <= i < |t| - 1 ensures !(t[i] == '/' && t[i + 1] == '*') {
        if 2 <= i && i + 1 < 2 + |n| {
          assert t[i] == n[i - 2] && t[i + 1] == n[i - 1];
        }
      }
    }
    PlainLineKept(t);
  }

  /**
    get_variable with the template `{{n}}`, for a defined name whose value
    has no `|` and no `{`, and the switch on: the output wraps that value,
    stripped.
   */
  method LonePlainOutput(outValBySwitch: bool, varName: string, n: string, input: InputVar, date: string, time: string)
    returns (result: string)
    requires PlainName(n) && CommentFree(n)
    requires var raw := Definitions(InputLines(input));
      n in raw && raw[n] != "" && !HasChar(raw[n], '|') && !HasChar(raw[n], '{')
    ensures result == WrapOutput(outValBySwitch, true, varName, Strip(Definitions(InputLines(input))[n]))
  {
    LoneTemplateKept(n);
    ghost var env, trace, conds;
    result, env, trace, conds := GetVariable(true, outValBySwitch, varName, "{{" + n + "}}", input, date, time);
    LonePlainVariable(n, env, "{{" + n + "}}", trace, conds);
  }

  /** The one line `x=hello` defines `x` as "hello". */
  lemma {:induction false} OneDefinition()
    ensures Definitions(InputLines(Text("x=hello"))) == map["x" := "hello"]
  {
    HelloLine();
    HelloDefinition();
  }

  /** `x=hello` is one input line. */
  lemma {:induction false} HelloLine()
    ensures InputLines(Text("x=hello")) == ["x=hello"]
  {
    var line := "x=hello";
    assert NoLineBreak(line);
    StripNoop(line);
  }

  /** The line `x=hello` defines `x` as "hello". */
  lemma {:induction false} HelloDefinition()
    ensures Definitions(["x=hello"]) == map["x" := "hello"]
  {
    var line := "x=hello";
    assert line[0..1] == "x" && line[1..2] == "=";
    IndexOfIs(line, "=", 1);
    assert Before(line, "=") == "x" && After(line, "=") == "hello";
    StripNoop("x");
    StripNoop("hello");
    assert [line][..0] == [];
  }

  /** The template `{{x}}` has no comment to strip. */
  lemma {:induction false} TemplateKept()
    ensures SinglelineCommentsRemoved(RemoveMultilineComments("{{x}}")) == "{{x}}"
  {
    PlainLineKept("{{x}}");
  }

  /**
    get_variable with INPUT_VAR `x=hello`, the template `{{x}}`, the name `v`
    and the switch on returns `v = hello`.
   */
  method HelloOutput(date: string, time: string) returns (result: string)
    ensures result == "v = hello"
  {
    OneDefinition();
    TemplateKept();
    WrapHello();
    ghost var env, trace, conds;
    result, env, trace, conds := GetVariable(true, false, "v", "{{x}}", Text("x=hello"), date, time);
    HelloTemplate(env, "{{x}}", trace, conds);
  }

  lemma {:induction false} WrapHello()
    ensures WrapOutput(false, true, "v", "hello") == "v = hello"
  {
    StripNoop("v");
  }

  /** The line `n=v`, for a one-character name and a value without `=` or padding, defines `n` as `v`. */
  lemma {:induction false} ShortDefinition(line: string, n: string, v: string)
    requires |n| == 1 && n[0] != '=' && !IsSpace(n[0]) && line == n + "=" + v
    requires v == [] || (!IsSpace(v[0]) && !IsSpace(v[|v| - 1]))
    ensures IsDefinitionLine(line) && NameOf(line) == n && ValueOf(line) == v
  {
    assert line[0..1] == n && line[1..2] == "=";
    IndexOfIs(line, "=", 1);
    assert Before(line, "=") == n && After(line, "=") == v;
    StripNoop(n);
    StripNoop(v);
  }

  /** Two short definition lines `n1=v1` and `n2=v2` define their two names, the second winning. */
  lemma {:induction false} TwoDefinitions(n1: string, v1: string, n2: string, v2: string)
    requires |n1| == 1 && n1[0] != '=' && !IsSpace(n1[0]) && (v1 == [] || (!IsSpace(v1[0]) && !IsSpace(v1[|v1| - 1])))
    requires |n2| == 1 && n2[0] != '=' && !IsSpace(n2[0]) && (v2 == [] || (!IsSpace(v2[0]) && !IsSpace(v2[|v2| - 1])))
    ensures Definitions([n1 + "=" + v1, n2 + "=" + v2]) == map[n1 := v1][n2 := v2]
  {
    var l1, l2 := n1 + "=" + v1, n2 + "=" + v2;
    ShortDefinition(l1, n1, v1);
    ShortDefinition(l2, n2, v2);
    var lines := [l1, l2];
    assert [l1][..0] == [];
    assert Definitions([l1]) == map[n1 := v1];
    assert lines[..1] == [l1] && lines[1] == l2;
  }

  /** The list input of two short definition lines gives those lines, which define their two names. */
  lemma {:induction false} TwoDefinitionItems(n1: string, v1: string, n2: string, v2: string)
    requires |n1| == 1 && n1[0] != '=' && !IsSpace(n1[0]) && (v1 == [] || (!IsSpace(v1[0]) && !IsSpace(v1[|v1| - 1])))
    requires |n2| == 1 && n2[0] != '=' && !IsSpace(n2[0]) && (v2 == [] || (!IsSpace(v2[0]) && !IsSpace(v2[|v2| - 1])))
    ensures var l1, l2 := n1 + "=" + v1, n2 + "=" + v2;
      && InputLines(Items([Some(l1), Some(l2)])) == [l1, l2]
      && Definitions([l1, l2]) == map[n1 := v1][n2 := v2]
  {
    var l1, l2 := n1 + "=" + v1, n2 + "=" + v2;
    var items := [Some(l1), Some(l2)];
    assert l1[0] == n1[0] && l2[0] == n2[0];
    assert l1[|l1| - 1] == if v1 == [] then '=' else v1[|v1| - 1];
    assert l2[|l2| - 1] == if v2 == [] then '=' else v2[|v2| - 1];
    StripNoop(l1);
    StripNoop(l2);
    assert items[..1] == [Some(l1)] && items[..1][..0] == [];
    assert PresentStripped(items[..1]) == [l1];
    assert PresentStripped(items) == PresentStripped(items[..1]) + [l2];
    TwoDefinitions(n1, v1, n2, v2);
  }

  /**
    get_variable with the template `{{a}}`, for a variable `a` defined as
    `{{b}}` and a plain name `b` whose value has no `|` and no `{`, and the
    switch on: the output wraps b's value, stripped, since the nested
    placeholder is expanded while `a` is.
   */
  method NestedPlainOutput(outValBySwitch: bool, varName: string, a: string, b: string, input: InputVar,
                           date: string, time: string)
    returns (result: string)
    requires PlainName(a) && CommentFree(a) && PlainName(b) && a != b
    requires var raw := Definitions(InputLines(input));
      && a in raw && raw[a] == "{{" + b + "}}"
      && b in raw && raw[b] != "" && !HasChar(raw[b], '|') && !HasChar(raw[b], '{')
    ensures result == WrapOutput(outValBySwitch, true, varName, Strip(Definitions(InputLines(input))[b]))
  {
    LoneTemplateKept(a);
    ghost var env, trace, conds;
    result, env, trace, conds := GetVariable(true, outValBySwitch, varName, "{{" + a + "}}", input, date, time);
    NestedPlainTemplate(env, "{{" + a + "}}", trace, conds, a, b);
  }

  /**
    get_variable with the list INPUT_VAR `["a={{b}}", "b=hello"]`, the
    template `{{a}}`, the name `v` and the switch on returns `v = hello`.
   */
  method NestedHelloOutput(date: string, time: string) returns (result: string)
    ensures result == "v = hello"
  {
    TwoDefinitionItems("a", "{{b}}", "b", "hello");
    PlainNamesAB();
    NestedNames();
    HelloPlain();
    WrapHello();
    result := NestedPlainOutput(false, "v", "a", "b", Items([Some("a={{b}}"), Some("b=hello")]), date, time);
  }

  lemma {:induction false} NestedNames()
    ensures CommentFree("a") && "{{" + "b" + "}}" == "{{b}}"
    ensures "a" + "=" + "{{b}}" == "a={{b}}" && "b" + "=" + "hello" == "b=hello"
    ensures map["a" := "{{b}}"]["b" := "hello"] == map["a" := "{{b}}", "b" := "hello"]
  {
  }

  /** Every draw an honest trace records is a variant of its name's raw value. */
  lemma {:induction false} ChoicesVariants(env: Env, root: string, trace: seq<Step>)
    requires Traced(env, root, trace)
    ensures forall n :: n in ChoicesOf(trace) ==>
      n in env.raw && ChoicesOf(trace)[n].variant in Variants(env.raw[n])
    decreases |trace|
  {
    if trace != [] {
      var n := |trace| - 1;
      TracedPrefix(env, root, trace, n);
      ChoicesVariants(env, root, trace[..n]);
      assert StepOk(trace[n], env, root, CacheOf(trace[..n]));
    }
  }

  /** A leading placeholder `{{n}}` is one piece, before the pieces of the rest. */
  lemma {:induction false} PiecesOfLeading(n: string, rest: string)
    requires forall i :: 0 <= i < |n| ==> NotBrace(n[i])
    ensures Regex.Pieces(PlaceholderAt, "{{" + n + "}}" + rest) ==
      [Regex.Found("{{" + n + "}}")] + Regex.Pieces(PlaceholderAt, rest)
  {
    var p := "{{" + n + "}}";
    var s := p + rest;
    assert forall i :: 2 <= i < 2 + |n| ==> NotBrace(s[i]) by {
      forall i | 2 <= i < 2 + |n| ensures NotBrace(s[i]) { assert s[i] == n[i - 2]; }
    }
    assert s[2 + |n|] == '}' && s[3 + |n|] == '}';
    Regex.RunEndIs(s, 2, NotBrace, 2 + |n|);
    assert PlaceholderAt(s) == |p|;
    assert s[..|p|] == p && s[|p|..] == rest;
  }

  /** A value `c{{n}}`, for a plain name and a character that is no brace, no `|` and no space, is its own only variant. */
  lemma {:induction false} GuardedVariant(c: char, n: string)
    requires PlainName(n) && c != '|' && !IsSpace(c)
    ensures Variants([c] + "{{" + n + "}}") == [[c] + "{{" + n + "}}"]
  {
    var v := [c] + "{{" + n + "}}";
    assert !HasChar(v, '|') by {
      forall i | 0 <= i < |v| ensures v[i] != '|' {
        if 3 <= i < 3 + |n| { assert v[i] == n[i - 3]; }
      }
    }
    assert v[|v| - 1] == '}';
    StripNoop(v);
    ContainsChar(v, '|');
    VariantsSingle(v);
  }

  /** A leading character other than `{` is a plain piece, before the pieces of the rest. */
  lemma {:induction false} PiecesOfLeadingChar(c: char, rest: string)
    requires c != '{'
    ensures Regex.Pieces(PlaceholderAt, [c] + rest) == [Regex.Plain(c)] + Regex.Pieces(PlaceholderAt, rest)
  {
    var v := [c] + rest;
    assert v[0] == c && v[1..] == rest;
    assert PlaceholderAt(v) == 0;
  }

  /** The value `c{{n}}`, for a character that is no brace, is that character and a placeholder. */
  lemma {:induction false} GuardedPieces(c: char, n: string)
    requires PlainName(n) && NotBrace(c)
    ensures Regex.Pieces(PlaceholderAt, [c] + "{{" + n + "}}") == [Regex.Plain(c), Regex.Found("{{" + n + "}}")]
  {
    var t := "{{" + n + "}}";
    assert [c] + "{{" + n + "}}" == [c] + t;
    PiecesOfLeadingChar(c, t);
    PiecesOfPlaceholder(n);
    assert [Regex.Plain(c)] + [Regex.Found(t)] == [Regex.Plain(c), Regex.Found(t)];
  }

  /** The pass over one more plain character appends it to the pass before. */
  lemma {:induction false} PassPlain(env: Env, o: map<string, Choice>, ps: seq<Regex.Piece>, ch: char, stack: seq<string>,
                                     cache: map<string, string>, conds: seq<bool>)
    ensures var (front, c) := PassWith(env, o, ps, stack, cache, conds);
      PassWith(env, o, ps + [Regex.Plain(ch)], stack, cache, conds) == (front + [ch], c)
  {
    assert (ps + [Regex.Plain(ch)])[..|ps|] == ps;
  }

  /** The pass over one more placeholder, naming a plain variable, appends that variable's resolution after the pass before. */
  lemma {:induction false} PassPlaceholder(env: Env, o: map<string, Choice>, ps: seq<Regex.Piece>, n: string, stack: seq<string>,
                                           cache: map<string, string>, conds: seq<bool>)
    requires PlainName(n)
    ensures var (front, c) := PassWith(env, o, ps, stack, cache, conds);
      var (v, c2) := ResolveWith(env, o, n, stack, c);
      PassWith(env, o, ps + [Regex.Found("{{" + n + "}}")], stack, cache, conds) == (front + v, c2)
  {
    PiecesOfPlaceholder(n);
    assert (ps + [Regex.Found("{{" + n + "}}")])[..|ps|] == ps;
  }

  /** The pass over a single piece is that piece's text or its repl. */
  lemma {:induction false} PassSingle(env: Env, o: map<string, Choice>, p: Regex.Piece, stack: seq<string>,
                                      cache: map<string, string>, conds: seq<bool>)
    ensures p.Plain? ==> PassWith(env, o, [p], stack, cache, conds) == ([p.c], cache)
    ensures p.Found? ==>
      PassWith(env, o, [p], stack, cache, conds) == ReplWith(env, o, Inner(p.text), stack, cache, if 0 < |conds| then conds[0] else false)
  {
    var ps := [p];
    assert ps[..0] == [];
    assert PassWith(env, o, ps[..0], stack, cache, conds) == ("", cache);
    match p
    case Plain(ch) => assert "" + [ch] == [ch];
    case Found(t) =>
      var v := ReplWith(env, o, Inner(t), stack, cache, if 0 < |conds| then conds[0] else false).0;
      assert "" + v == v;
  }

  /** Inside b's expansion inside a's, `a` is on the stack: b's variant `c{{a}}` fills to `c` and caches nothing. */
  lemma {:induction false} CrossedInner(env: Env, o: map<string, Choice>, a: string, b: string, c: char, cb: seq<bool>)
    requires PlainName(a)
    ensures PassWith(env, o, [Regex.Plain(c), Regex.Found("{{" + a + "}}")], [a, b], map[], cb) == ([c], map[])
  {
    var ta := "{{" + a + "}}";
    PassSingle(env, o, Regex.Plain(c), [a, b], map[], cb);
    var empty := ResolveWith(env, o, a, [a, b], map[]);
    assert empty == ("", map[]);
    PassPlaceholder(env, o, [Regex.Plain(c)], a, [a, b], map[], cb);
    assert [Regex.Plain(c)] + [Regex.Found(ta)] == [Regex.Plain(c), Regex.Found(ta)];
    assert [c] + "" == [c];
  }

  /**
    A defined name off the stack and not yet cached, whose raw value has the
    single variant `w`, resolves to the pass over `w` with the name pushed,
    and is then cached, when that pass gives the same for every test outcome.
   */
  lemma {:induction false} ResolveSingle(env: Env, o: map<string, Choice>, n: string, stack: seq<string>,
                                         cache: map<string, string>, w: string, v: string, c: map<string, string>)
    requires !Reserved(n) && n !in cache && n !in stack && n in env.raw && env.raw[n] != ""
    requires Variants(env.raw[n]) == [w] && (n in o ==> o[n].variant in Variants(env.raw[n]))
    requires forall cs :: PassWith(env, o, Regex.Pieces(PlaceholderAt, w), stack + [n], cache, cs) == (v, c)
    ensures ResolveWith(env, o, n, stack, cache) == (v, c[n := v])
  {
    var ch := if n in o then o[n] else Choice(Variants(env.raw[n])[0], []);
    assert ch.variant == w;
    assert PassWith(env, o, Regex.Pieces(PlaceholderAt, w), stack + [n], cache, ch.conds) == (v, c);
  }

  /** Inside a's expansion, `b` expands to `c` and is cached. */
  lemma {:induction false} CrossedInnerB(env: Env, o: map<string, Choice>, a: string, b: string, c: char)
    requires PlainName(a) && PlainName(b) && a != b
    requires b in env.raw && env.raw[b] == [c] + "{{" + a + "}}"
    requires NotBrace(c) && c != '|' && !IsSpace(c)
    requires b in o ==> o[b].variant in Variants(env.raw[b])
    ensures ResolveWith(env, o, b, [a], map[]) == ([c], map[b := [c]])
  {
    var w := [c] + "{{" + a + "}}";
    GuardedVariant(c, a);
    GuardedPieces(c, a);
    assert [a] + [b] == [a, b];
    forall cs ensures PassWith(env, o, Regex.Pieces(PlaceholderAt, w), [a] + [b], map[], cs) == ([c], map[]) {
      CrossedInner(env, o, a, b, c, cs);
    }
    ResolveSingle(env, o, b, [a], map[], w, [c], map[]);
  }

  /** The first placeholder expands `a`, which caches `b` and then `a`, both as `c`. */
  lemma {:induction false} CrossedA(env: Env, o: map<string, Choice>, a: string, b: string, c: char)
    requires PlainName(a) && PlainName(b) && a != b
    requires a in env.raw && env.raw[a] == "{{" + b + "}}"
    requires b in env.raw && env.raw[b] == [c] + "{{" + a + "}}"
    requires NotBrace(c) && c != '|' && !IsSpace(c)
    requires a in o ==> o[a].variant in Variants(env.raw[a])
    requires b in o ==> o[b].variant in Variants(env.raw[b])
    ensures ResolveWith(env, o, a, [], map[]) == ([c], map[b := [c]][a := [c]])
  {
    var w := "{{" + b + "}}";
    PlaceholderVariant(b);
    CrossedInnerB(env, o, a, b, c);
    assert [] + [a] == [a];
    forall cs ensures PassWith(env, o, Regex.Pieces(PlaceholderAt, w), [] + [a], map[], cs) == ([c], map[b := [c]]) {
      LonePass(env, o, b, [a], map[], [c], map[b := [c]], cs);
    }
    ResolveSingle(env, o, a, [], map[], w, [c], map[b := [c]]);
  }

  /**
    Two variables that refer to each other: `a` defined as `{{b}}` and `b` as
    `c{{a}}`, for a character `c` that is no brace, no `|` and no space.
    Whatever the draws, the template `{{a}}{{b}}` fills to `cc`. The leftmost
    placeholder expands `a` first. Inside it, `b` finds `a` on the stack, so
    `b` is cached as `c`. The second placeholder then reads `b` from the cache.
   */
  lemma {:induction false} CrossedPass(env: Env, o: map<string, Choice>, a: string, b: string, c: char, conds: seq<bool>)
    requires PlainName(a) && PlainName(b) && a != b
    requires a in env.raw && env.raw[a] == "{{" + b + "}}"
    requires b in env.raw && env.raw[b] == [c] + "{{" + a + "}}"
    requires NotBrace(c) && c != '|' && !IsSpace(c)
    requires a in o ==> o[a].variant in Variants(env.raw[a])
    requires b in o ==> o[b].variant in Variants(env.raw[b])
    ensures PassWith(env, o, Regex.Pieces(PlaceholderAt, "{{" + a + "}}" + "{{" + b + "}}"), [], map[], conds).0 == [c] + [c]
  {
    TwoPlaceholders(a, b);
    CrossedA(env, o, a, b, c);
    LonePass(env, o, a, [], map[], [c], map[b := [c]][a := [c]], conds);
    CrossedSecond(env, o, a, b, [c], map[b := [c]][a := [c]], conds);
  }

  /** A lone placeholder `{{n}}` for a plain name passes to n's resolution. */
  lemma {:induction false} LonePass(env: Env, o: map<string, Choice>, n: string, stack: seq<string>, cache: map<string, string>,
                                    v: string, c1: map<string, string>, conds: seq<bool>)
    requires PlainName(n) && ResolveWith(env, o, n, stack, cache) == (v, c1)
    ensures PassWith(env, o, Regex.Pieces(PlaceholderAt, "{{" + n + "}}"), stack, cache, conds) == (v, c1)
    ensures PassWith(env, o, [Regex.Found("{{" + n + "}}")], stack, cache, conds) == (v, c1)
  {
    PiecesOfPlaceholder(n);
    PassSingle(env, o, Regex.Found("{{" + n + "}}"), stack, cache, conds);
    assert Classify(n) == VarRef(n);
  }

  /** A second placeholder `{{b}}`, for a name the first one cached, appends b's cached value. */
  lemma {:induction false} CrossedSecond(env: Env, o: map<string, Choice>, a: string, b: string, v: string,
                                         c1: map<string, string>, conds: seq<bool>)
    requires PlainName(b) && b in c1 && c1[b] == v
    requires PassWith(env, o, [Regex.Found("{{" + a + "}}")], [], map[], conds) == (v, c1)
    ensures PassWith(env, o, [Regex.Found("{{" + a + "}}")] + [Regex.Found("{{" + b + "}}")], [], map[], conds).0 == v + v
  {
    assert ResolveWith(env, o, b, [], c1) == (v, c1);
    PassPlaceholder(env, o, [Regex.Found("{{" + a + "}}")], b, [], map[], conds);
  }

  /** The template `{{a}}{{b}}`, for two plain names, is two placeholders. */
  lemma {:induction false} TwoPlaceholders(a: string, b: string)
    requires PlainName(a) && PlainName(b)
    ensures Regex.Pieces(PlaceholderAt, "{{" + a + "}}" + "{{" + b + "}}") ==
      [Regex.Found("{{" + a + "}}")] + [Regex.Found("{{" + b + "}}")]
  {
    var ta, tb := "{{" + a + "}}", "{{" + b + "}}";
    PiecesOfPlaceholder(b);
    PiecesOfLeading(a, tb);
    assert ta + tb == "{{" + a + "}}" + "{{" + b + "}}";
  }

  /** The template `{{a}}{{b}}` has no comment to strip. */
  lemma {:induction false} CrossedKept()
    ensures SinglelineCommentsRemoved(RemoveMultilineComments("{{a}}{{b}}")) == "{{a}}{{b}}"
  {
    PlainLineKept("{{a}}{{b}}");
  }

  /** The template and b's value spelled out by their placeholders. */
  lemma {:induction false} CrossedSpelling()
    ensures "{{a}}{{b}}" == "{{" + "a" + "}}" + "{{" + "b" + "}}"
    ensures "x{{a}}" == ['x'] + "{{" + "a" + "}}" && "{{b}}" == "{{" + "b" + "}}"
    ensures NotBrace('x') && !IsSpace('x') && ['x'] + ['x'] == "xx"
    ensures "a" + "=" + "{{b}}" == "a={{b}}" && "b" + "=" + "x{{a}}" == "b=x{{a}}"
  {
  }

  lemma {:induction false} WrapCrossed()
    ensures WrapOutput(false, true, "v", "xx") == "v = xx"
  {
    StripNoop("v");
  }

  /**
    get_variable with the list INPUT_VAR `["a={{b}}", "b=x{{a}}"]`, the
    template `{{a}}{{b}}`, the name `v` and the switch on returns `v = xx`.
   */
  method CrossedOutput(date: string, time: string) returns (result: string)
    ensures result == "v = xx"
  {
    TwoDefinitionItems("a", "{{b}}", "b", "x{{a}}");
    CrossedKept();
    CrossedSpelling();
    WrapCrossed();
    PlainNamesAB();
    ghost var env, trace, conds;
    result, env, trace, conds := GetVariable(true, false, "v", "{{a}}{{b}}", Items([Some("a={{b}}"), Some("b=x{{a}}")]), date, time);
    CrossedTrace(env, "{{a}}{{b}}", trace, conds, "a", "b", 'x');
  }

  /** An honest trace's draws replay the template `{{a}}{{b}}` over the crossed definitions to `cc`. */
  lemma {:induction false} CrossedTrace(env: Env, root: string, trace: seq<Step>, conds: seq<bool>, a: string, b: string, c: char)
    requires Traced(env, root, trace)
    requires PlainName(a) && PlainName(b) && a != b
    requires a in env.raw && env.raw[a] == "{{" + b + "}}"
    requires b in env.raw && env.raw[b] == [c] + "{{" + a + "}}"
    requires NotBrace(c) && c != '|' && !IsSpace(c)
    ensures PassWith(env, ChoicesOf(trace), Regex.Pieces(PlaceholderAt, "{{" + a + "}}" + "{{" + b + "}}"), [], map[], conds).0 == [c] + [c]
  {
    ChoicesVariants(env, root, trace);
    CrossedPass(env, ChoicesOf(trace), a, b, c, conds);
  }
}
