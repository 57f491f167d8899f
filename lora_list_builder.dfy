/**
  Wan22VideoLoraListBuilder.parse_loras: a LoRA list given as text (or as
  a list of items) is cut into items, each item is cleaned of comments,
  routed to the low-noise list, the high-noise list or both by its trigger
  prefix, split into a name and a strength, and resolved against the LoRA
  file names. The file lookup and the float parsing of the strength are
  parameters.
 */
module LoraListBuilder {
  import opened Wrappers
  import opened Strings
  import Utilities
  import Regex

  // ---------------------------------------------------------------------
  // _clean_comment
  // ---------------------------------------------------------------------

  predicate NotNewline(c: char) { c != '\n' }

  /** Matcher for `//.*?(?=\n|$)` without DOTALL: two slashes up to the next newline or the end. */
  function LineCommentAt(s: string): (n: nat)
    ensures n <= |s|
  {
    if |s| >= 2 && s[0] == '/' && s[1] == '/' then Regex.RunEnd(s, 2, NotNewline) else 0
  }

  /** The replacement of a removed comment. */
  function Erase(m: string): string { "" }

  /** `_clean_comment`: block comments, then line comments, removed; the rest stripped. */
  function CleanComment(text: string): string {
    Strip(Regex.Sub(LineCommentAt, Utilities.RemoveMultilineComments(text), Erase))
  }

  /**
    After the line-comment pass no `//` is left; the output starts with a
    newline (the end of a removed comment) or with the input's own first
    character when that does not open a comment.
   */
  lemma {:induction false} LineCommentsErased(s: string)
    ensures var r := Regex.Sub(LineCommentAt, s, Erase);
      && NoPair(r, '/', '/')
      && (r != [] ==> r[0] == '\n' || (r[0] == s[0] && !(|s| >= 2 && s[0] == '/' && s[1] == '/')))
    decreases |s|
  {
    if s != [] {
      var r := Regex.Sub(LineCommentAt, s, Erase);
      if Regex.MatchesAt(LineCommentAt, s) {
        var n := LineCommentAt(s);
        LineCommentsErased(s[n..]);
        assert r == Regex.Sub(LineCommentAt, s[n..], Erase);
        if n < |s| {
          assert s[n..][0] == s[n] == '\n';
        }
      } else {
        var t := Regex.Sub(LineCommentAt, s[1..], Erase);
        LineCommentsErased(s[1..]);
        assert r == [s[0]] + t;
        forall i | 0 <= i < |r| - 1 ensures !(r[i] == '/' && r[i + 1] == '/') {
          if i > 0 {
            assert r[i] == t[i - 1] && r[i + 1] == t[i];
          } else if |s| >= 2 {
            assert r[1] == t[0];
            assert s[1..][0] == s[1];
          }
        }
      }
    }
  }

  /** The cleaned text is stripped and holds no `//`. */
  lemma {:induction false} CleanCommentSpec(text: string)
    ensures var r := CleanComment(text); Strip(r) == r && !Contains(r, "//")
  {
    var u := Regex.Sub(LineCommentAt, Utilities.RemoveMultilineComments(text), Erase);
    LineCommentsErased(Utilities.RemoveMultilineComments(text));
    var k := StripSlice(u);
    var r := CleanComment(text);
    NoPairSlice(u, k, k + |r|, '/', '/');
    StripIdempotent(u);
    NoPairContains(r, '/', '/');
    assert "//" == ['/', '/'];
  }

  // ---------------------------------------------------------------------
  // Cutting a text into items
  // ---------------------------------------------------------------------

  /** Every part split on `sep`, the pieces kept in order (the `extend` loop). */
  function SplitAll(parts: seq<string>, sep: string): seq<string>
    requires sep != []
    decreases |parts|
  {
    if parts == [] then [] else SplitAll(parts[..|parts| - 1], sep) + Split(parts[|parts| - 1], sep)
  }

  /** `[p.strip() for p in parts if p.strip()]` */
  function NonBlank(parts: seq<string>): seq<string>
    decreases |parts|
  {
    if parts == [] then []
    else
      var p := Strip(parts[|parts| - 1]);
      NonBlank(parts[..|parts| - 1]) + (if p != "" then [p] else [])
  }

  /** The pieces of the cleaned text: lines, then `;`-segments, then `|`-pieces. */
  function Segments(cleaned: string): seq<string> {
    SplitAll(SplitAll(Split(cleaned, "\n"), ";"), "|")
  }

  /** Splitting distributes over concatenation of the parts. */
  lemma {:induction false} SplitAllAppend(a: seq<string>, b: seq<string>, sep: string)
    requires sep != []
    ensures SplitAll(a + b, sep) == SplitAll(a, sep) + SplitAll(b, sep)
    decreases |b|
  {
    if b == [] {
      assert a + b == a;
    } else {
      var b' := b[..|b| - 1];
      assert (a + b)[..|a + b| - 1] == a + b';
      assert (a + b)[|a + b| - 1] == b[|b| - 1];
      SplitAllAppend(a, b', sep);
    }
  }

  /** One more part adds its pieces at the end. */
  lemma {:induction false} SplitAllSnoc(parts: seq<string>, x: string, sep: string)
    requires sep != []
    ensures SplitAll(parts + [x], sep) == SplitAll(parts, sep) + Split(x, sep)
  {
    assert (parts + [x])[..|parts|] == parts;
  }

  /** The nested loops of parse_loras over lines and segments. */
  method SplitItems(cleaned: string) returns (items: seq<string>)
    ensures items == NonBlank(Segments(cleaned))
  {
    var lines := Split(cleaned, "\n");
    var parts: seq<string> := [];
    var i := 0;
    while i < |lines|
      invariant 0 <= i <= |lines|
      invariant parts == SplitAll(SplitAll(lines[..i], ";"), "|")
    {
      var pieces := SplitSegments(lines[i]);
      assert parts + pieces == SplitAll(SplitAll(lines[..i + 1], ";"), "|") by {
        assert lines[..i + 1] == lines[..i] + [lines[i]];
        SplitAllSnoc(lines[..i], lines[i], ";");
        SplitAllAppend(SplitAll(lines[..i], ";"), Split(lines[i], ";"), "|");
      }
      parts := parts + pieces;
      i := i + 1;
    }
    assert lines[..i] == lines;
    items := NonBlank(parts);
  }

  /** The inner loop over the `;`-segments of one line. */
  method SplitSegments(line: string) returns (pieces: seq<string>)
    ensures pieces == SplitAll(Split(line, ";"), "|")
  {
    var segs := Split(line, ";");
    pieces := [];
    var j := 0;
    while j < |segs|
      invariant 0 <= j <= |segs|
      invariant pieces == SplitAll(segs[..j], "|")
    {
      assert segs[..j + 1] == segs[..j] + [segs[j]];
      SplitAllSnoc(segs[..j], segs[j], "|");
      pieces := pieces + Split(segs[j], "|");
      j := j + 1;
    }
    assert segs[..j] == segs;
  }

  /** No part contains `c`. */
  predicate FreeOfChar(parts: seq<string>, c: char) {
    forall k :: 0 <= k < |parts| ==> !HasChar(parts[k], c)
  }

  /** The pieces of a split are slices of the text: a character absent from it is absent from them. */
  lemma {:induction false} SplitKeepsFree(s: string, sep: string, c: char)
    requires sep != [] && !HasChar(s, c)
    ensures FreeOfChar(Split(s, sep), c)
    decreases |s|
  {
    match IndexOf(s, sep)
    case None =>
    case Some(i) =>
      var rest := s[i + |sep|..];
      assert !HasChar(rest, c) by {
        forall k | 0 <= k < |rest| ensures rest[k] != c { assert rest[k] == s[i + |sep| + k]; }
      }
      assert !HasChar(s[..i], c) by {
        forall k | 0 <= k < i ensures s[..i][k] != c { assert s[..i][k] == s[k]; }
      }
      SplitKeepsFree(rest, sep, c);
  }

  /** A split of every part keeps a character that no part holds out of every piece, and takes its own separator out. */
  lemma {:induction false} SplitAllFree(parts: seq<string>, c: char, d: char)
    ensures FreeOfChar(SplitAll(parts, [d]), d)
    ensures FreeOfChar(parts, c) ==> FreeOfChar(SplitAll(parts, [d]), c)
    decreases |parts|
  {
    if parts != [] {
      var init := parts[..|parts| - 1];
      var last := parts[|parts| - 1];
      SplitAllFree(init, c, d);
      SplitPiecesFree(last, [d]);
      forall k | 0 <= k < |Split(last, [d])| ensures !HasChar(Split(last, [d])[k], d) {
        ContainsChar(Split(last, [d])[k], d);
      }
      if FreeOfChar(parts, c) {
        assert FreeOfChar(init, c) by {
          forall k | 0 <= k < |init| ensures !HasChar(init[k], c) { assert init[k] == parts[k]; }
        }
        SplitKeepsFree(last, [d], c);
      }
    }
  }

  /** The kept items are stripped, non-empty, and free of whatever no part holds. */
  lemma {:induction false} NonBlankShape(parts: seq<string>, c: char)
    ensures forall k :: 0 <= k < |NonBlank(parts)| ==> NonBlank(parts)[k] != "" && Strip(NonBlank(parts)[k]) == NonBlank(parts)[k]
    ensures FreeOfChar(parts, c) ==> FreeOfChar(NonBlank(parts), c)
    decreases |parts|
  {
    if parts != [] {
      var init := parts[..|parts| - 1];
      var last := parts[|parts| - 1];
      NonBlankShape(init, c);
      StripIdempotent(last);
      if FreeOfChar(parts, c) {
        assert FreeOfChar(init, c) by {
          forall k | 0 <= k < |init| ensures !HasChar(init[k], c) { assert init[k] == parts[k]; }
        }
        var j := StripSlice(last);
        assert !HasChar(Strip(last), c) by {
          forall k | 0 <= k < |Strip(last)| ensures Strip(last)[k] != c { assert Strip(last)[k] == last[j + k]; }
        }
      }
    }
  }

  /** The items of a text: stripped, non-empty pieces holding no newline, `;` or `|`. */
  lemma {:induction false} TextItemsShape(cleaned: string)
    ensures var items := NonBlank(Segments(cleaned));
      && (forall k :: 0 <= k < |items| ==> items[k] != "" && Strip(items[k]) == items[k])
      && FreeOfChar(items, '\n') && FreeOfChar(items, ';') && FreeOfChar(items, '|')
  {
    var lines := Split(cleaned, "\n");
    assert "\n" == ['\n'] && ";" == [';'] && "|" == ['|'];
    SplitPiecesFree(cleaned, "\n");
    forall k | 0 <= k < |lines| ensures !HasChar(lines[k], '\n') { ContainsChar(lines[k], '\n'); }
    var segs := SplitAll(lines, ";");
    SplitAllFree(lines, '\n', ';');
    var pieces := SplitAll(segs, "|");
    SplitAllFree(segs, '\n', '|');
    SplitAllFree(segs, ';', '|');
    NonBlankShape(pieces, '\n');
    NonBlankShape(pieces, ';');
    NonBlankShape(pieces, '|');
  }

  // ---------------------------------------------------------------------
  // Trigger routing
  // ---------------------------------------------------------------------

  const LowTriggers: seq<string> := ["l<<", "l<", "<l:lora", "<l:", "<low:", "low:"]
  const HighTriggers: seq<string> := ["h<<", "h<", "<h:lora", "<h:", "<high:", "high:"]

  /** The index of the first trigger, in list order, that `s` starts with. */
  function FirstTrigger(triggers: seq<string>, s: string): (r: Option<nat>)
    ensures r.Some? ==> (r.value < |triggers| && StartsWith(s, triggers[r.value])
      && forall j :: 0 <= j < r.value ==> !StartsWith(s, triggers[j]))
    ensures r.None? ==> forall j :: 0 <= j < |triggers| ==> !StartsWith(s, triggers[j])
    decreases |triggers|
  {
    if triggers == [] then None
    else if StartsWith(s, triggers[0]) then Some(0)
    else
      match FirstTrigger(triggers[1..], s)
      case None => None
      case Some(k) => Some(k + 1)
  }

  /** `s[n:]` in Python: empty past the end. */
  function Drop(s: string, n: nat): string {
    if n <= |s| then s[n..] else ""
  }

  /** Which lists an item goes to, and its text with the trigger removed. */
  datatype Route = Route(low: bool, high: bool, rest: string)

  /** The trigger text is matched on the lowered, stripped item. */
  function Lowered(clean: string): string { Strip(Lower(clean)) }

  /** The routing of a cleaned item: high triggers are checked first, then low ones. */
  function RouteOf(clean: string): (r: Route)
    ensures r.low || r.high
  {
    match FirstTrigger(HighTriggers, Lowered(clean))
    case Some(k) => Route(false, true, Strip(Drop(clean, |HighTriggers[k]|)))
    case None =>
      match FirstTrigger(LowTriggers, Lowered(clean))
      case Some(k) => Route(true, false, Strip(Drop(clean, |LowTriggers[k]|)))
      case None => Route(true, true, clean)
  }

  /** `triggers[k]` is the first trigger, in list order, that `s` starts with. */
  predicate FirstOf(triggers: seq<string>, s: string, k: int) {
    0 <= k < |triggers| && StartsWith(s, triggers[k]) && forall j :: 0 <= j < k ==> !StartsWith(s, triggers[j])
  }

  /** The item starts (lowered) with some trigger of the list. */
  predicate HasTrigger(triggers: seq<string>, clean: string) {
    exists j :: 0 <= j < |triggers| && StartsWith(Lowered(clean), triggers[j])
  }

  /**
    A high trigger sends the item to the high list only, otherwise a low
    trigger to the low list only, otherwise it goes to both unchanged; the
    prefix removed is as long as the first trigger, in list order, that the
    item starts with.
   */
  lemma {:induction false} RouteSpec(clean: string)
    ensures var r := RouteOf(clean);
      && (r.high && !r.low <==> HasTrigger(HighTriggers, clean))
      && (r.low && !r.high <==> !HasTrigger(HighTriggers, clean) && HasTrigger(LowTriggers, clean))
      && (r.low && r.high <==> !HasTrigger(HighTriggers, clean) && !HasTrigger(LowTriggers, clean))
      && (r.low && r.high ==> r.rest == clean)
    ensures forall k :: FirstOf(HighTriggers, Lowered(clean), k) ==>
      RouteOf(clean).rest == Strip(Drop(clean, |HighTriggers[k]|))
    ensures forall k :: !HasTrigger(HighTriggers, clean) && FirstOf(LowTriggers, Lowered(clean), k) ==>
      RouteOf(clean).rest == Strip(Drop(clean, |LowTriggers[k]|))
  {
    var l := Lowered(clean);
    var h := FirstTrigger(HighTriggers, l);
    var w := FirstTrigger(LowTriggers, l);
    forall k | FirstOf(HighTriggers, l, k) ensures h.Some? && h.value == k { }
    forall k | FirstOf(LowTriggers, l, k) ensures w.Some? && w.value == k { }
  }

  // ---------------------------------------------------------------------
  // _resolve_path and _parse_item
  // ---------------------------------------------------------------------

  /**
    The LoRA file names and the two library calls the builder makes:
    `fullPath` stands for `folder_paths.get_full_path` (None where it
    raises) and `parseStrength` for `round(float(s), 4)` (None where it
    raises).
   */
  datatype Library = Library(candidates: seq<string>, fullPath: string -> Option<string>,
                             parseStrength: string -> Option<real>)

  /** A candidate that `_resolve_path` accepts for `name`. */
  predicate Accepts(lib: Library, fn: string, name: string) {
    Contains(fn, name) && lib.fullPath(fn).Some?
  }

  /** The first candidate from index `from` on that contains the name and has a full path: (full path, file name). */
  function FirstResolved(lib: Library, name: string, from: nat): (r: Option<(string, string)>)
    requires from <= |lib.candidates|
    ensures r.Some? ==> exists k :: (from <= k < |lib.candidates| && lib.candidates[k] == r.value.1
      && Accepts(lib, r.value.1, name) && lib.fullPath(r.value.1).value == r.value.0
      && forall j :: from <= j < k ==> !Accepts(lib, lib.candidates[j], name))
    ensures r.None? <==> forall k :: from <= k < |lib.candidates| ==> !Accepts(lib, lib.candidates[k], name)
    decreases |lib.candidates| - from
  {
    if from == |lib.candidates| then None
    else
      var fn := lib.candidates[from];
      if Accepts(lib, fn, name) then Some((lib.fullPath(fn).value, fn))
      else FirstResolved(lib, name, from + 1)
  }

  /** `_resolve_path`: the loop over the candidates, returning at the first one that resolves. */
  method ResolvePath(lib: Library, name: string) returns (r: Option<(string, string)>)
    ensures r == FirstResolved(lib, name, 0)
  {
    var i := 0;
    while i < |lib.candidates|
      invariant 0 <= i <= |lib.candidates|
      invariant FirstResolved(lib, name, i) == FirstResolved(lib, name, 0)
    {
      var fn := lib.candidates[i];
      if Contains(fn, name) {
        var full := lib.fullPath(fn);
        if full.Some? {
          return Some((full.value, fn));
        }
      }
      i := i + 1;
    }
    return None;
  }

  /** The characters `sstrip` removes. */
  predicate Padding(c: char) { c == ' ' || c == '\t' || c == '<' || c == '>' }

  /** `s.strip(" \t<>")` */
  function SStrip(s: string): string { StripBy(s, Padding) }

  /** `os.path.splitext(p)[0]` with `/` as the separator. */
  function SplitExtRoot(p: string): (root: string)
    ensures StartsWith(p, root)
    ensures root != p ==> p[|root|] == '.' && forall i :: |root| < i < |p| ==> p[i] != '.' && p[i] != '/'
  {
    var sep: int := match LastIndexOf(p, '/') case Some(i) => i case None => -1;
    match LastIndexOf(p, '.')
    case None => p
    case Some(d) =>
      if d > sep && exists i :: sep + 1 <= i < d && p[i] != '.' then p[..d] else p
  }

  /** How the item shows a block selection: the `blocks` input, with absent keys as None. */
  datatype Blocks = Blocks(selected: Option<map<string, bool>>, layerFilter: Option<string>)

  /** The options of a call shared by every item. */
  datatype Settings = Settings(defaultStrength: real, blocks: Blocks, lowMemLoad: bool, mergeLoras: bool)

  /** The metadata of one LoRA. */
  datatype Meta = Meta(path: string, strength: real, name: string, blocks: map<string, bool>,
                       layerFilter: string, lowMemLoad: bool, mergeLoras: bool)

  /** The strength of an item: the text after its last `:`, parsed, or the default. */
  function StrengthOf(raw: string, settings: Settings, lib: Library): real {
    match LastIndexOf(raw, ':')
    case None => settings.defaultStrength
    case Some(i) =>
      match lib.parseStrength(SStrip(raw[i + 1..]))
      case Some(v) => v
      case None => settings.defaultStrength
  }

  /** The name of an item: the text before its last `:` (or all of it), and of that the text after its own last `:`. */
  function NameOf(raw: string): string {
    var first := match LastIndexOf(raw, ':') case None => Strip(raw) case Some(i) => SStrip(raw[..i]);
    match LastIndexOf(first, ':')
    case None => first
    case Some(j) => SStrip(first[j + 1..])
  }

  /** The metadata for a name and a strength: None for an empty name or one no candidate resolves. */
  function MetaFor(name: string, strength: real, settings: Settings, lib: Library): Option<Meta> {
    if name == "" then None
    else
      match FirstResolved(lib, name, 0)
      case None => None
      case Some(found) =>
        Some(Meta(found.0, strength, SplitExtRoot(found.1),
                  match settings.blocks.selected case Some(b) => b case None => map[],
                  match settings.blocks.layerFilter case Some(f) => f case None => "",
                  settings.lowMemLoad, settings.mergeLoras))
  }

  /** `_parse_item` on the routed text of an item. */
  function ItemMeta(raw: string, settings: Settings, lib: Library): Option<Meta> {
    MetaFor(NameOf(raw), StrengthOf(raw, settings, lib), settings, lib)
  }

  /** The text after the last `:` of `s` holds no `:`. */
  lemma {:induction false} AfterLastColon(s: string, i: nat)
    requires LastIndexOf(s, ':').Some? && LastIndexOf(s, ':').value == i
    ensures !HasChar(SStrip(s[i + 1..]), ':')
  {
    var t := s[i + 1..];
    StripBySlice(t, Padding);
  }

  /** A slice of a stripped string, as for whitespace. */
  lemma {:induction false} StripBySlice(t: string, drop: char -> bool)
    ensures forall k :: 0 <= k < |StripBy(t, drop)| ==> exists j :: 0 <= j < |t| && t[j] == StripBy(t, drop)[k]
  {
    var r := StripBy(t, drop);
    var off := StripBySliceAt(t, drop);
    forall k | 0 <= k < |r| ensures exists j :: 0 <= j < |t| && t[j] == r[k] {
      var j := off + k;
      assert r[k] == t[j];
    }
  }


  /** The name of an item holds no `:`; without a `:` it is the stripped item. */
  lemma {:induction false} NameOfSpec(raw: string)
    ensures !HasChar(NameOf(raw), ':')
    ensures !HasChar(raw, ':') ==> NameOf(raw) == Strip(raw)
  {
    var c := LastIndexOf(raw, ':');
    if c.Some? {
      var first := SStrip(raw[..c.value]);
      var d := LastIndexOf(first, ':');
      if d.Some? {
        AfterLastColon(first, d.value);
      }
    } else {
      StripBySlice(raw, IsSpace);
      assert LastIndexOf(Strip(raw), ':').None?;
    }
  }

  /**
    An item is accepted exactly when its name is non-empty and some
    candidate file name contains it and resolves; it then carries the
    strength written after its last `:`, or the default when there is no
    `:` or the text does not parse.
   */
  lemma {:induction false} ItemMetaSpec(raw: string, settings: Settings, lib: Library)
    ensures ItemMeta(raw, settings, lib).Some? <==>
      (NameOf(raw) != "" && exists k :: 0 <= k < |lib.candidates| && Accepts(lib, lib.candidates[k], NameOf(raw)))
    ensures ItemMeta(raw, settings, lib).Some? ==> ItemMeta(raw, settings, lib).value.strength == StrengthOf(raw, settings, lib)
    ensures !HasChar(raw, ':') ==> StrengthOf(raw, settings, lib) == settings.defaultStrength
  {
    if !HasChar(raw, ':') {
      assert LastIndexOf(raw, ':').None?;
    }
  }

  /** `_parse_item`: the name and strength split, then the lookup of the name among the LoRA files. */
  method ParseItem(raw: string, settings: Settings, lib: Library) returns (meta: Option<Meta>)
    ensures meta == ItemMeta(raw, settings, lib)
  {
    var namePart: string;
    var strength: real;
    var colon := LastIndexOf(raw, ':');
    if colon.Some? {
      namePart := SStrip(raw[..colon.value]);
      var parsed := lib.parseStrength(SStrip(raw[colon.value + 1..]));
      strength := if parsed.Some? then parsed.value else settings.defaultStrength;
    } else {
      namePart := Strip(raw);
      strength := settings.defaultStrength;
    }
    if namePart == "" {
      assert NameOf(raw) == "";
      return None;
    }
    var inner := LastIndexOf(namePart, ':');
    if inner.Some? {
      namePart := SStrip(namePart[inner.value + 1..]);
    }
    assert namePart == NameOf(raw);
    assert strength == StrengthOf(raw, settings, lib);
    if namePart == "" {
      return None;
    }
    var resolved := ResolvePath(lib, namePart);
    if resolved.None? {
      assert MetaFor(namePart, strength, settings, lib).None?;
      return None;
    }
    var (fullPath, filename) := resolved.value;
    meta := Some(Meta(fullPath, strength, SplitExtRoot(filename),
                      if settings.blocks.selected.Some? then settings.blocks.selected.value else map[],
                      if settings.blocks.layerFilter.Some? then settings.blocks.layerFilter.value else "",
                      settings.lowMemLoad, settings.mergeLoras));
    assert meta == MetaFor(namePart, strength, settings, lib);
  }

  // ---------------------------------------------------------------------
  // parse_loras
  // ---------------------------------------------------------------------

  /** The `input_list` argument: a string, a list or tuple (its items already `str`-ed), or anything else. */
  datatype LoraInput = Text(text: string) | List(items: seq<string>) | Unsupported

  /** A `prev_low`/`prev_high` argument: None, a list or tuple of metadata, or anything else. */
  datatype Previous = Absent | Given(metas: seq<Meta>) | Invalid

  /** The raw items of the input. */
  function RawItems(input: LoraInput): seq<string> {
    match input
    case Text(t) => NonBlank(Segments(CleanComment(t)))
    case List(xs) => NonBlank(xs)
    case Unsupported => []
  }

  /** What one raw item contributes: its lists and its metadata, or nothing when it is skipped. */
  datatype Entry = Entry(low: bool, high: bool, meta: Meta)

  /** One raw item: skipped when its cleaned text is empty or starts with `#`, else routed and parsed. */
  function EntryOf(raw: string, settings: Settings, lib: Library): Option<Entry> {
    var clean := CleanComment(raw);
    if clean == "" || StartsWith(clean, "#") then None else RoutedEntry(RouteOf(clean), settings, lib)
  }

  /** A routed item: its metadata, if `_parse_item` accepts the text after the trigger. */
  function RoutedEntry(route: Route, settings: Settings, lib: Library): Option<Entry> {
    match ItemMeta(route.rest, settings, lib)
    case None => None
    case Some(m) => Some(Entry(route.low, route.high, m))
  }

  /** The entries of all items, as a function of the raw item. */
  function EntryFn(settings: Settings, lib: Library): string -> Option<Entry> {
    raw => EntryOf(raw, settings, lib)
  }

  /** What an entry contributes to the low list. */
  function LowPart(e: Option<Entry>): seq<Meta> {
    if e.Some? && e.value.low then [e.value.meta] else []
  }

  /** What an entry contributes to the high list. */
  function HighPart(e: Option<Entry>): seq<Meta> {
    if e.Some? && e.value.high then [e.value.meta] else []
  }

  /** The low list of the items, in input order. */
  function LowOf(items: seq<string>, entry: string -> Option<Entry>): seq<Meta>
    decreases |items|
  {
    if items == [] then [] else LowOf(items[..|items| - 1], entry) + LowPart(entry(items[|items| - 1]))
  }

  /** The high list of the items, in input order. */
  function HighOf(items: seq<string>, entry: string -> Option<Entry>): seq<Meta>
    decreases |items|
  {
    if items == [] then [] else HighOf(items[..|items| - 1], entry) + HighPart(entry(items[|items| - 1]))
  }

  /** One more item adds its contributions at the end of both lists. */
  lemma {:induction false} ListsStep(items: seq<string>, i: nat, entry: string -> Option<Entry>)
    requires i < |items|
    ensures LowOf(items[..i + 1], entry) == LowOf(items[..i], entry) + LowPart(entry(items[i]))
    ensures HighOf(items[..i + 1], entry) == HighOf(items[..i], entry) + HighPart(entry(items[i]))
  {
    assert items[..i + 1][..i] == items[..i];
  }

  /** `_extend`: a previous list is put in front, anything else is ignored. */
  function Extend(prev: Previous, cur: seq<Meta>): seq<Meta> {
    match prev
    case Given(ms) => ms + cur
    case _ => cur
  }

  /** The first step of parse_loras: the raw items of each kind of input. */
  method InputItems(input: LoraInput) returns (rawItems: seq<string>)
    ensures rawItems == RawItems(input)
  {
    match input {
      case Text(t) =>
        var cleaned := CleanComment(t);
        rawItems := SplitItems(cleaned);
      case List(xs) =>
        rawItems := NonBlank(xs);
      case Unsupported =>
        rawItems := [];
    }
  }

  /**
    The body of the item loop of parse_loras: None for an item that is
    skipped (a comment, or one `_parse_item` rejects), else the lists it
    goes to and its metadata.
   */
  method ParseRaw(raw: string, settings: Settings, lib: Library)
    returns (targetLow: bool, targetHigh: bool, meta: Option<Meta>)
    ensures meta.Some? <==> EntryOf(raw, settings, lib).Some?
    ensures meta.Some? ==> EntryOf(raw, settings, lib).value == Entry(targetLow, targetHigh, meta.value)
  {
    var cleanRaw := CleanComment(raw);
    if cleanRaw == "" || StartsWith(cleanRaw, "#") {
      return true, true, None;
    }
    ghost var route := RouteOf(cleanRaw);
    targetLow, targetHigh := true, true;
    var lowered := Strip(Lower(cleanRaw));
    var highFound := FirstTrigger(HighTriggers, lowered);
    var lowFound := FirstTrigger(LowTriggers, lowered);
    if highFound.Some? {
      targetLow := false;
      cleanRaw := Strip(Drop(cleanRaw, |HighTriggers[highFound.value]|));
    } else if lowFound.Some? {
      targetHigh := false;
      cleanRaw := Strip(Drop(cleanRaw, |LowTriggers[lowFound.value]|));
    }
    assert route == Route(targetLow, targetHigh, cleanRaw);
    assert EntryOf(raw, settings, lib) == RoutedEntry(route, settings, lib);
    meta := ParseItem(cleanRaw, settings, lib);
  }

  /**
    parse_loras: the input cut into raw items, then one pass over them that
    skips comments, routes each item by its trigger and appends its
    metadata to the lists it belongs to; the previous lists go in front.
   */
  method ParseLoras(input: LoraInput, settings: Settings, lib: Library, prevLow: Previous, prevHigh: Previous)
    returns (low: seq<Meta>, high: seq<Meta>)
    ensures low == Extend(prevLow, LowOf(RawItems(input), EntryFn(settings, lib)))
    ensures high == Extend(prevHigh, HighOf(RawItems(input), EntryFn(settings, lib)))
  {
    var rawItems := InputItems(input);
    var lowRes: seq<Meta> := [];
    var highRes: seq<Meta> := [];
    var i := 0;
    while i < |rawItems|
      invariant 0 <= i <= |rawItems|
      invariant lowRes == LowOf(rawItems[..i], EntryFn(settings, lib))
      invariant highRes == HighOf(rawItems[..i], EntryFn(settings, lib))
    {
      var raw := rawItems[i];
      ListsStep(rawItems, i, EntryFn(settings, lib));
      var targetLow, targetHigh, meta := ParseRaw(raw, settings, lib);
      if meta.Some? {
        if targetLow {
          lowRes := lowRes + [meta.value];
        }
        if targetHigh {
          highRes := highRes + [meta.value];
        }
      }
      i := i + 1;
    }
    assert rawItems[..i] == rawItems;
    low := Extend(prevLow, lowRes);
    high := Extend(prevHigh, highRes);
  }

  // ---------------------------------------------------------------------
  // Properties of the lists
  // ---------------------------------------------------------------------

  /** The lists keep input order: the lists of a concatenation are the concatenated lists. */
  lemma {:induction false} ListsAppend(a: seq<string>, b: seq<string>, entry: string -> Option<Entry>)
    ensures LowOf(a + b, entry) == LowOf(a, entry) + LowOf(b, entry)
    ensures HighOf(a + b, entry) == HighOf(a, entry) + HighOf(b, entry)
    decreases |b|
  {
    if b == [] {
      assert a + b == a;
    } else {
      var b' := b[..|b| - 1];
      assert (a + b)[..|a + b| - 1] == a + b';
      assert (a + b)[|a + b| - 1] == b[|b| - 1];
      ListsAppend(a, b', entry);
    }
  }

  /** The entry puts `m` in the low list. */
  predicate InLow(e: Option<Entry>, m: Meta) { e.Some? && e.value.low && e.value.meta == m }

  /** A metadata value is in the low list exactly when some item's entry puts it there. */
  lemma {:induction false} LowOfMember(items: seq<string>, entry: string -> Option<Entry>, m: Meta)
    ensures m in LowOf(items, entry) <==> exists i :: 0 <= i < |items| && InLow(entry(items[i]), m)
    decreases |items|
  {
    if items != [] {
      var init := items[..|items| - 1];
      LowOfMember(init, entry, m);
      if exists i :: 0 <= i < |init| && InLow(entry(init[i]), m) {
        var i :| 0 <= i < |init| && InLow(entry(init[i]), m);
        assert items[i] == init[i];
      }
      if exists i :: 0 <= i < |items| && InLow(entry(items[i]), m) {
        var i :| 0 <= i < |items| && InLow(entry(items[i]), m);
        if i < |init| { assert init[i] == items[i]; }
      }
    }
  }

  /**
    One item on its own: a comment contributes nothing; otherwise, once
    `_parse_item` accepts it, a high trigger puts it in the high list only,
    else a low trigger in the low list only, else it goes to both with its
    text unchanged.
   */
  lemma {:induction false} ItemRouting(raw: string, settings: Settings, lib: Library)
    ensures var c := CleanComment(raw); var e := EntryOf(raw, settings, lib);
      (c == "" || StartsWith(c, "#")) ==> LowPart(e) == [] && HighPart(e) == []
    ensures var c := CleanComment(raw); var e := EntryOf(raw, settings, lib);
      var m := ItemMeta(RouteOf(c).rest, settings, lib);
      c != "" && !StartsWith(c, "#") && m.Some? ==>
        && (HasTrigger(HighTriggers, c) ==> LowPart(e) == [] && HighPart(e) == [m.value])
        && (!HasTrigger(HighTriggers, c) && HasTrigger(LowTriggers, c) ==> LowPart(e) == [m.value] && HighPart(e) == [])
        && (!HasTrigger(HighTriggers, c) && !HasTrigger(LowTriggers, c) ==>
              LowPart(e) == [m.value] && HighPart(e) == [m.value] && m == ItemMeta(c, settings, lib))
  {
    RouteSpec(CleanComment(raw));
  }

  /** An entry that goes to both lists, or to none. */
  predicate Unrouted(e: Option<Entry>) { e.Some? ==> e.value.low && e.value.high }

  /** When every item goes to both lists or none (no item carries a trigger), the two lists are the same. */
  lemma {:induction false} UnroutedSameLists(items: seq<string>, entry: string -> Option<Entry>)
    requires forall i :: 0 <= i < |items| ==> Unrouted(entry(items[i]))
    ensures LowOf(items, entry) == HighOf(items, entry)
    decreases |items|
  {
    if items != [] {
      var init := items[..|items| - 1];
      assert forall i :: 0 <= i < |init| ==> init[i] == items[i];
      UnroutedSameLists(init, entry);
    }
  }

  /** An item without a trigger is not routed. */
  lemma {:induction false} NoTriggerUnrouted(raw: string, settings: Settings, lib: Library)
    requires !HasTrigger(HighTriggers, CleanComment(raw)) && !HasTrigger(LowTriggers, CleanComment(raw))
    ensures Unrouted(EntryOf(raw, settings, lib))
  {
    RouteSpec(CleanComment(raw));
  }
}
