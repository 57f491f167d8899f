/**
  The parts of Python's `re` module that the nodes use, for patterns whose
  matches are never empty.  A pattern is given by a matcher: a function that
  returns the length of the match anchored at the start of its argument, or
  0 when the pattern does not match there.  Scanning is leftmost-first and
  non-overlapping, and text produced by a replacement is never scanned again.
 */
module Regex {
  import opened Wrappers

  /** The matcher `at` matches a non-empty prefix of `s`. */
  predicate MatchesAt(at: string -> nat, s: string) {
    0 < at(s) <= |s|
  }

  /** No match starts anywhere in `s`. */
  predicate NoMatch(at: string -> nat, s: string) {
    forall i :: 0 <= i < |s| ==> !MatchesAt(at, s[i..])
  }

  /** The end of the maximal run of characters satisfying `p` that starts at index `k`. */
  function RunEnd(s: string, k: nat, p: char -> bool): (j: nat)
    requires k <= |s|
    ensures k <= j <= |s|
    ensures forall i :: k <= i < j ==> p(s[i])
    ensures j < |s| ==> !p(s[j])
    decreases |s| - k
  {
    if k < |s| && p(s[k]) then RunEnd(s, k + 1, p) else k
  }

  /** The end of the run is determined by where the run stops. */
  lemma {:induction false} RunEndIs(s: string, k: nat, p: char -> bool, j: nat)
    requires k <= j <= |s|
    requires forall i :: k <= i < j ==> p(s[i])
    requires j < |s| ==> !p(s[j])
    ensures RunEnd(s, k, p) == j
  {
  }

  /** One piece of a scanned string: a character outside every match, or a whole match. */
  datatype Piece = Plain(c: char) | Found(text: string)

  /** How `re.sub` and `re.finditer` cut `s` into unmatched characters and matches. */
  function Pieces(at: string -> nat, s: string): seq<Piece>
    decreases |s|
  {
    if s == [] then []
    else if MatchesAt(at, s) then [Found(s[..at(s)])] + Pieces(at, s[at(s)..])
    else [Plain(s[0])] + Pieces(at, s[1..])
  }

  /** The text a sequence of pieces stands for. */
  function Render(ps: seq<Piece>): string
    decreases |ps|
  {
    if ps == [] then ""
    else (match ps[0] case Plain(c) => [c] case Found(t) => t) + Render(ps[1..])
  }

  lemma {:induction false} RenderCons(p: Piece, ps: seq<Piece>)
    ensures Render([p] + ps) == (match p case Plain(c) => [c] case Found(t) => t) + Render(ps)
  {
    assert ([p] + ps)[1..] == ps;
  }

  /** Scanning loses nothing: the pieces put back together give the string. */
  lemma {:induction false} RenderPieces(at: string -> nat, s: string)
    ensures Render(Pieces(at, s)) == s
    decreases |s|
  {
    if s != [] {
      if MatchesAt(at, s) {
        RenderPieces(at, s[at(s)..]);
        RenderCons(Found(s[..at(s)]), Pieces(at, s[at(s)..]));
        assert s == s[..at(s)] + s[at(s)..];
      } else {
        RenderPieces(at, s[1..]);
        RenderCons(Plain(s[0]), Pieces(at, s[1..]));
        assert s == [s[0]] + s[1..];
      }
    }
  }

  /** A string in which nothing matches is all plain characters. */
  lemma {:induction false} PiecesNoMatch(at: string -> nat, s: string)
    requires NoMatch(at, s)
    ensures forall k :: 0 <= k < |Pieces(at, s)| ==> Pieces(at, s)[k].Plain?
    decreases |s|
  {
    if s != [] {
      assert s[0..] == s;
      assert NoMatch(at, s[1..]) by {
        forall i | 0 <= i < |s[1..]| ensures !MatchesAt(at, s[1..][i..]) {
          assert s[1..][i..] == s[i + 1..];
        }
      }
      PiecesNoMatch(at, s[1..]);
    }
  }

  /** `re.sub(pattern, f, s)` with a callable replacement `f` given the matched text. */
  function Sub(at: string -> nat, s: string, f: string -> string): string
    decreases |s|
  {
    if s == [] then ""
    else if MatchesAt(at, s) then f(s[..at(s)]) + Sub(at, s[at(s)..], f)
    else [s[0]] + Sub(at, s[1..], f)
  }

  /** A pattern that matches nowhere leaves the string as it is. */
  lemma {:induction false} SubNoMatch(at: string -> nat, s: string, f: string -> string)
    requires NoMatch(at, s)
    ensures Sub(at, s, f) == s
    decreases |s|
  {
    if s != [] {
      assert s[0..] == s;
      assert NoMatch(at, s[1..]) by {
        forall i | 0 <= i < |s[1..]| ensures !MatchesAt(at, s[1..][i..]) {
          assert s[1..][i..] == s[i + 1..];
        }
      }
      SubNoMatch(at, s[1..], f);
    }
  }

  /**
    `re.sub(pattern, f, s)` where `f` reads the groups of the match object:
    `f` is given the text from the start of the match on, from which the
    groups are determined exactly as the matcher determines them.
   */
  function SubWith(at: string -> nat, s: string, f: string -> string): string
    decreases |s|
  {
    if s == [] then ""
    else if MatchesAt(at, s) then f(s) + SubWith(at, s[at(s)..], f)
    else [s[0]] + SubWith(at, s[1..], f)
  }

  /** A pattern that matches nowhere leaves the string as it is. */
  lemma {:induction false} SubWithNoMatch(at: string -> nat, s: string, f: string -> string)
    requires NoMatch(at, s)
    ensures SubWith(at, s, f) == s
    decreases |s|
  {
    if s != [] {
      assert s[0..] == s;
      assert NoMatch(at, s[1..]) by {
        forall i | 0 <= i < |s[1..]| ensures !MatchesAt(at, s[1..][i..]) {
          assert s[1..][i..] == s[i + 1..];
        }
      }
      SubWithNoMatch(at, s[1..], f);
    }
  }

  /** A string that is one whole match is replaced as a whole. */
  lemma {:induction false} SubWithWhole(at: string -> nat, s: string, f: string -> string)
    requires at(s) == |s| && s != []
    ensures SubWith(at, s, f) == f(s)
  {
    assert s[|s|..] == [];
  }

  /** A string with no match before a whole match at its end. */
  lemma {:induction false} SubWithTail(at: string -> nat, pre: string, m: string, f: string -> string)
    requires m != [] && at(m) == |m|
    requires forall i :: 0 <= i < |pre| ==> !MatchesAt(at, (pre + m)[i..])
    ensures SubWith(at, pre + m, f) == pre + f(m)
    decreases |pre|
  {
    if pre == [] {
      assert pre + m == m;
      SubWithWhole(at, m, f);
    } else {
      var s := pre + m;
      assert s[0..] == s;
      assert s[1..] == pre[1..] + m;
      forall i | 0 <= i < |pre[1..]| ensures !MatchesAt(at, (pre[1..] + m)[i..]) {
        assert (pre[1..] + m)[i..] == s[i + 1..];
      }
      SubWithTail(at, pre[1..], m, f);
      assert s == [pre[0]] + (pre[1..] + m);
    }
  }

  /** At a match the replacement is emitted and the scan resumes after the match. */
  lemma {:induction false} SubWithAt(at: string -> nat, s: string, f: string -> string)
    requires MatchesAt(at, s)
    ensures SubWith(at, s, f) == f(s) + SubWith(at, s[at(s)..], f)
  {
  }

  /** A prefix in which no match starts is copied through unchanged. */
  lemma {:induction false} SubWithAfter(at: string -> nat, pre: string, rest: string, f: string -> string)
    requires NoMatchBefore(at, pre, rest)
    ensures SubWith(at, pre + rest, f) == pre + SubWith(at, rest, f)
    decreases |pre|
  {
    if pre == [] {
      assert pre + rest == rest;
    } else {
      var s := pre + rest;
      assert s[0..] == s;
      assert s[1..] == pre[1..] + rest;
      forall i | 0 <= i < |pre[1..]| ensures !MatchesAt(at, (pre[1..] + rest)[i..]) {
        assert (pre[1..] + rest)[i..] == s[i + 1..];
      }
      SubWithAfter(at, pre[1..], rest, f);
      assert s == [pre[0]] + (pre[1..] + rest);
    }
  }

  /** A prefix without a match, then a match replaced by `out`, then the rest of the scan. */
  lemma {:induction false} SubWithBlock(at: string -> nat, f: string -> string, pre: string, rest: string, out: string, post: string)
    requires NoMatchBefore(at, pre, rest) && MatchesAt(at, rest)
    requires rest[at(rest)..] == post && f(rest) == out
    ensures SubWith(at, pre + rest, f) == pre + out + SubWith(at, post, f)
  {
    SubWithAfter(at, pre, rest, f);
    SubWithAt(at, rest, f);
  }

  /** `re.search`: the start of the leftmost match. */
  function Search(at: string -> nat, s: string): (r: Option<nat>)
    ensures r.Some? ==> r.value < |s|
    decreases |s|
  {
    if s == [] then None
    else if MatchesAt(at, s) then Some(0)
    else
      match Search(at, s[1..])
      case None => None
      case Some(i) => Some(i + 1)
  }

  /** The search finds the leftmost match, and none exactly when nothing matches. */
  lemma {:induction false} SearchSpec(at: string -> nat, s: string)
    ensures var r := Search(at, s);
      && (r.Some? ==> (r.value < |s| && MatchesAt(at, s[r.value..])
        && forall j :: 0 <= j < r.value ==> !MatchesAt(at, s[j..])))
      && (r.None? ==> NoMatch(at, s))
    decreases |s|
  {
    if s != [] {
      assert s[0..] == s;
      if !MatchesAt(at, s) {
        SearchSpec(at, s[1..]);
        assert forall j :: 0 < j <= |s| ==> s[1..][j - 1..] == s[j..];
      }
    }
  }

  /** No match starts inside `pre` when `rest` follows it. */
  ghost predicate NoMatchBefore(at: string -> nat, pre: string, rest: string) {
    forall i :: 0 <= i < |pre| ==> !MatchesAt(at, (pre + rest)[i..])
  }

  /** A match right after a prefix in which none starts is the one the search finds. */
  lemma {:induction false} SearchAfter(at: string -> nat, pre: string, rest: string)
    requires MatchesAt(at, rest) && NoMatchBefore(at, pre, rest)
    ensures Search(at, pre + rest) == Some(|pre|)
  {
    assert (pre + rest)[|pre|..] == rest;
    SearchIs(at, pre + rest, |pre|);
  }

  /** A match with none before it is the one the search finds. */
  lemma {:induction false} SearchIs(at: string -> nat, s: string, p: nat)
    requires p < |s| && MatchesAt(at, s[p..])
    requires forall j :: 0 <= j < p ==> !MatchesAt(at, s[j..])
    ensures Search(at, s) == Some(p)
  {
    SearchSpec(at, s);
    var r := Search(at, s);
    if r.None? {
      assert false;
    } else if r.value < p {
      assert false;
    } else if r.value > p {
      assert false;
    }
  }
}
