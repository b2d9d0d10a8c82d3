/**
 * The fragment of JavaScript regular expressions the RSP-QL parser's patterns use:
 * a concatenation of literals, ` +` (one or more spaces) and capturing groups of one
 * negated character class, `([^c]+)` or `([^c]*)`. The matcher is the backtracking
 * search JavaScript performs for such a pattern (greedy repetitions, longest first),
 * and `AllMatches` is `String.prototype.matchAll` with a global pattern.
 */
module JsRegex {
  import opened JsText

  datatype Atom =
    | Lit(text: string)                    // the literal text
    | Spaces                               // ` +`
    | Group(stop: char, nonEmpty: bool)    // `([^stop]+)`, or `([^stop]*)` when not nonEmpty

  /** The number of capturing groups of a pattern. */
  function GroupCount(p: seq<Atom>): nat
  {
    if |p| == 0 then 0 else (if p[0].Group? then 1 else 0) + GroupCount(p[1..])
  }

  lemma {:induction false} GroupCountAppend(p: seq<Atom>, q: seq<Atom>)
    ensures GroupCount(p + q) == GroupCount(p) + GroupCount(q)
    decreases |p|
  {
    if |p| > 0 {
      assert (p + q)[1..] == p[1..] + q;
      GroupCountAppend(p[1..], q);
    } else {
      assert p + q == q;
    }
  }

  /** The first `k >= 1` characters of `text` are spaces. */
  predicate SpaceRun(text: string, k: int)
  {
    1 <= k <= |text| && forall j :: 0 <= j < k ==> text[j] == ' '
  }

  /** The declarative meaning of a pattern: `text` is exactly a word of the pattern's
      language and `groups` are the texts its groups capture, left to right. */
  ghost predicate Accepts(p: seq<Atom>, text: string, groups: seq<string>)
    decreases |p|
  {
    if |p| == 0 then text == [] && groups == []
    else match p[0]
      case Lit(w) => StartsWith(text, w) && Accepts(p[1..], text[|w|..], groups)
      case Spaces => exists k :: SpaceRun(text, k) && Accepts(p[1..], text[k..], groups)
      case Group(c, ne) =>
        |groups| > 0 && (ne ==> |groups[0]| > 0) && c !in groups[0] &&
        StartsWith(text, groups[0]) && Accepts(p[1..], text[|groups[0]|..], groups[1..])
  }

  /** The end of the longest run of `c` starting at `i`. */
  function RunOf(s: string, i: nat, c: char): (j: nat)
    requires i <= |s|
    ensures i <= j <= |s| && (j == |s| || s[j] != c)
    ensures forall k :: i <= k < j ==> s[k] == c
    decreases |s| - i
  {
    if i < |s| && s[i] == c then RunOf(s, i + 1, c) else i
  }

  /** The end of the longest run of characters other than `c` starting at `i`. */
  function RunNot(s: string, i: nat, c: char): (j: nat)
    requires i <= |s|
    ensures i <= j <= |s| && (j == |s| || s[j] == c)
    ensures forall k :: i <= k < j ==> s[k] != c
    decreases |s| - i
  {
    if i < |s| && s[i] != c then RunNot(s, i + 1, c) else i
  }

  /** A successful match: the captured groups and the position after the match. */
  datatype Outcome = NoMatch | Matched(groups: seq<string>, end: nat)

  /** The first match of pattern `p` that starts exactly at position `i` of `s`,
      in JavaScript's backtracking order. */
  function MatchAt(s: string, i: nat, p: seq<Atom>): (r: Outcome)
    requires i <= |s|
    ensures r.Matched? ==> i <= r.end <= |s| && |r.groups| == GroupCount(p)
    decreases |p|, 1, 0
  {
    if |p| == 0 then Matched([], i)
    else match p[0]
      case Lit(w) => if StartsWith(s[i..], w) then MatchAt(s, i + |w|, p[1..]) else NoMatch
      case Spaces => TrySpaces(s, i, RunOf(s, i, ' '), p[1..])
      case Group(c, ne) =>
        var r := TryGroup(s, i, RunNot(s, i, c), c, ne, p[1..]);
        assert r.Matched? ==> |r.groups| == GroupCount(p);
        r
  }

  /** ` +` followed by `rest`: the runs of spaces `s[i..j]`, `s[i..j - 1]`, ... down
      to one space are tried in turn. */
  function TrySpaces(s: string, i: nat, j: nat, rest: seq<Atom>): (r: Outcome)
    requires i <= j <= |s|
    ensures r.Matched? ==> i < r.end <= |s| && |r.groups| == GroupCount(rest)
    decreases |rest| + 1, 0, j
  {
    if j <= i then NoMatch
    else match MatchAt(s, j, rest)
      case Matched(g, e) => Matched(g, e)
      case NoMatch => TrySpaces(s, i, j - 1, rest)
  }

  /** A group followed by `rest`: the captures `s[i..j]`, `s[i..j - 1]`, ... are tried
      in turn, down to one character, or to none when the group may be empty. */
  function TryGroup(s: string, i: nat, j: nat, c: char, ne: bool, rest: seq<Atom>): (r: Outcome)
    requires i <= j <= |s|
    ensures r.Matched? ==> i <= r.end <= |s| && |r.groups| == 1 + GroupCount(rest)
    decreases |rest| + 1, 0, j
  {
    if ne && j == i then NoMatch
    else match MatchAt(s, j, rest)
      case Matched(g, e) => Matched([s[i..j]] + g, e)
      case NoMatch => if j == i then NoMatch else TryGroup(s, i, j - 1, c, ne, rest)
  }

  /** `s.matchAll(p)` for a global pattern, from position `from`: the leftmost match,
      then the search goes on at its end (one further on after an empty match). */
  function AllMatches(s: string, from: nat, p: seq<Atom>): (r: seq<seq<string>>)
    requires from <= |s|
    ensures forall k :: 0 <= k < |r| ==> |r[k]| == GroupCount(p)
    decreases |s| - from
  {
    match MatchAt(s, from, p)
      case Matched(g, e) =>
        if e > from then [g] + AllMatches(s, e, p)
        else if from == |s| then [g]
        else [g] + AllMatches(s, from + 1, p)
      case NoMatch => if from == |s| then [] else AllMatches(s, from + 1, p)
  }

  /** Every match found at a position is a word of the pattern's language, with the
      captures the declarative reading assigns. */
  lemma {:induction false} MatchSound(s: string, i: nat, p: seq<Atom>)
    requires i <= |s| && MatchAt(s, i, p).Matched?
    ensures Accepts(p, s[i..MatchAt(s, i, p).end], MatchAt(s, i, p).groups)
    decreases |p|, 1, 0
  {
    var r := MatchAt(s, i, p);
    if |p| > 0 {
      match p[0]
      case Lit(w) =>
        MatchSound(s, i + |w|, p[1..]);
        assert s[i..r.end][|w|..] == s[i + |w|..r.end];
      case Spaces =>
        TrySpacesSound(s, i, RunOf(s, i, ' '), p[1..]);
      case Group(c, ne) =>
        TryGroupSound(s, i, RunNot(s, i, c), c, ne, p[1..]);
    }
  }

  lemma {:induction false} TrySpacesSound(s: string, i: nat, j: nat, rest: seq<Atom>)
    requires i <= j <= |s| && forall k :: i <= k < j ==> s[k] == ' '
    requires TrySpaces(s, i, j, rest).Matched?
    ensures Accepts([Spaces] + rest, s[i..TrySpaces(s, i, j, rest).end], TrySpaces(s, i, j, rest).groups)
    decreases |rest| + 1, 0, j
  {
    var r := TrySpaces(s, i, j, rest);
    var text := s[i..r.end];
    if MatchAt(s, j, rest).Matched? {
      MatchSound(s, j, rest);
      assert SpaceRun(text, j - i) && text[j - i..] == s[j..r.end];
    } else {
      TrySpacesSound(s, i, j - 1, rest);
    }
    assert ([Spaces] + rest)[1..] == rest;
  }

  lemma {:induction false} TryGroupSound(s: string, i: nat, j: nat, c: char, ne: bool, rest: seq<Atom>)
    requires i <= j <= |s| && forall k :: i <= k < j ==> s[k] != c
    requires TryGroup(s, i, j, c, ne, rest).Matched?
    ensures Accepts([Group(c, ne)] + rest, s[i..TryGroup(s, i, j, c, ne, rest).end],
                    TryGroup(s, i, j, c, ne, rest).groups)
    decreases |rest| + 1, 0, j
  {
    var r := TryGroup(s, i, j, c, ne, rest);
    var text := s[i..r.end];
    if MatchAt(s, j, rest).Matched? {
      MatchSound(s, j, rest);
      var g := s[i..j];
      assert r.groups[0] == g && r.groups[1..] == MatchAt(s, j, rest).groups;
      assert c !in g by {
        forall k | 0 <= k < |g| ensures g[k] != c {
          assert g[k] == s[i + k];
        }
      }
      assert StartsWith(text, g) && text[|g|..] == s[j..r.end];
    } else {
      TryGroupSound(s, i, j - 1, c, ne, rest);
    }
    assert ([Group(c, ne)] + rest)[1..] == rest;
  }

  /** The search is exhaustive: whenever some prefix of `s[i..]` is a word of the
      pattern's language, a match is found at `i`. */
  lemma {:induction false} MatchComplete(s: string, i: nat, p: seq<Atom>, e: nat, g: seq<string>)
    requires i <= e <= |s| && Accepts(p, s[i..e], g)
    ensures MatchAt(s, i, p).Matched?
    decreases |p|, 1, 0
  {
    if |p| > 0 {
      var text := s[i..e];
      match p[0]
      case Lit(w) =>
        assert s[i..][..|w|] == text[..|w|];
        assert text[|w|..] == s[i + |w|..e];
        MatchComplete(s, i + |w|, p[1..], e, g);
      case Spaces =>
        var k :| SpaceRun(text, k) && Accepts(p[1..], text[k..], g);
        assert text[k..] == s[i + k..e];
        forall q | i <= q < i + k ensures s[q] == ' ' {
          assert s[q] == text[q - i];
        }
        TrySpacesComplete(s, i, RunOf(s, i, ' '), p[1..], i + k, e, g);
      case Group(c, ne) =>
        var g0 := g[0];
        assert text[|g0|..] == s[i + |g0|..e];
        forall q | i <= q < i + |g0| ensures s[q] != c {
          assert s[q] == g0[q - i];
        }
        TryGroupComplete(s, i, RunNot(s, i, c), c, ne, p[1..], i + |g0|, e, g[1..]);
    }
  }

  lemma {:induction false} TrySpacesComplete(s: string, i: nat, j: nat, rest: seq<Atom>, m: nat, e: nat, g: seq<string>)
    requires i < m <= j <= |s| && m <= e <= |s| && Accepts(rest, s[m..e], g)
    ensures TrySpaces(s, i, j, rest).Matched?
    decreases |rest| + 1, 0, j
  {
    if j == m {
      MatchComplete(s, m, rest, e, g);
    } else if !MatchAt(s, j, rest).Matched? {
      TrySpacesComplete(s, i, j - 1, rest, m, e, g);
    }
  }

  lemma {:induction false} TryGroupComplete(s: string, i: nat, j: nat, c: char, ne: bool, rest: seq<Atom>,
                                            m: nat, e: nat, g: seq<string>)
    requires i <= m <= j <= |s| && (ne ==> i < m) && m <= e <= |s| && Accepts(rest, s[m..e], g)
    ensures TryGroup(s, i, j, c, ne, rest).Matched?
    decreases |rest| + 1, 0, j
  {
    if j == m {
      MatchComplete(s, m, rest, e, g);
    } else if !MatchAt(s, j, rest).Matched? {
      TryGroupComplete(s, i, j - 1, c, ne, rest, m, e, g);
    }
  }

  /** A match starts at `i` exactly when some prefix of `s[i..]` is a word of the
      pattern's language. */
  lemma MatchIff(s: string, i: nat, p: seq<Atom>)
    requires i <= |s|
    ensures MatchAt(s, i, p).Matched? <==> exists e: nat, g :: i <= e <= |s| && Accepts(p, s[i..e], g)
  {
    if MatchAt(s, i, p).Matched? {
      MatchSound(s, i, p);
      var e: nat, g := MatchAt(s, i, p).end, MatchAt(s, i, p).groups;
      assert i <= e <= |s| && Accepts(p, s[i..e], g);
    }
    if exists e: nat, g :: i <= e <= |s| && Accepts(p, s[i..e], g) {
      var e: nat, g :| i <= e <= |s| && Accepts(p, s[i..e], g);
      MatchComplete(s, i, p, e, g);
    }
  }
}
