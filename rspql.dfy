/**
 * The RSP-QL query-header parser: `ParsedQuery` and `RSPQLParser.parse` / `unwrap`.
 * A query is split into lines; a `REGISTER` line sets the output operator, a
 * `FROM NAMED WINDOW` line adds window definitions, and every other line is kept for
 * the SPARQL query (a leading `WINDOW` rewritten to `GRAPH`), with `PREFIX` lines
 * also recording prefix mappings used to resolve the window and stream names.
 *
 * `ParseLines` is the value-level meaning of the line loop and `Parse` is the
 * imperative parser, proved to build exactly that value.
 */
module RspQL {
  import opened JsText
  import opened JsRegex

  /** The relation-to-stream operators. */
  datatype R2SOperator = RStream | IStream | DStream

  datatype R2S = R2S(operator: R2SOperator, name: string)

  datatype WindowDefinition = WindowDefinition(windowName: string, streamName: string, width: JsNumber, slide: JsNumber)

  const DefaultSparql: string := "Select * WHERE{?s ?p ?o}"
  const DefaultR2S: R2S := R2S(RStream, "undefined")

  /** The result of `parse`: a query object holding the SPARQL text, the output
      operator and the window definitions. */
  class ParsedQuery {
    var sparql: string
    var r2s: R2S
    var s2r: seq<WindowDefinition>

    constructor ()
      ensures sparql == DefaultSparql && r2s == DefaultR2S && s2r == []
    {
      sparql := DefaultSparql;
      r2s := DefaultR2S;
      s2r := [];
    }

    method SetSparql(sparql: string)
      modifies this`sparql
      ensures this.sparql == sparql
    {
      this.sparql := sparql;
    }

    method SetR2S(r2s: R2S)
      modifies this`r2s
      ensures this.r2s == r2s
    {
      this.r2s := r2s;
    }

    method AddS2R(s2r: WindowDefinition)
      modifies this`s2r
      ensures this.s2r == old(this.s2r) + [s2r]
    {
      this.s2r := this.s2r + [s2r];
    }
  }

  /** `/REGISTER +([^ ]+) +<([^>]+)> AS/g` */
  const RegisterPattern: seq<Atom> :=
    [Lit("REGISTER"), Spaces, Group(' ', true), Spaces, Lit("<"), Group('>', true), Lit("> AS")]

  /** `/FROM +NAMED +WINDOW +([^ ]+) +ON +STREAM +([^ ]+) +\[RANGE +([^ ]+) +STEP +([^ ]+)\]/g` */
  const WindowPattern: seq<Atom> := WindowName + StreamName + RangeClause + StepClause
  const WindowName: seq<Atom> := [Lit("FROM"), Spaces, Lit("NAMED"), Spaces, Lit("WINDOW"), Spaces, Group(' ', true), Spaces]
  const StreamName: seq<Atom> := [Lit("ON"), Spaces, Lit("STREAM"), Spaces, Group(' ', true), Spaces]
  const RangeClause: seq<Atom> := [Lit("[RANGE"), Spaces, Group(' ', true), Spaces]
  const StepClause: seq<Atom> := [Lit("STEP"), Spaces, Group(' ', true), Lit("]")]

  /** `/PREFIX +([^:]*): +<([^>]+)>/g` */
  const PrefixPattern: seq<Atom> :=
    [Lit("PREFIX"), Spaces, Group(':', false), Lit(":"), Spaces, Lit("<"), Group('>', true), Lit(">")]

  /** Counting groups from position `k` on, one atom at a time. */
  lemma GroupCountFrom(p: seq<Atom>, k: int)
    requires 0 <= k < |p|
    ensures GroupCount(p[k..]) == (if p[k].Group? then 1 else 0) + GroupCount(p[k + 1..])
  {
    assert p[k..][1..] == p[k + 1..];
  }

  /** The number of groups of each pattern, counted from its end. */
  lemma RegisterGroups()
    ensures GroupCount(RegisterPattern) == 2
  {
    assert RegisterPattern[7..] == [];
    GroupCountFrom(RegisterPattern, 6);
    GroupCountFrom(RegisterPattern, 5);
    GroupCountFrom(RegisterPattern, 4);
    GroupCountFrom(RegisterPattern, 3);
    GroupCountFrom(RegisterPattern, 2);
    GroupCountFrom(RegisterPattern, 1);
    GroupCountFrom(RegisterPattern, 0);
    assert RegisterPattern[0..] == RegisterPattern;
  }

  lemma WindowNameGroups()
    ensures GroupCount(WindowName) == 1
  {
    assert WindowName[8..] == [];
    GroupCountFrom(WindowName, 7);
    GroupCountFrom(WindowName, 6);
    GroupCountFrom(WindowName, 5);
    GroupCountFrom(WindowName, 4);
    GroupCountFrom(WindowName, 3);
    GroupCountFrom(WindowName, 2);
    GroupCountFrom(WindowName, 1);
    GroupCountFrom(WindowName, 0);
    assert WindowName[0..] == WindowName;
  }

  lemma StreamNameGroups()
    ensures GroupCount(StreamName) == 1
  {
    assert StreamName[6..] == [];
    GroupCountFrom(StreamName, 5);
    GroupCountFrom(StreamName, 4);
    GroupCountFrom(StreamName, 3);
    GroupCountFrom(StreamName, 2);
    GroupCountFrom(StreamName, 1);
    GroupCountFrom(StreamName, 0);
    assert StreamName[0..] == StreamName;
  }

  lemma RangeGroups()
    ensures GroupCount(RangeClause) == 1
  {
    assert RangeClause[4..] == [];
    GroupCountFrom(RangeClause, 3);
    GroupCountFrom(RangeClause, 2);
    GroupCountFrom(RangeClause, 1);
    GroupCountFrom(RangeClause, 0);
    assert RangeClause[0..] == RangeClause;
  }

  lemma StepGroups()
    ensures GroupCount(StepClause) == 1
  {
    assert StepClause[4..] == [];
    GroupCountFrom(StepClause, 3);
    GroupCountFrom(StepClause, 2);
    GroupCountFrom(StepClause, 1);
    GroupCountFrom(StepClause, 0);
    assert StepClause[0..] == StepClause;
  }

  lemma WindowGroups()
    ensures GroupCount(WindowPattern) == 4
  {
    WindowNameGroups();
    StreamNameGroups();
    RangeGroups();
    StepGroups();
    GroupCountAppend(WindowName, StreamName);
    GroupCountAppend(WindowName + StreamName, RangeClause);
    GroupCountAppend(WindowName + StreamName + RangeClause, StepClause);
  }

  lemma PrefixGroups()
    ensures GroupCount(PrefixPattern) == 2
  {
    assert PrefixPattern[8..] == [];
    GroupCountFrom(PrefixPattern, 7);
    GroupCountFrom(PrefixPattern, 6);
    GroupCountFrom(PrefixPattern, 5);
    GroupCountFrom(PrefixPattern, 4);
    GroupCountFrom(PrefixPattern, 3);
    GroupCountFrom(PrefixPattern, 2);
    GroupCountFrom(PrefixPattern, 1);
    GroupCountFrom(PrefixPattern, 0);
    assert PrefixPattern[0..] == PrefixPattern;
  }

  /** The matches of a pattern in a line, each with its groups. */
  function Matches(line: string, p: seq<Atom>): (r: seq<seq<string>>)
    ensures forall k :: 0 <= k < |r| ==> |r[k]| == GroupCount(p)
  {
    AllMatches(line, 0, p)
  }

  /** The matches of each of the three patterns, with their group counts. */
  function RegisterMatches(t: string): (r: seq<seq<string>>)
    ensures forall k :: 0 <= k < |r| ==> |r[k]| == 2
  {
    RegisterGroups();
    Matches(t, RegisterPattern)
  }

  function WindowMatches(t: string): (r: seq<seq<string>>)
    ensures forall k :: 0 <= k < |r| ==> |r[k]| == 4
  {
    WindowGroups();
    Matches(t, WindowPattern)
  }

  function PrefixMatches(t: string): (r: seq<seq<string>>)
    ensures forall k :: 0 <= k < |r| ==> |r[k]| == 2
  {
    PrefixGroups();
    Matches(t, PrefixPattern)
  }

  predicate IsOperator(text: string)
  {
    text == "RStream" || text == "DStream" || text == "IStream"
  }

  function OperatorNamed(text: string): (op: R2SOperator)
    requires IsOperator(text)
  {
    if text == "RStream" then RStream else if text == "DStream" then DStream else IStream
  }

  /** `unwrap(prefixedIri, mapper)`: an IRI in angle brackets loses its first and last
      character; otherwise the text before the first `:` is looked up as a prefix and
      its expansion is followed by the text between the first and the second `:`
      (`split[1]`, which reads as `"undefined"` when there is no `:`), and an unknown
      prefix gives the empty string. */
  function Unwrap(prefixedIri: string, mapper: map<string, string>): string
  {
    var t := Trim(prefixedIri);
    if StartsWith(t, "<") then
      (if |t| >= 2 then t[1..|t| - 1] else "")
    else
      var head := SplitHead(t);
      if head in mapper then mapper[head] + SplitSecond(t) else ""
  }

  /** `t.split(":")[0]`: the text before the first `:`, or all of `t`. */
  function SplitHead(t: string): string
  {
    var k := IndexOf(t, ":", 0);
    if k == -1 then t else t[..k]
  }

  /** `t.split(":")[1]` as string concatenation sees it: the text between the first
      and the second `:` (or the end), or `undefined` when there is no `:`. */
  function SplitSecond(t: string): string
  {
    var k := IndexOf(t, ":", 0);
    if k == -1 then "undefined"
    else
      var k2 := IndexOf(t, ":", k + 1);
      if k2 == -1 then t[k + 1..] else t[k + 1..k2]
  }

  /** The operator after the `set_r2s` calls of a line's REGISTER matches: the last
      match naming one of the three operators wins. */
  function Registered(r: R2S, ms: seq<seq<string>>): R2S
    requires forall k :: 0 <= k < |ms| ==> |ms[k]| == 2
  {
    if |ms| == 0 then r
    else
      var m := ms[|ms| - 1];
      if IsOperator(m[0]) then R2S(OperatorNamed(m[0]), m[1]) else Registered(r, ms[..|ms| - 1])
  }

  /** The window definition one FROM match adds. */
  function Definition(m: seq<string>, mapper: map<string, string>): WindowDefinition
    requires |m| == 4
  {
    WindowDefinition(Unwrap(m[0], mapper), Unwrap(m[1], mapper), Number(m[2]), Number(m[3]))
  }

  /** The `add_s2r` calls of a line's FROM matches, in order. */
  function Definitions(ms: seq<seq<string>>, mapper: map<string, string>): seq<WindowDefinition>
    requires forall k :: 0 <= k < |ms| ==> |ms[k]| == 4
  {
    seq(|ms|, k requires 0 <= k < |ms| => Definition(ms[k], mapper))
  }

  /** One more match adds one more definition at the end. */
  lemma DefinitionsSnoc(ms: seq<seq<string>>, j: nat, mapper: map<string, string>)
    requires forall k :: 0 <= k < |ms| ==> |ms[k]| == 4
    requires j < |ms|
    ensures Definitions(ms[..j + 1], mapper) == Definitions(ms[..j], mapper) + [Definition(ms[j], mapper)]
  {
    var a := Definitions(ms[..j + 1], mapper);
    var b := Definitions(ms[..j], mapper) + [Definition(ms[j], mapper)];
    assert |a| == |b|;
    forall k | 0 <= k < |a| ensures a[k] == b[k] {
      assert ms[..j + 1][k] == ms[k];
      if k < j {
        assert ms[..j][k] == ms[k];
      }
    }
  }

  /** The `prefixMapper.set` calls of a line's PREFIX matches, in order. */
  function Bind(mapper: map<string, string>, ms: seq<seq<string>>): map<string, string>
    requires forall k :: 0 <= k < |ms| ==> |ms[k]| == 2
  {
    if |ms| == 0 then mapper
    else
      var m := ms[|ms| - 1];
      Bind(mapper, ms[..|ms| - 1])[m[0] := m[1]]
  }

  /** A trimmed line kept for the SPARQL query, with a leading `WINDOW` rewritten. */
  function SparqlLine(t: string): string
  {
    if StartsWith(t, "WINDOW") then ReplaceFirst(t, "WINDOW", "GRAPH") else t
  }

  /** What one line of the query is, with the matches the loop body iterates over:
      a REGISTER line, a FROM NAMED WINDOW line, or a line kept for the SPARQL text
      (rewritten), with the PREFIX matches it binds (none unless it is a PREFIX line). */
  datatype LineInfo =
    | RegisterLine(registers: seq<seq<string>>)
    | WindowLine(windows: seq<seq<string>>)
    | QueryLine(text: string, prefixes: seq<seq<string>>)

  /** Every match has the groups of its pattern. */
  predicate GroupsFit(info: LineInfo)
  {
    match info
    case RegisterLine(ms) => forall k :: 0 <= k < |ms| ==> |ms[k]| == 2
    case WindowLine(ms) => forall k :: 0 <= k < |ms| ==> |ms[k]| == 4
    case QueryLine(_, ms) => forall k :: 0 <= k < |ms| ==> |ms[k]| == 2
  }

  /** The trimming, the tests on the line's start and the pattern matching of one
      iteration of the `forEach`. */
  function Analyze(line: string): (info: LineInfo)
    ensures GroupsFit(info)
  {
    var t := Trim(line);
    if StartsWith(t, "REGISTER") then RegisterLine(RegisterMatches(t))
    else if StartsWith(t, "FROM NAMED WINDOW") then WindowLine(WindowMatches(t))
    else
      var l := SparqlLine(t);
      QueryLine(l, if StartsWith(l, "PREFIX") then PrefixMatches(t) else [])
  }

  /** What the line loop has built so far. */
  datatype Acc = Acc(sparqlLines: seq<string>, mapper: map<string, string>, r2s: R2S, s2r: seq<WindowDefinition>)

  const Start: Acc := Acc([], map[], DefaultR2S, [])

  /** The updates of one iteration of the `forEach`. */
  function Step(a: Acc, info: LineInfo): Acc
    requires GroupsFit(info)
  {
    match info
    case RegisterLine(ms) => a.(r2s := Registered(a.r2s, ms))
    case WindowLine(ms) => a.(s2r := a.s2r + Definitions(ms, a.mapper))
    case QueryLine(l, ms) => a.(sparqlLines := a.sparqlLines + [l], mapper := Bind(a.mapper, ms))
  }

  /** The analyses of the lines, one for one. */
  function AnalyzeAll(lines: seq<string>): (r: seq<LineInfo>)
    ensures |r| == |lines| && forall k :: 0 <= k < |r| ==> GroupsFit(r[k])
  {
    if |lines| == 0 then [] else AnalyzeAll(lines[..|lines| - 1]) + [Analyze(lines[|lines| - 1])]
  }

  /** The analysis at position `k` is that of line `k`. */
  lemma {:induction false} AnalyzeAllAt(lines: seq<string>, k: nat)
    requires k < |lines|
    ensures AnalyzeAll(lines)[k] == Analyze(lines[k])
    decreases |lines|
  {
    var n := |lines| - 1;
    if k < n {
      AnalyzeAllAt(lines[..n], k);
    }
  }

  /** The state after the loop has visited lines with the given analyses. */
  function Fold(infos: seq<LineInfo>): Acc
    requires forall k :: 0 <= k < |infos| ==> GroupsFit(infos[k])
  {
    if |infos| == 0 then Start else Step(Fold(infos[..|infos| - 1]), infos[|infos| - 1])
  }

  /** The state after the loop has visited `lines`. */
  function ParseLines(lines: seq<string>): Acc
  {
    Fold(AnalyzeAll(lines))
  }

  /** Visiting one more line is one more step of the fold. */
  lemma ParseLinesSnoc(lines: seq<string>, i: nat)
    requires i < |lines|
    ensures ParseLines(lines[..i + 1]) == Step(ParseLines(lines[..i]), Analyze(lines[i]))
  {
    assert lines[..i + 1][..i] == lines[..i];
  }

  /** The value of a parsed query. */
  datatype Query = Query(sparql: string, r2s: R2S, s2r: seq<WindowDefinition>)

  /** The meaning of `parse(query)`. */
  function ParseQuery(query: string): Query
  {
    var a := ParseLines(SplitLines(query));
    Query(Join(a.sparqlLines, "\n"), a.r2s, a.s2r)
  }

  /** The loop over the matches of a REGISTER line. */
  method ApplyRegister(parsed: ParsedQuery, ms: seq<seq<string>>)
    requires forall k :: 0 <= k < |ms| ==> |ms[k]| == 2
    modifies parsed`r2s
    ensures parsed.r2s == Registered(old(parsed.r2s), ms)
  {
    for j := 0 to |ms|
      invariant parsed.r2s == Registered(old(parsed.r2s), ms[..j])
    {
      assert ms[..j + 1][..j] == ms[..j];
      if ms[j][0] == "RStream" || ms[j][0] == "DStream" || ms[j][0] == "IStream" {
        parsed.SetR2S(R2S(OperatorNamed(ms[j][0]), ms[j][1]));
      }
    }
    assert ms[..|ms|] == ms;
  }

  /** The loop over the matches of a FROM NAMED WINDOW line. */
  method AddWindows(parsed: ParsedQuery, ms: seq<seq<string>>, mapper: map<string, string>)
    requires forall k :: 0 <= k < |ms| ==> |ms[k]| == 4
    modifies parsed`s2r
    ensures parsed.s2r == old(parsed.s2r) + Definitions(ms, mapper)
  {
    for j := 0 to |ms|
      invariant parsed.s2r == old(parsed.s2r) + Definitions(ms[..j], mapper)
    {
      DefinitionsSnoc(ms, j, mapper);
      parsed.AddS2R(Definition(ms[j], mapper));
    }
    assert ms[..|ms|] == ms;
  }

  /** The loop over the matches of a PREFIX line. */
  method BindPrefixes(mapper: map<string, string>, ms: seq<seq<string>>) returns (r: map<string, string>)
    requires forall k :: 0 <= k < |ms| ==> |ms[k]| == 2
    ensures r == Bind(mapper, ms)
  {
    r := mapper;
    for j := 0 to |ms|
      invariant r == Bind(mapper, ms[..j])
    {
      assert ms[..j + 1][..j] == ms[..j];
      r := r[ms[j][0] := ms[j][1]];
    }
    assert ms[..|ms|] == ms;
  }

  /** The body of the `forEach`: `parsed` is updated in place, the kept lines and the
      prefix map are returned. */
  method VisitLine(parsed: ParsedQuery, line: string, sparqlLines: seq<string>, mapper: map<string, string>)
    returns (sparqlLines': seq<string>, mapper': map<string, string>)
    modifies parsed`r2s, parsed`s2r
    ensures Acc(sparqlLines', mapper', parsed.r2s, parsed.s2r)
         == Step(Acc(sparqlLines, mapper, old(parsed.r2s), old(parsed.s2r)), Analyze(line))
  {
    sparqlLines', mapper' := sparqlLines, mapper;
    var trimmed := Trim(line);
    if StartsWith(trimmed, "REGISTER") {
      ApplyRegister(parsed, RegisterMatches(trimmed));
    } else if StartsWith(trimmed, "FROM NAMED WINDOW") {
      AddWindows(parsed, WindowMatches(trimmed), mapper);
    } else {
      var sparqlLine := trimmed;
      if StartsWith(sparqlLine, "WINDOW") {
        sparqlLine := ReplaceFirst(sparqlLine, "WINDOW", "GRAPH");
      }
      if StartsWith(sparqlLine, "PREFIX") {
        mapper' := BindPrefixes(mapper, PrefixMatches(trimmed));
      } else {
        assert Bind(mapper, []) == mapper;
      }
      sparqlLines' := sparqlLines + [sparqlLine];
    }
  }

  /** `parse(query)`. */
  method Parse(query: string) returns (parsed: ParsedQuery)
    ensures fresh(parsed)
    ensures Query(parsed.sparql, parsed.r2s, parsed.s2r) == ParseQuery(query)
  {
    parsed := new ParsedQuery();
    var lines := SplitLines(query);
    var sparqlLines: seq<string> := [];
    var prefixMapper: map<string, string> := map[];
    for i := 0 to |lines|
      invariant Acc(sparqlLines, prefixMapper, parsed.r2s, parsed.s2r) == ParseLines(lines[..i])
    {
      ParseLinesSnoc(lines, i);
      sparqlLines, prefixMapper := VisitLine(parsed, lines[i], sparqlLines, prefixMapper);
    }
    assert lines[..|lines|] == lines;
    parsed.sparql := Join(sparqlLines, "\n");
  }
}
