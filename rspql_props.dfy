/**
 * Properties of the RSP-QL parser: what each kind of line contributes, which lines
 * reach the SPARQL text, which prefixes resolve the names of a window clause, the
 * defaults, and the two shapes `unwrap` distinguishes.
 */
module RspQLProps {
  import opened JsText
  import opened JsRegex
  import opened RspQL

  /** The position of the last REGISTER match naming an operator, or -1. */
  function LastOperator(ms: seq<seq<string>>): (r: int)
    requires forall k :: 0 <= k < |ms| ==> |ms[k]| == 2
    ensures -1 <= r < |ms| && (r >= 0 ==> IsOperator(ms[r][0]))
    ensures forall j :: r < j < |ms| ==> !IsOperator(ms[j][0])
  {
    if |ms| == 0 then -1
    else if IsOperator(ms[|ms| - 1][0]) then |ms| - 1
    else LastOperator(ms[..|ms| - 1])
  }

  /** The last REGISTER match naming an operator decides `r2s`; without one `r2s`
      keeps its value. */
  lemma {:induction false} RegisteredLast(r: R2S, ms: seq<seq<string>>)
    requires forall k :: 0 <= k < |ms| ==> |ms[k]| == 2
    ensures LastOperator(ms) == -1 ==> Registered(r, ms) == r
    ensures LastOperator(ms) >= 0 ==>
      Registered(r, ms) == R2S(OperatorNamed(ms[LastOperator(ms)][0]), ms[LastOperator(ms)][1])
  {
    if |ms| > 0 && !IsOperator(ms[|ms| - 1][0]) {
      var init := ms[..|ms| - 1];
      RegisteredLast(r, init);
      assert LastOperator(ms) == LastOperator(init);
      if LastOperator(init) >= 0 {
        assert init[LastOperator(init)] == ms[LastOperator(init)];
      }
    }
  }

  /** The position of the last PREFIX match binding `key`, or -1. */
  function LastBinding(ms: seq<seq<string>>, key: string): (r: int)
    requires forall k :: 0 <= k < |ms| ==> |ms[k]| == 2
    ensures -1 <= r < |ms| && (r >= 0 ==> ms[r][0] == key)
    ensures forall j :: r < j < |ms| ==> ms[j][0] != key
  {
    if |ms| == 0 then -1
    else if ms[|ms| - 1][0] == key then |ms| - 1
    else LastBinding(ms[..|ms| - 1], key)
  }

  /** After a line's PREFIX matches, a prefix maps to the IRI of its last binding, and a
      prefix the line does not bind keeps its previous mapping. */
  lemma {:induction false} BindLookup(mapper: map<string, string>, ms: seq<seq<string>>, key: string)
    requires forall k :: 0 <= k < |ms| ==> |ms[k]| == 2
    ensures LastBinding(ms, key) == -1 ==>
      (key in Bind(mapper, ms) <==> key in mapper) && (key in mapper ==> Bind(mapper, ms)[key] == mapper[key])
    ensures LastBinding(ms, key) >= 0 ==>
      key in Bind(mapper, ms) && Bind(mapper, ms)[key] == ms[LastBinding(ms, key)][1]
  {
    if |ms| > 0 && ms[|ms| - 1][0] != key {
      var init := ms[..|ms| - 1];
      BindLookup(mapper, init, key);
      var B := Bind(mapper, init);
      assert Bind(mapper, ms) == B[ms[|ms| - 1][0] := ms[|ms| - 1][1]];
      assert LastBinding(ms, key) == LastBinding(init, key);
      if LastBinding(init, key) >= 0 {
        assert init[LastBinding(init, key)] == ms[LastBinding(init, key)];
      }
    }
  }

  /** A line whose first word is `WINDOW` is kept with that word replaced by `GRAPH`. */
  lemma WindowBecomesGraph(t: string)
    requires StartsWith(t, "WINDOW")
    ensures SparqlLine(t) == "GRAPH" + t[6..]
  {
    ReplaceLeading(t, "WINDOW", "GRAPH");
  }

  /** Rewriting `WINDOW` never makes or unmakes a PREFIX line. */
  lemma PrefixSurvives(t: string)
    ensures StartsWith(SparqlLine(t), "PREFIX") <==> StartsWith(t, "PREFIX")
  {
    if StartsWith(t, "WINDOW") {
      WindowBecomesGraph(t);
      assert SparqlLine(t)[0] == 'G' && t[0] == 'W';
    }
  }

  /** A line is a REGISTER line, a FROM NAMED WINDOW line or a query line, by its
      trimmed start; a query line carries the rewritten text and, when it is a PREFIX
      line, the PREFIX matches of the trimmed line. */
  lemma Classified(line: string)
    ensures var t := Trim(line);
      (Analyze(line).RegisterLine? <==> StartsWith(t, "REGISTER")) &&
      (Analyze(line).WindowLine? <==> StartsWith(t, "FROM NAMED WINDOW")) &&
      (Analyze(line).QueryLine? <==> IsQueryLine(t)) &&
      (Analyze(line).RegisterLine? ==> Analyze(line).registers == RegisterMatches(t)) &&
      (Analyze(line).WindowLine? ==> Analyze(line).windows == WindowMatches(t)) &&
      (Analyze(line).QueryLine? ==>
        Analyze(line).text == SparqlLine(t) &&
        Analyze(line).prefixes == if StartsWith(t, "PREFIX") then PrefixMatches(t) else [])
  {
    var t := Trim(line);
    if StartsWith(t, "FROM NAMED WINDOW") {
      assert !StartsWith(t, "REGISTER") by {
        assert t[0] == 'F';
      }
    }
    PrefixSurvives(t);
  }

  /** A REGISTER line changes `r2s` only: to the last match naming an operator, or not
      at all when none does. */
  lemma RegisterLineEffect(a: Acc, line: string)
    requires StartsWith(Trim(line), "REGISTER")
    ensures var ms := RegisterMatches(Trim(line));
      var b := Step(a, Analyze(line));
      b.sparqlLines == a.sparqlLines && b.mapper == a.mapper && b.s2r == a.s2r &&
      b.r2s == (if LastOperator(ms) == -1 then a.r2s
                else R2S(OperatorNamed(ms[LastOperator(ms)][0]), ms[LastOperator(ms)][1]))
  {
    RegisteredLast(a.r2s, RegisterMatches(Trim(line)));
  }

  /** A FROM NAMED WINDOW line appends one definition per match, resolved with the
      prefixes known so far, and changes nothing else. */
  lemma WindowLineEffect(a: Acc, line: string)
    requires StartsWith(Trim(line), "FROM NAMED WINDOW")
    ensures var ms := WindowMatches(Trim(line));
      var b := Step(a, Analyze(line));
      b.sparqlLines == a.sparqlLines && b.mapper == a.mapper && b.r2s == a.r2s &&
      |b.s2r| == |a.s2r| + |ms| && b.s2r[..|a.s2r|] == a.s2r &&
      forall k :: 0 <= k < |ms| ==> b.s2r[|a.s2r| + k] == Definition(ms[k], a.mapper)
  {
    Classified(line);
  }

  /** Any other line is kept, trimmed and rewritten; a PREFIX line maps each prefix it
      binds to the IRI of its last binding; the rest is unchanged. */
  lemma QueryLineEffect(a: Acc, line: string, key: string)
    requires IsQueryLine(Trim(line))
    ensures var t := Trim(line);
      var b := Step(a, Analyze(line));
      b.sparqlLines == a.sparqlLines + [SparqlLine(t)] && b.r2s == a.r2s && b.s2r == a.s2r &&
      (!StartsWith(t, "PREFIX") ==> b.mapper == a.mapper) &&
      (StartsWith(t, "PREFIX") && LastBinding(PrefixMatches(t), key) >= 0 ==>
        key in b.mapper && b.mapper[key] == PrefixMatches(t)[LastBinding(PrefixMatches(t), key)][1]) &&
      (StartsWith(t, "PREFIX") && LastBinding(PrefixMatches(t), key) == -1 ==>
        (key in b.mapper <==> key in a.mapper) && (key in a.mapper ==> b.mapper[key] == a.mapper[key]))
  {
    var t := Trim(line);
    Classified(line);
    if StartsWith(t, "PREFIX") {
      BindLookup(a.mapper, PrefixMatches(t), key);
    }
  }

  /** The analyses of a prefix of the lines are a prefix of the analyses. */
  lemma {:induction false} AnalyzeAllPrefix(lines: seq<string>, i: nat)
    requires i <= |lines|
    ensures AnalyzeAll(lines[..i]) == AnalyzeAll(lines)[..i]
  {
    var r := AnalyzeAll(lines);
    var q := AnalyzeAll(lines[..i]);
    assert |q| == i;
    forall k | 0 <= k < i ensures q[k] == r[k] {
      AnalyzeAllAt(lines, k);
      AnalyzeAllAt(lines[..i], k);
      assert lines[..i][k] == lines[k];
    }
  }

  /** The text a line contributes to the SPARQL query, by its analysis. */
  function TextOf(info: LineInfo): seq<string>
  {
    if info.QueryLine? then [info.text] else []
  }

  function Texts(infos: seq<LineInfo>): seq<string>
  {
    if |infos| == 0 then [] else Texts(infos[..|infos| - 1]) + TextOf(infos[|infos| - 1])
  }

  /** The folded `sparqlLines` are the texts of the query lines, in order. */
  lemma {:induction false} FoldTexts(infos: seq<LineInfo>)
    requires forall k :: 0 <= k < |infos| ==> GroupsFit(infos[k])
    ensures Fold(infos).sparqlLines == Texts(infos)
    decreases |infos|
  {
    if |infos| > 0 {
      FoldTexts(infos[..|infos| - 1]);
    }
  }

  /** A line that reaches the SPARQL text, by its trimmed start. */
  predicate IsQueryLine(t: string)
  {
    !StartsWith(t, "REGISTER") && !StartsWith(t, "FROM NAMED WINDOW")
  }

  /** What one line contributes to the SPARQL text, defined on the line itself. */
  function KeptOne(line: string): seq<string>
  {
    var t := Trim(line);
    if IsQueryLine(t) then [SparqlLine(t)] else []
  }

  /** The lines that reach the SPARQL text: each trimmed line that is neither REGISTER
      nor FROM NAMED WINDOW, rewritten, in input order. */
  function Kept(lines: seq<string>): seq<string>
  {
    if |lines| == 0 then [] else Kept(lines[..|lines| - 1]) + KeptOne(lines[|lines| - 1])
  }

  /** Each line adds its own contribution to the kept lines. */
  lemma LineKept(line: string)
    ensures TextOf(Analyze(line)) == KeptOne(line)
  {
    Classified(line);
  }

  lemma {:induction false} TextsKept(lines: seq<string>)
    ensures Texts(AnalyzeAll(lines)) == Kept(lines)
    decreases |lines|
  {
    if |lines| > 0 {
      var n := |lines| - 1;
      var infos := AnalyzeAll(lines);
      AnalyzeAllPrefix(lines, n);
      TextsKept(lines[..n]);
      AnalyzeAllAt(lines, n);
      LineKept(lines[n]);
      assert Texts(infos) == Texts(infos[..n]) + TextOf(infos[n]);
    }
  }

  /** The loop keeps exactly the query lines, in order. */
  lemma KeptLines(lines: seq<string>)
    ensures ParseLines(lines).sparqlLines == Kept(lines)
  {
    FoldTexts(AnalyzeAll(lines));
    TextsKept(lines);
  }

  /** The SPARQL text is the query lines joined with line feeds. */
  lemma SparqlText(query: string)
    ensures ParseQuery(query).sparql == Join(Kept(SplitLines(query)), "\n")
  {
    KeptLines(SplitLines(query));
  }

  /** The definitions folded from a prefix of the analyses begin the final ones. */
  lemma {:induction false} FoldGrows(infos: seq<LineInfo>, i: nat)
    requires forall k :: 0 <= k < |infos| ==> GroupsFit(infos[k])
    requires i <= |infos|
    ensures Fold(infos[..i]).s2r <= Fold(infos).s2r
    decreases |infos|
  {
    if i < |infos| {
      var n := |infos| - 1;
      assert infos[..n][..i] == infos[..i];
      FoldGrows(infos[..n], i);
    } else {
      assert infos[..i] == infos;
    }
  }

  /** The definitions built from a prefix of the lines begin the final ones. */
  lemma S2RGrows(lines: seq<string>, i: nat)
    requires i <= |lines|
    ensures ParseLines(lines[..i]).s2r <= ParseLines(lines).s2r
  {
    AnalyzeAllPrefix(lines, i);
    FoldGrows(AnalyzeAll(lines), i);
  }

  /** The definitions of a window line follow those of the earlier lines in the final
      list, resolved with the prefixes of the earlier lines. */
  lemma FoldWindow(infos: seq<LineInfo>, i: nat)
    requires forall k :: 0 <= k < |infos| ==> GroupsFit(infos[k])
    requires i < |infos| && infos[i].WindowLine?
    ensures GroupsFit(infos[i])
    ensures Fold(infos[..i]).s2r + Definitions(infos[i].windows, Fold(infos[..i]).mapper) <= Fold(infos).s2r
  {
    assert infos[..i + 1][..i] == infos[..i];
    FoldGrows(infos, i + 1);
  }

  /** The definitions of a FROM NAMED WINDOW line follow those of the earlier lines in
      the final list, resolved with the prefixes of the earlier lines only. */
  lemma WindowLineResolvesEarlier(lines: seq<string>, i: nat)
    requires i < |lines| && StartsWith(Trim(lines[i]), "FROM NAMED WINDOW")
    ensures var before := ParseLines(lines[..i]);
      before.s2r + Definitions(WindowMatches(Trim(lines[i])), before.mapper) <= ParseLines(lines).s2r
  {
    WindowAnalysis(lines, i);
    FoldWindow(AnalyzeAll(lines), i);
  }

  lemma WindowAnalysis(lines: seq<string>, i: nat)
    requires i < |lines| && StartsWith(Trim(lines[i]), "FROM NAMED WINDOW")
    ensures AnalyzeAll(lines)[i] == WindowLine(WindowMatches(Trim(lines[i])))
    ensures Fold(AnalyzeAll(lines)[..i]) == ParseLines(lines[..i])
  {
    AnalyzeAllPrefix(lines, i);
    AnalyzeAllAt(lines, i);
    Classified(lines[i]);
  }

  /** A REGISTER line with a match naming one of the three operators. */
  predicate SetsOperator(line: string)
  {
    var t := Trim(line);
    StartsWith(t, "REGISTER") &&
    exists k :: 0 <= k < |RegisterMatches(t)| && IsOperator(RegisterMatches(t)[k][0])
  }

  /** A REGISTER analysis whose matches name no operator. */
  predicate Inert(info: LineInfo)
    requires GroupsFit(info)
  {
    info.RegisterLine? ==> LastOperator(info.registers) == -1
  }

  lemma {:induction false} FoldDefault(infos: seq<LineInfo>)
    requires forall k :: 0 <= k < |infos| ==> GroupsFit(infos[k]) && Inert(infos[k])
    ensures Fold(infos).r2s == DefaultR2S
    decreases |infos|
  {
    if |infos| > 0 {
      var n := |infos| - 1;
      FoldDefault(infos[..n]);
      if infos[n].RegisterLine? {
        RegisteredLast(Fold(infos[..n]).r2s, infos[n].registers);
      }
    }
  }

  lemma InertLine(line: string)
    requires !SetsOperator(line)
    ensures Inert(Analyze(line))
  {
    Classified(line);
    var t := Trim(line);
    if StartsWith(t, "REGISTER") {
      var ms := RegisterMatches(t);
      var r := LastOperator(ms);
      if r >= 0 {
        assert false;
      }
    }
  }

  /** Without a REGISTER line naming an operator, `r2s` keeps its default. */
  lemma DefaultOperator(lines: seq<string>)
    requires forall i :: 0 <= i < |lines| ==> !SetsOperator(lines[i])
    ensures ParseLines(lines).r2s == DefaultR2S
  {
    var infos := AnalyzeAll(lines);
    forall k | 0 <= k < |infos| ensures Inert(infos[k]) {
      AnalyzeAllAt(lines, k);
      InertLine(lines[k]);
    }
    FoldDefault(infos);
  }

  lemma {:induction false} FoldNoWindows(infos: seq<LineInfo>)
    requires forall k :: 0 <= k < |infos| ==> GroupsFit(infos[k]) && !infos[k].WindowLine?
    ensures Fold(infos).s2r == []
    decreases |infos|
  {
    if |infos| > 0 {
      FoldNoWindows(infos[..|infos| - 1]);
    }
  }

  /** Without a FROM NAMED WINDOW line there are no window definitions. */
  lemma NoWindows(lines: seq<string>)
    requires forall i :: 0 <= i < |lines| ==> !StartsWith(Trim(lines[i]), "FROM NAMED WINDOW")
    ensures ParseLines(lines).s2r == []
  {
    var infos := AnalyzeAll(lines);
    forall k | 0 <= k < |infos| ensures !infos[k].WindowLine? {
      AnalyzeAllAt(lines, k);
      Classified(lines[k]);
    }
    FoldNoWindows(infos);
  }

  /** An IRI in angle brackets is the trimmed text without its first and last
      character. */
  lemma UnwrapBracketed(x: string, mapper: map<string, string>)
    requires StartsWith(Trim(x), "<") && |Trim(x)| >= 2
    ensures Trim(x) == [Trim(x)[0]] + Unwrap(x, mapper) + [Trim(x)[|Trim(x)| - 1]]
  {
    var t := Trim(x);
    assert t == [t[0]] + t[1..|t| - 1] + [t[|t| - 1]];
  }

  /** The two pieces of `pre:local...` that `split(":")` yields first. */
  lemma SplitPieces(t: string, pre: string, local: string, tail: string)
    requires t == pre + ":" + local + tail
    requires ':' !in pre && ':' !in local && (tail == [] || tail[0] == ':')
    ensures SplitHead(t) == pre && SplitSecond(t) == local
  {
    var n := |pre|;
    assert t[n] == ':' && t[..n] == pre;
    forall k | 0 <= k < n ensures !OccursAt(t, ":", k) {
      assert t[k] == pre[k];
    }
    assert IndexOf(t, ":", 0) == n by {
      assert OccursAt(t, ":", n);
    }
    forall k | n + 1 <= k < n + 1 + |local| ensures !OccursAt(t, ":", k) {
      assert t[k] == local[k - n - 1];
    }
    var k2 := IndexOf(t, ":", n + 1);
    if tail == [] {
      assert k2 == -1;
      assert t[n + 1..] == local;
    } else {
      assert OccursAt(t, ":", n + 1 + |local|);
      assert k2 == n + 1 + |local|;
      assert t[n + 1..k2] == local;
    }
  }

  /** A prefixed name `pre:local` (optionally followed by further `:` segments)
      resolves to the expansion of `pre` followed by `local`, or to the empty string
      when `pre` is unknown. */
  lemma UnwrapPrefixed(x: string, mapper: map<string, string>, pre: string, local: string, tail: string)
    requires Trim(x) == pre + ":" + local + tail
    requires ':' !in pre && ':' !in local && (tail == [] || tail[0] == ':')
    requires pre == [] || pre[0] != '<'
    ensures Unwrap(x, mapper) == if pre in mapper then mapper[pre] + local else ""
  {
    var t := Trim(x);
    assert t[0] != '<';
    SplitPieces(t, pre, local, tail);
  }

  /** A name without `:` looks itself up as a prefix, and JavaScript appends the
      missing `split[1]` as the text `undefined`. */
  lemma UnwrapWithoutColon(x: string, mapper: map<string, string>)
    requires ':' !in Trim(x) && !StartsWith(Trim(x), "<")
    ensures Unwrap(x, mapper) == if Trim(x) in mapper then mapper[Trim(x)] + "undefined" else ""
  {
    var t := Trim(x);
    forall k | 0 <= k < |t| ensures !OccursAt(t, ":", k) {
      assert t[k..k + 1][0] == t[k];
      assert t[k] in t;
    }
    assert IndexOf(t, ":", 0) == -1;
  }

  /** `:stream1` under `PREFIX : <https://rsp.js/>`. */
  lemma StreamNameExample(name: string, mapper: map<string, string>)
    requires name == ":stream1" && mapper == map["" := "https://rsp.js/"]
    ensures Unwrap(name, mapper) == "https://rsp.js/stream1"
  {
    assert name[0] == ':' && name[|name| - 1] == '1';
    TrimmedAlready(name);
    assert name == "" + ":" + "stream1" + "";
    UnwrapPrefixed(name, mapper, "", "stream1", "");
  }
}
