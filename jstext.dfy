/**
 * The JavaScript string built-ins the RSP-QL parser relies on, as pure functions
 * over `seq<char>`: `trim`, `startsWith`, `indexOf`, `replace` with a string pattern,
 * `split(/\r?\n/)`, `join` and `Number` restricted to decimal digit strings.
 */
module JsText {

  /** The characters `String.prototype.trim` removes: WhiteSpace and LineTerminator
      of ECMAScript (tab, vertical tab, form feed, space, no-break space, byte order
      mark, the space separators of Unicode, line feed, carriage return and the line
      and paragraph separators). */
  predicate IsWhite(c: char)
  {
    c == '\t' || c == '\n' || c == '\U{000B}' || c == '\U{000C}' || c == '\r' || c == ' ' ||
    c == '\U{00A0}' || c == '\U{1680}' || ('\U{2000}' <= c <= '\U{200A}') ||
    c == '\U{2028}' || c == '\U{2029}' || c == '\U{202F}' || c == '\U{205F}' ||
    c == '\U{3000}' || c == '\U{FEFF}'
  }

  /** The number of white-space characters `s` starts with. */
  function LeadingWhite(s: string): (n: nat)
    ensures n <= |s|
  {
    if |s| > 0 && IsWhite(s[0]) then 1 + LeadingWhite(s[1..]) else 0
  }

  /** `s.trimEnd()`: the text before the trailing white space. */
  function TrimEnd(s: string): (r: string)
    ensures |r| <= |s|
  {
    if |s| > 0 && IsWhite(s[|s| - 1]) then TrimEnd(s[..|s| - 1]) else s
  }

  /** `s.trim()`. */
  function Trim(s: string): string
  {
    TrimEnd(s[LeadingWhite(s)..])
  }

  /** The leading white space is the longest white prefix. */
  lemma {:induction false} LeadingWhiteIs(s: string)
    ensures var n := LeadingWhite(s);
      (n == |s| || !IsWhite(s[n])) && forall k :: 0 <= k < n ==> IsWhite(s[k])
    decreases |s|
  {
    if |s| > 0 && IsWhite(s[0]) {
      LeadingWhiteIs(s[1..]);
      var n := LeadingWhite(s);
      assert forall k :: 1 <= k < n ==> s[k] == s[1..][k - 1];
    }
  }

  /** `trimEnd` keeps a prefix, drops only white space, and leaves no white
      character at the end. */
  lemma {:induction false} TrimEndIs(s: string)
    ensures var r := TrimEnd(s);
      r == s[..|r|] && (forall k :: |r| <= k < |s| ==> IsWhite(s[k])) &&
      (r == [] || !IsWhite(r[|r| - 1]))
    decreases |s|
  {
    if |s| > 0 && IsWhite(s[|s| - 1]) {
      var p := s[..|s| - 1];
      TrimEndIs(p);
      var r := TrimEnd(s);
      assert r == TrimEnd(p);
      assert p[..|r|] == s[..|r|];
      assert forall k :: |r| <= k < |p| ==> p[k] == s[k];
    }
  }

  /** `s.trim()` is the slice of `s` after its leading white space. */
  lemma TrimIs(s: string)
    ensures var a := LeadingWhite(s); var r := Trim(s); a + |r| <= |s| && r == s[a..a + |r|]
  {
    var a := LeadingWhite(s);
    var rest := s[a..];
    var n := |TrimEnd(rest)|;
    assert TrimEnd(rest) == rest[..n] by {
      TrimEndIs(rest);
    }
    assert rest[..n] == s[a..a + n];
  }

  /** Everything `s.trim()` drops is white space. */
  lemma TrimDropsWhite(s: string)
    ensures var a := LeadingWhite(s); var n := |Trim(s)|;
      (forall k :: 0 <= k < a ==> IsWhite(s[k])) && forall k :: a + n <= k < |s| ==> IsWhite(s[k])
  {
    var a := LeadingWhite(s);
    var rest := s[a..];
    var n := |TrimEnd(rest)|;
    LeadingWhiteIs(s);
    assert forall k :: n <= k < |rest| ==> IsWhite(rest[k]) by {
      TrimEndIs(rest);
    }
    forall k | a + n <= k < |s| ensures IsWhite(s[k]) {
      assert s[k] == rest[k - a];
    }
  }

  /** `s.trim()` neither starts nor ends with white space. */
  lemma TrimEnds(s: string)
    ensures var r := Trim(s); r == [] || (!IsWhite(r[0]) && !IsWhite(r[|r| - 1]))
  {
    var a := LeadingWhite(s);
    var rest := s[a..];
    var r := TrimEnd(rest);
    assert a == |s| || !IsWhite(s[a]) by {
      LeadingWhiteIs(s);
    }
    TrimEndIs(rest);
    if r != [] {
      assert r[0] == rest[0] == s[a];
    }
  }

  /** A text that neither starts nor ends with white space is its own trim. */
  lemma TrimmedAlready(s: string)
    requires s == [] || (!IsWhite(s[0]) && !IsWhite(s[|s| - 1]))
    ensures Trim(s) == s
  {
    assert LeadingWhite(s) == 0;
    assert s[0..] == s;
    TrimEndIs(s);
  }

  /** `s.startsWith(p)`. */
  predicate StartsWith(s: string, p: string)
  {
    |p| <= |s| && s[..|p|] == p
  }

  /** Whether `p` occurs in `s` at position `k`. */
  predicate OccursAt(s: string, p: string, k: int)
  {
    0 <= k && k + |p| <= |s| && s[k..k + |p|] == p
  }

  /** `s.indexOf(p, from)` for `from <= |s|`: the first position at or after `from`
      where `p` occurs, or -1. */
  function IndexOf(s: string, p: string, from: nat): (r: int)
    requires from <= |s|
    ensures r == -1 || (from <= r && OccursAt(s, p, r))
    ensures forall k :: from <= k && (r == -1 || k < r) ==> !OccursAt(s, p, k)
    decreases |s| - from
  {
    if OccursAt(s, p, from) then from
    else if from == |s| then -1
    else IndexOf(s, p, from + 1)
  }

  /** `s.replace(p, q)` with a string pattern: the first occurrence only, or `s`
      unchanged when `p` does not occur. */
  function ReplaceFirst(s: string, p: string, q: string): string
  {
    var k := IndexOf(s, p, 0);
    if k == -1 then s else s[..k] + q + s[k + |p|..]
  }

  /** When `s` starts with `p`, the first occurrence is the leading one. */
  lemma ReplaceLeading(s: string, p: string, q: string)
    requires StartsWith(s, p)
    ensures ReplaceFirst(s, p, q) == q + s[|p|..]
  {
    var k := IndexOf(s, p, 0);
    assert k == 0 by {
      assert s[0..|p|] == s[..|p|];
      assert OccursAt(s, p, 0);
    }
    assert s[..0] == "";
    assert s[..k] + q + s[k + |p|..] == q + s[|p|..];
  }

  /** The position of the next line break at or after `from` in the sense of
      `/\r?\n/`: a line feed, whose separator also takes a carriage return right
      before it. The result is `|s|` when no line feed is left. */
  function NextLineFeed(s: string, from: nat): (r: nat)
    requires from <= |s|
    ensures from <= r <= |s| && (r == |s| || s[r] == '\n')
    decreases |s| - from
  {
    if from == |s| || s[from] == '\n' then from else NextLineFeed(s, from + 1)
  }

  /** No line feed comes before the next one. */
  lemma {:induction false} NextLineFeedIs(s: string, from: nat)
    requires from <= |s|
    ensures forall k :: from <= k < NextLineFeed(s, from) ==> s[k] != '\n'
    decreases |s| - from
  {
    if !(from == |s| || s[from] == '\n') {
      NextLineFeedIs(s, from + 1);
    }
  }

  /** `s.split(/\r?\n/)`: the pieces between the separators, left to right. A separator
      is a line feed together with a carriage return immediately before it. */
  function SplitLines(s: string): (r: seq<string>)
    ensures |r| >= 1
    decreases |s|
  {
    var k := NextLineFeed(s, 0);
    if k == |s| then [s]
    else
      var piece := if k > 0 && s[k - 1] == '\r' then s[..k - 1] else s[..k];
      [piece] + SplitLines(s[k + 1..])
  }

  /** No piece of a split holds a line feed. */
  lemma {:induction false} SplitLinesNoLineFeed(s: string)
    ensures forall i :: 0 <= i < |SplitLines(s)| ==> '\n' !in SplitLines(s)[i]
    decreases |s|
  {
    var k := NextLineFeed(s, 0);
    NextLineFeedIs(s, 0);
    if k < |s| {
      var piece := if k > 0 && s[k - 1] == '\r' then s[..k - 1] else s[..k];
      var rest := SplitLines(s[k + 1..]);
      SplitLinesNoLineFeed(s[k + 1..]);
      assert '\n' !in piece by {
        forall j | 0 <= j < |piece| ensures piece[j] != '\n' {
          assert piece[j] == s[j];
        }
      }
      assert SplitLines(s) == [piece] + rest;
      forall i | 0 <= i < |SplitLines(s)| ensures '\n' !in SplitLines(s)[i] {
        if i > 0 {
          assert SplitLines(s)[i] == rest[i - 1];
        }
      }
    } else {
      assert forall j :: 0 <= j < |s| ==> s[j] != '\n';
    }
  }

  /** `lines.join(sep)`. */
  function Join(lines: seq<string>, sep: string): string
  {
    if |lines| == 0 then ""
    else if |lines| == 1 then lines[0]
    else lines[0] + sep + Join(lines[1..], sep)
  }

  /** The first piece of a split ends at the first line feed. */
  lemma SplitLinesCons(s: string, k: nat)
    requires k < |s| && k == NextLineFeed(s, 0) && (k == 0 || s[k - 1] != '\r')
    ensures SplitLines(s) == [s[..k]] + SplitLines(s[k + 1..])
  {
  }

  /** Joining a non-empty tail after one more line puts the separator between them. */
  lemma JoinCons(x: string, L: seq<string>, sep: string)
    requires |L| >= 1
    ensures Join([x] + L, sep) == x + sep + Join(L, sep)
  {
    assert ([x] + L)[1..] == L;
  }

  /** Splitting a text without carriage returns and joining the pieces with line feeds
      gives the text back. */
  lemma {:induction false} JoinSplitLines(s: string)
    requires '\r' !in s
    ensures Join(SplitLines(s), "\n") == s
    decreases |s|
  {
    var k := NextLineFeed(s, 0);
    if k < |s| {
      var rest := s[k + 1..];
      assert '\r' !in rest by {
        forall j | 0 <= j < |rest| ensures rest[j] != '\r' {
          assert rest[j] == s[k + 1 + j];
        }
      }
      assert k == 0 || s[k - 1] != '\r' by {
        if k > 0 {
          assert s[k - 1] in s;
        }
      }
      var L := SplitLines(rest);
      assert SplitLines(s) == [s[..k]] + L by {
        SplitLinesCons(s, k);
      }
      assert Join(L, "\n") == rest by {
        JoinSplitLines(rest);
      }
      JoinCons(s[..k], L, "\n");
      assert s == s[..k] + "\n" + rest;
    }
  }

  predicate IsDigit(c: char)
  {
    '0' <= c <= '9'
  }

  /** The value of a decimal digit. */
  function DigitValue(c: char): (d: nat)
    requires IsDigit(c)
    ensures d < 10
  {
    (c as int) - ('0' as int)
  }

  /** The value of a string of decimal digits, most significant first. */
  function DigitsValue(s: string): nat
    requires forall k :: 0 <= k < |s| ==> IsDigit(s[k])
  {
    if |s| == 0 then 0 else 10 * DigitsValue(s[..|s| - 1]) + DigitValue(s[|s| - 1])
  }

  function Pow10(n: nat): (p: nat)
    ensures p >= 1
  {
    if n == 0 then 1 else 10 * Pow10(n - 1)
  }

  /** Splitting a digit string: the digits of `a` count `|b|` positions higher. */
  lemma {:induction false} DigitsAppend(a: string, b: string)
    requires forall k :: 0 <= k < |a| ==> IsDigit(a[k])
    requires forall k :: 0 <= k < |b| ==> IsDigit(b[k])
    ensures forall k :: 0 <= k < |a + b| ==> IsDigit((a + b)[k])
    ensures DigitsValue(a + b) == DigitsValue(a) * Pow10(|b|) + DigitsValue(b)
    decreases |b|
  {
    if b == [] {
      assert a + b == a;
    } else {
      var b' := b[..|b| - 1];
      var d := b[|b| - 1];
      DigitsAppend(a, b');
      assert (a + b)[..|a + b| - 1] == a + b';
      assert (a + b)[|a + b| - 1] == d;
      var A := DigitsValue(a);
      var P := Pow10(|b'|);
      var B := DigitsValue(b');
      assert DigitsValue(a + b) == 10 * (A * P + B) + DigitValue(d);
      ShiftDigit(A, P, B, DigitValue(d));
      assert DigitsValue(b) == 10 * B + DigitValue(d);
    }
  }

  /** The arithmetic of appending one digit to a split digit string. */
  lemma ShiftDigit(A: int, P: int, B: int, d: int)
    ensures 10 * (A * P + B) + d == A * (10 * P) + (10 * B + d)
  {
    assert 10 * (A * P) == A * (10 * P);
  }

  /** A string of n digits stands for a value below 10^n. */
  lemma {:induction false} DigitsBound(s: string)
    requires forall k :: 0 <= k < |s| ==> IsDigit(s[k])
    ensures DigitsValue(s) < Pow10(|s|)
    decreases |s|
  {
    if |s| > 0 {
      DigitsBound(s[..|s| - 1]);
    }
  }

  /** A JavaScript number produced by `Number(text)`: the value of a decimal digit
      string, or the text itself when it is anything else (a fraction, an exponent,
      a sign, hexadecimal, `NaN`), which this model does not convert. */
  datatype JsNumber = Decimal(value: nat) | Unconverted(text: string)

  /** `Number(text)` on the texts the window clauses carry. */
  function Number(text: string): (r: JsNumber)
    ensures r.Decimal? <==> |text| > 0 && forall k :: 0 <= k < |text| ==> IsDigit(text[k])
    ensures r.Decimal? ==> r.value == DigitsValue(text) && r.value < Pow10(|text|)
    ensures r.Unconverted? ==> r.text == text
  {
    if |text| > 0 && forall k :: 0 <= k < |text| ==> IsDigit(text[k]) then
      DigitsBound(text);
      Decimal(DigitsValue(text))
    else Unconverted(text)
  }

  /** `Number` on the values of `RANGE 10 STEP 2`, and on texts it does not convert. */
  lemma NumberExamples()
    ensures Number("10") == Decimal(10) && Number("2") == Decimal(2) && Number("007") == Decimal(7)
    ensures Number("1.5").Unconverted? && Number(" 10").Unconverted? && Number("").Unconverted?
  {
    assert "10"[..1] == "1";
    assert "007"[..2] == "00" && "00"[..1] == "0";
    assert !IsDigit("1.5"[1]) && !IsDigit(" 10"[0]);
  }
}
