/**
 * Entities shared by both snapshots of the stream-to-relation operator:
 * the report and tick enumerations, window spans, the ceiling arithmetic that
 * places windows on the time line, and the two small mutable classes
 * `WindowInstance` and `QuadContainer`.
 */
module WindowCore {

  datatype Option<T> = None | Some(value: T)

  /** Report strategies, in the order of the source's enumeration. */
  datatype ReportStrategy = NonEmptyContent | OnContentChange | OnWindowClose | Periodic

  /** Tick modes, in the order of the source's enumeration. */
  datatype Tick = TimeDriven | TupleDriven | BatchDriven

  /** `Number.MAX_SAFE_INTEGER`, the initial bound of the `getContent` search. */
  const MaxSafeInteger: int := 9007199254740991

  /** The half-open interval [open, close) of one window occurrence. */
  datatype Span = Span(open: int, close: int)
  {
    /** The span covers a timestamp (close exclusive). */
    predicate Contains(t: int) { open <= t < close }
  }

  /** The value view of one active window: its content, the timestamp of its last
      change and the `has_triggered` flag of the instance that keys it. */
  datatype Win<Q> = Win(elements: set<Q>, lastChanged: int, triggered: bool)

  /** A fresh, empty window as the scoping step creates it: `new QuadContainer(new Set(), 0)`
      keyed by a new instance whose flag is false. */
  function EmptyWin<Q>(): Win<Q> { Win({}, 0, false) }

  /** The value view of one pending-trigger instance. */
  datatype Inst = Inst(span: Span, triggered: bool)

  /** Math.abs over integers. */
  function Abs(x: int): (r: nat)
    ensures r == x || r == -x
  {
    if x < 0 then -x else x
  }

  /** Math.ceil(n / d) for a non-negative numerator and a positive denominator:
      the least q with n <= q * d. */
  function CeilDiv(n: nat, d: int): (q: nat)
    requires d > 0
    ensures n <= q * d
    ensures q == 0 || (q - 1) * d < n
  {
    var q := (n + d - 1) / d;
    assert q * d <= n + d - 1 < q * d + d;
    q
  }

  /** `c_sup` of the source: Math.ceil(|t - t0| / slide) * slide. */
  function CSup(t: int, t0: int, slide: int): (c: int)
    requires slide > 0
    ensures c % slide == 0 && Abs(t - t0) <= c < Abs(t - t0) + slide
  {
    var q := CeilDiv(Abs(t - t0), slide);
    MultipleMod(q, slide);
    q * slide
  }

  /** c_sup is the one multiple of the slide in [|t - t0|, |t - t0| + slide). */
  lemma CSupIs(t: int, t0: int, slide: int, c: int)
    requires slide > 0
    ensures c == CSup(t, t0, slide) <==> c % slide == 0 && Abs(t - t0) <= c < Abs(t - t0) + slide
  {
    var n := Abs(t - t0);
    var q := CeilDiv(n, slide);
    assert CSup(t, t0, slide) == q * slide;
    MultipleMod(q, slide);
    if c % slide == 0 && n <= c < n + slide {
      var m := c / slide;
      assert c == m * slide;
      var dm := m - q;
      assert dm * slide == c - q * slide by { assert dm * slide == m * slide - q * slide; }
      MulSign(dm, slide);
    }
  }

  lemma MulPos(m: int, d: int)
    requires d > 0 && m >= 1
    ensures m * d >= d
  {
    if m > 1 {
      MulPos(m - 1, d);
      assert m * d == (m - 1) * d + d;
    }
  }

  /** A non-zero multiple of a positive number is at least that number away from zero. */
  lemma MulSign(m: int, d: int)
    requires d > 0
    ensures m >= 1 ==> m * d >= d
    ensures m <= -1 ==> m * d <= -d
  {
    if m >= 1 {
      MulPos(m, d);
    } else if m <= -1 {
      MulPos(-m, d);
      assert (-m) * d == -(m * d);
    }
  }

  /** A multiple of a positive number leaves no remainder. */
  lemma MultipleMod(q: int, d: int)
    requires d > 0
    ensures (q * d) % d == 0
  {
    var r := (q * d) % d;
    var k := (q * d) / d;
    assert q * d == k * d + r;
    var m := q - k;
    assert m * d == r by { assert m * d == q * d - k * d; }
    MulSign(m, d);
  }

  /** The configuration a window operator is built with. */
  datatype Config = Config(width: int, slide: int, t0: int, report: ReportStrategy, tick: Tick)
  {
    predicate Valid() { width > 0 && slide > 0 }

    /** The open bound of the window that `get_window_instance(t)` builds and where
        `scope(t)` starts: c_sup - width. */
    function FirstOpen(t: int): int
      requires Valid()
    {
      CSup(t, t0, slide) - width
    }

    /** The span of `get_window_instance(t)`. */
    function InstanceSpan(t: int): (sp: Span)
      requires Valid()
      ensures sp.close - sp.open == width && sp.close % slide == 0
      ensures Abs(t - t0) <= sp.close < Abs(t - t0) + slide
    {
      Span(FirstOpen(t), FirstOpen(t) + width)
    }

    /** The instance for t is the window of the operator's width whose close is the
        one multiple of the slide in [|t - t0|, |t - t0| + slide). */
    lemma InstanceSpanIs(t: int, sp: Span)
      requires Valid()
      ensures sp == InstanceSpan(t) <==>
              sp.close - sp.open == width && sp.close % slide == 0 &&
              Abs(t - t0) <= sp.close < Abs(t - t0) + slide
    {
      CSupIs(t, t0, slide, sp.close);
    }
  }

  /** The trigger condition of `emit_on_trigger`: OnWindowClose asks for a closed window,
      OnContentChange always holds, NonEmptyContent and Periodic never do. */
  predicate ShouldEmit(report: ReportStrategy, close: int, t: int)
  {
    match report
    case OnWindowClose => close <= t
    case OnContentChange => true
    case _ => false
  }

  /** `compute_report`: the unused helper, whose OnWindowClose test is strict. */
  function ComputeReport(report: ReportStrategy, close: int, timestamp: int): (r: bool)
    ensures r ==> ShouldEmit(report, close, timestamp)
    ensures ShouldEmit(report, close, timestamp) && !r <==> report == OnWindowClose && close == timestamp
  {
    if report == OnWindowClose then close < timestamp
    else if report == OnContentChange then true
    else false
  }

  /** JS `Set.add` on an insertion-ordered sequence: the earlier members keep their
      places, the members become the old ones and `x`, at most one element is added,
      and a duplicate-free sequence stays duplicate-free. */
  function SetAdd<T(==)>(s: seq<T>, x: T): (r: seq<T>)
    ensures |s| <= |r| <= |s| + 1 && r[..|s|] == s
    ensures x in r && forall i :: 0 <= i < |r| ==> r[i] in s || r[i] == x
    ensures NoDup(s) ==> NoDup(r)
  {
    if x in s then s else s + [x]
  }

  /** JS `Set.delete` on an insertion-ordered sequence: the first occurrence goes,
      the order of the rest is kept. */
  function SetDelete<T(==)>(s: seq<T>, x: T): (r: seq<T>)
    ensures x !in s ==> r == s
    decreases |s|
  {
    if s == [] then []
    else if s[0] == x then s[1..]
    else [s[0]] + SetDelete(s[1..], x)
  }

  /** Deleting an element that occurs after a prefix free of it removes exactly it. */
  lemma {:induction false} SetDeleteSplit<T>(a: seq<T>, x: T, b: seq<T>)
    requires x !in a
    ensures SetDelete(a + [x] + b, x) == a + b
    decreases |a|
  {
    if a == [] {
      assert a + [x] + b == [x] + b;
    } else {
      var s := a + [x] + b;
      assert s[0] == a[0] && a[0] != x;
      assert s[1..] == a[1..] + [x] + b;
      SetDeleteSplit(a[1..], x, b);
      assert [a[0]] + (a[1..] + b) == a + b;
    }
  }

  /** Concatenation regroups; stated over an element type without extensionality,
      so that contexts with sequences of sets need not compare elements. */
  lemma AppendAssoc<T>(a: seq<T>, b: seq<T>, c: seq<T>)
    ensures a + b + c == a + (b + c)
  {
  }

  predicate NoDup<T(==)>(s: seq<T>)
  {
    forall i, j :: 0 <= i < j < |s| ==> s[i] != s[j]
  }

  /** Deleting a position keeps every remaining element within a bound set. */
  lemma DeleteKeepsIn<T>(ps: seq<T>, k: int, S: set<T>, r: seq<T>)
    requires 0 <= k < |ps| && forall j :: 0 <= j < |ps| ==> ps[j] in S
    requires r == ps[..k] + ps[k + 1..]
    ensures forall j :: 0 <= j < |r| ==> r[j] in S
  {
    forall j | 0 <= j < |r| ensures r[j] in S {
      if j >= k {
        assert r[j] == ps[j + 1];
      }
    }
  }

  /** At the end of `P`: its prefix is all of it and its suffix is empty. */
  lemma AtEnd<T>(K: seq<T>, P: seq<T>, i: int)
    requires i == |P|
    ensures P[..i] == P && K + P[i..] == K
  {
    assert P[i..] == [];
  }

  /** A prefix `K` followed by the suffix of `P` from `i`: its element at `|K|` is
      `P[i]`, and dropping or keeping that element leaves `K` followed by the suffix
      from `i + 1`. */
  lemma SplitAt<T>(K: seq<T>, P: seq<T>, i: int)
    requires 0 <= i < |P|
    ensures (K + P[i..])[|K|] == P[i]
    ensures (K + P[i..])[..|K|] + (K + P[i..])[|K| + 1..] == K + P[i + 1..]
    ensures K + P[i..] == K + [P[i]] + P[i + 1..]
  {
    var S := K + P[i..];
    assert S[..|K|] == K;
    assert S[|K| + 1..] == P[i + 1..];
    assert P[i..] == [P[i]] + P[i + 1..];
  }

  /** Dropping a position of a duplicate-free sequence drops its element and keeps
      the rest duplicate-free. */
  lemma NoDupRemove<T>(ps: seq<T>, k: int)
    requires NoDup(ps) && 0 <= k < |ps|
    ensures ps[k] !in ps[..k] && ps[k] !in ps[..k] + ps[k + 1..]
    ensures NoDup(ps[..k] + ps[k + 1..])
  {
    var r := ps[..k] + ps[k + 1..];
    forall j | 0 <= j < k ensures ps[..k][j] != ps[k] {
      assert ps[..k][j] == ps[j];
    }
    forall j | 0 <= j < |r| ensures r[j] != ps[k] {
      if j < k { assert r[j] == ps[j]; } else { assert r[j] == ps[j + 1]; }
    }
    forall i, j | 0 <= i < j < |r| ensures r[i] != r[j] {
      var i' := if i < k then i else i + 1;
      var j' := if j < k then j else j + 1;
      assert r[i] == ps[i'] && r[j] == ps[j'];
    }
  }

  /** One window occurrence.  Its bounds never change after construction; its
      `has_triggered` flag is mutable. */
  class WindowInstance {
    const open: int
    const close: int
    var hasTriggered: bool

    constructor (open: int, close: int)
      ensures this.open == open && this.close == close && !hasTriggered
    {
      this.open := open;
      this.close := close;
      hasTriggered := false;
    }

    function SpanOf(): Span { Span(open, close) }

    /** `is_same`: structural equality of the bounds, ignoring the flag and the identity. */
    predicate IsSame(other: WindowInstance): (r: bool)
      ensures r <==> SpanOf() == other.SpanOf()
    {
      open == other.open && close == other.close
    }

    /** `set_triggered` (present in the later snapshot). */
    method SetTriggered()
      modifies this
      ensures hasTriggered
    {
      hasTriggered := true;
    }
  }

  /** The accumulating content of one window. */
  class QuadContainer<Q(==)> {
    var elements: set<Q>
    var lastTimeStampChanged: int

    constructor (elements: set<Q>, ts: int)
      ensures this.elements == elements && lastTimeStampChanged == ts
    {
      this.elements := elements;
      lastTimeStampChanged := ts;
    }

    /** `len`: the number of distinct elements. */
    function Len(): nat
      reads this
    {
      |elements|
    }

    /** `last_time_changed`. */
    function LastTimeChanged(): int
      reads this
    {
      lastTimeStampChanged
    }

    /** `add`: set insertion, and the change timestamp is overwritten (not maximised). */
    method Add(quad: Q, ts: int)
      modifies this
      ensures elements == old(elements) + {quad}
      ensures lastTimeStampChanged == ts
      ensures Len() == old(Len()) + (if quad in old(elements) then 0 else 1)
    {
      if quad in elements {
        assert elements + {quad} == elements;
      } else {
        assert |elements + {quad}| == |elements| + |{quad}|;
      }
      elements := elements + {quad};
      lastTimeStampChanged := ts;
    }
  }
}
