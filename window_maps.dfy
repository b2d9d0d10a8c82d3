/**
 * The span-keyed value view of an operator's active windows, and the pure
 * steps both snapshots perform on it: creating absent windows while scoping a
 * timestamp, adding an event to every window that covers its timestamp, and
 * selecting the windows to evict.
 */
module WindowMaps {
  import opened WindowCore

  /** `computeWindowIfAbsent` seen through spans. */
  function EnsureWindow<Q>(W: map<Span, Win<Q>>, sp: Span): map<Span, Win<Q>>
  {
    if sp in W then W else W[sp := EmptyWin()]
  }

  /** An absent span gets an empty window, a present one is neither removed nor replaced. */
  lemma EnsureWindowSpec<Q>(W: map<Span, Win<Q>>, sp: Span)
    ensures EnsureWindow(W, sp).Keys == W.Keys + {sp}
    ensures forall x :: x in W ==> EnsureWindow(W, sp)[x] == W[x]
    ensures sp !in W ==> EnsureWindow(W, sp)[sp] == EmptyWin()
  {
  }

  /** The scoping loop `while (o_i <= t) { computeWindowIfAbsent(...); o_i += slide }`. */
  function ScopeFrom<Q>(W: map<Span, Win<Q>>, o: int, t: int, width: int, slide: int): map<Span, Win<Q>>
    requires slide > 0
    decreases if o <= t then t - o + 1 else 0
  {
    if o <= t then ScopeFrom(EnsureWindow(W, Span(o, o + width)), o + slide, t, width, slide)
    else W
  }

  /** One turn of the scoping loop. */
  lemma ScopeFromStep<Q>(W: map<Span, Win<Q>>, W': map<Span, Win<Q>>, o: int, t: int, width: int, slide: int)
    requires slide > 0 && o <= t && W' == EnsureWindow(W, Span(o, o + width))
    ensures ScopeFrom(W, o, t, width, slide) == ScopeFrom(W', o + slide, t, width, slide)
  {
  }

  /** The k-th open bound the scoping loop starting at `o` visits. */
  function OpenAt(o: int, k: nat, slide: int): int
  {
    o + k * slide
  }

  /** `sp` is one of the spans the scoping loop starting at `o` visits. */
  ghost predicate Aligned(sp: Span, o: int, t: int, width: int, slide: int)
  {
    sp.close == sp.open + width && o <= sp.open <= t && exists k: nat :: sp.open == OpenAt(o, k, slide)
  }

  lemma AlignedStep(sp: Span, o: int, t: int, width: int, slide: int)
    requires slide > 0 && o <= t
    ensures Aligned(sp, o, t, width, slide) <==>
            sp == Span(o, o + width) || Aligned(sp, o + slide, t, width, slide)
  {
    if Aligned(sp, o, t, width, slide) && sp != Span(o, o + width) {
      var k: nat :| sp.open == OpenAt(o, k, slide);
      assert k != 0;
      assert OpenAt(o, k, slide) == OpenAt(o + slide, k - 1, slide);
    }
    if Aligned(sp, o + slide, t, width, slide) {
      var k: nat :| sp.open == OpenAt(o + slide, k, slide);
      assert OpenAt(o + slide, k, slide) == OpenAt(o, k + 1, slide);
    }
    if sp == Span(o, o + width) {
      assert sp.open == OpenAt(o, 0, slide);
    }
  }

  /** Starting at -6 with width 10 and slide 2, the loop up to 4 visits six spans. */
  lemma AlignedExample(sp: Span)
    ensures Aligned(sp, -6, 4, 10, 2) <==>
            sp == Span(-6, 4) || sp == Span(-4, 6) || sp == Span(-2, 8) ||
            sp == Span(0, 10) || sp == Span(2, 12) || sp == Span(4, 14)
  {
    if Aligned(sp, -6, 4, 10, 2) {
      AlignedSix(sp);
    } else {
      if sp == Span(-6, 4) { SixAligned(sp, 0); }
      if sp == Span(-4, 6) { SixAligned(sp, 1); }
      if sp == Span(-2, 8) { SixAligned(sp, 2); }
      if sp == Span(0, 10) { SixAligned(sp, 3); }
      if sp == Span(2, 12) { SixAligned(sp, 4); }
      if sp == Span(4, 14) { SixAligned(sp, 5); }
    }
  }

  /** A span the loop from -6 visits opens at one of the six even bounds up to 4. */
  lemma AlignedSix(sp: Span)
    requires Aligned(sp, -6, 4, 10, 2)
    ensures sp.close == sp.open + 10 && sp.open in {-6, -4, -2, 0, 2, 4}
  {
    var k: nat :| sp.open == OpenAt(-6, k, 2);
    assert sp.open == -6 + 2 * k;
  }

  /** The k-th span of the loop from -6, for k up to 5, is visited. */
  lemma SixAligned(sp: Span, k: nat)
    requires k <= 5 && sp == Span(-6 + 2 * k, 4 + 2 * k)
    ensures Aligned(sp, -6, 4, 10, 2)
  {
    assert sp.open == OpenAt(-6, k, 2);
  }

  /** The scoping loop adds exactly the aligned spans that were absent, and keeps
      every window it finds. */
  lemma {:induction false} ScopeFromSpec<Q>(W: map<Span, Win<Q>>, o: int, t: int, width: int, slide: int)
    requires slide > 0
    ensures forall sp :: sp in ScopeFrom(W, o, t, width, slide) <==> sp in W || Aligned(sp, o, t, width, slide)
    ensures forall sp :: sp in W ==> ScopeFrom(W, o, t, width, slide)[sp] == W[sp]
    ensures forall sp :: sp in ScopeFrom(W, o, t, width, slide) && sp !in W ==>
              ScopeFrom(W, o, t, width, slide)[sp] == EmptyWin()
    decreases if o <= t then t - o + 1 else 0
  {
    if o <= t {
      var W' := EnsureWindow(W, Span(o, o + width));
      EnsureWindowSpec(W, Span(o, o + width));
      ScopeFromSpec(W', o + slide, t, width, slide);
      forall sp { AlignedStep(sp, o, t, width, slide); }
    }
  }

  /** The insertion loop of `process_event`: the event joins every window whose span
      covers `t` (close exclusive), whose change timestamp becomes `t`. */
  function Insert<Q>(W: map<Span, Win<Q>>, e: Q, t: int): map<Span, Win<Q>>
  {
    map sp | sp in W :: if sp.Contains(t) then Win(W[sp].elements + {e}, t, W[sp].triggered) else W[sp]
  }

  /** The windows with `close <= bound`: the watermark eviction set (bound
      `watermark - max_delay`) and the `toEvict` set of `process_event` (bound t). */
  function Evictable<Q>(W: map<Span, Win<Q>>, bound: int): set<Span>
  {
    set sp | sp in W && sp.close <= bound
  }

  /** Every window has the operator's width. */
  predicate WidthInv<Q>(W: map<Span, Win<Q>>, width: int)
  {
    forall sp :: sp in W ==> sp.close == sp.open + width
  }

  /** A `getContent` candidate: the span covers t with its close inclusive, and its close
      is below the search's initial bound `Number.MAX_SAFE_INTEGER`. */
  predicate Covers(sp: Span, t: int)
  {
    sp.open <= t <= sp.close && sp.close < MaxSafeInteger
  }

  /** `getContent` on the span view: the candidate with the smallest close. */
  predicate IsContentSpan<Q>(W: map<Span, Win<Q>>, t: int, sp: Span)
  {
    sp in W && Covers(sp, t) &&
    forall x :: x in W && Covers(x, t) ==> sp.close <= x.close
  }

  lemma ContentSpanUnique<Q>(W: map<Span, Win<Q>>, width: int, t: int, a: Span, b: Span)
    requires WidthInv(W, width)
    requires IsContentSpan(W, t, a) && IsContentSpan(W, t, b)
    ensures a == b
  {
  }

  /** Every window of `W` is still in `W'` and holds at least what it held. */
  predicate Grown<Q>(W: map<Span, Win<Q>>, W': map<Span, Win<Q>>)
  {
    forall sp :: sp in W ==> sp in W' && W[sp].elements <= W'[sp].elements
  }

  /** Every window of `from` covering `ts` is in `W` and holds there every event of
      `els`. */
  predicate Landed<Q>(from: map<Span, Win<Q>>, W: map<Span, Win<Q>>, ts: int, els: seq<Q>)
  {
    forall sp, j :: sp in from && sp.Contains(ts) && 0 <= j < |els| ==> sp in W && els[j] in W[sp].elements
  }

  /** Events in every covering window of `A` stay there as `A` grows into `B`. */
  lemma LandedGrown<Q>(A: map<Span, Win<Q>>, B: map<Span, Win<Q>>, ts: int, els: seq<Q>)
    requires Landed(A, A, ts, els) && Grown(A, B)
    ensures Landed(A, B, ts, els)
  {
  }

  /** Windows growing twice have grown. */
  lemma GrownTrans<Q>(A: map<Span, Win<Q>>, B: map<Span, Win<Q>>, C: map<Span, Win<Q>>)
    requires Grown(A, B) && Grown(B, C)
    ensures Grown(A, C)
  {
  }

  /** Inserting into windows that extend `W'`: nothing of `W'` is lost or shrinks, a
      window not covering the timestamp keeps its value, and every covering window holds
      the event. */
  lemma InsertGrows<Q>(W': map<Span, Win<Q>>, S: map<Span, Win<Q>>, x: Q, ts: int)
    requires forall sp :: sp in W' ==> sp in S && S[sp] == W'[sp]
    ensures var W := Insert(S, x, ts);
            W.Keys == S.Keys && Grown(W', W) &&
            (forall sp :: sp in W' && !sp.Contains(ts) ==> W[sp] == W'[sp]) &&
            (forall sp :: sp in W && sp.Contains(ts) ==> x in W[sp].elements)
  {
  }

  /** One more event of a bucket inserted: if the earlier ones were in every covering
      window and scoping added no window, all of them are. */
  lemma LandsStep<Q>(W': map<Span, Win<Q>>, S: map<Span, Win<Q>>, ts: int, init: seq<Q>, els: seq<Q>)
    requires els != [] && init == els[..|els| - 1]
    requires forall sp :: sp in W' ==> sp in S && S[sp] == W'[sp]
    requires init != [] ==> S.Keys == W'.Keys
    requires forall sp, i :: sp in W' && sp.Contains(ts) && 0 <= i < |init| ==> init[i] in W'[sp].elements
    ensures var W := Insert(S, els[|els| - 1], ts);
            forall sp, i :: sp in W && sp.Contains(ts) && 0 <= i < |els| ==> els[i] in W[sp].elements
  {
    var W := Insert(S, els[|els| - 1], ts);
    forall sp, i | sp in W && sp.Contains(ts) && 0 <= i < |els|
      ensures els[i] in W[sp].elements
    {
      if i < |init| {
        assert sp in W';
        assert init[i] == els[i];
      }
    }
  }

}
