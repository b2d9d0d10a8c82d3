/**
 * The window operator of the later snapshot (dist/operators/s2r.js) as a class
 * over the heap: its active windows are a map from `WindowInstance` objects to
 * `QuadContainer` objects, its pending triggers an insertion-ordered set of
 * `WindowInstance` objects, its late buffer a map from timestamps to
 * insertion-ordered sets of events.  Ghost views hold the span-keyed value of
 * the windows and the value of the pending set; `Valid()` couples them to the
 * heap, and every state-changing method is proved to perform the matching
 * transition of DistModel on `State()`.
 */
module DistEngine {
  import opened WindowCore
  import opened WindowMaps
  import opened WindowRefs
  import opened Sorting
  import opened WindowLoops
  import M = DistModel

  /** `computeWindowIfAbsent(map, window, () => new QuadContainer(new Set(), 0))`: a
      linear search for a key with the same bounds; only when none exists is the
      instance itself put, with a fresh empty container. */
  method ComputeWindowIfAbsent<Q(==)>(m: map<WindowInstance, QuadContainer<Q>>, window: WindowInstance)
    returns (r: map<WindowInstance, QuadContainer<Q>>, ghost c: QuadContainer<Q>)
    ensures HasKeySpan(m, window.SpanOf()) ==> r == m
    ensures !HasKeySpan(m, window.SpanOf()) ==>
              r == m[window := c] && fresh(c) && c.elements == {} && c.lastTimeStampChanged == 0
  {
    var found := false;
    var keys := m.Keys;
    ghost var sp := window.SpanOf();
    ghost var same := window;
    while !found && keys != {}
      invariant keys <= m.Keys
      invariant found ==> same in m && same.SpanOf() == sp
      invariant !found ==> forall w :: w in m && w !in keys ==> !w.IsSame(window)
      decreases |keys|, !found
    {
      if forall z :: z !in keys { assert false; }
      var w :| w in keys;
      if w.IsSame(window) {
        found := true;
        same := w;
      } else {
        keys := keys - {w};
      }
    }
    if !found {
      var created := new QuadContainer({}, 0);
      r := m[window := created];
      c := created;
    } else {
      r := m;
      c := m[same];
    }
  }

  /** `get_quads_from_active_windows(map, target)`: the container of a key whose
      open, close and `has_triggered` all equal the target's, or `undefined`. */
  method GetQuadsFromActiveWindows<Q(==)>(m: map<WindowInstance, QuadContainer<Q>>, target: WindowInstance)
    returns (r: Option<QuadContainer<Q>>)
    ensures r.Some? ==> exists k :: k in m && m[k] == r.value && k.SpanOf() == target.SpanOf() &&
                                    k.hasTriggered == target.hasTriggered
    ensures r.None? ==> forall k :: k in m ==>
                          (k.SpanOf() != target.SpanOf() || k.hasTriggered != target.hasTriggered)
  {
    var keys := m.Keys;
    while keys != {}
      invariant keys <= m.Keys
      invariant forall k :: k in m && k !in keys ==> k.SpanOf() != target.SpanOf() ||
                                                     k.hasTriggered != target.hasTriggered
      decreases |keys|
    {
      if forall z :: z !in keys { assert false; }
      var key :| key in keys;
      if key.open == target.open && key.close == target.close && key.hasTriggered == target.hasTriggered {
        return Some(m[key]);
      }
      keys := keys - {key};
    }
    return None;
  }

  /** Read through the view, the structural lookup is `DistModel.Lookup`. */
  lemma LookupCoupled<Q>(m: map<WindowInstance, QuadContainer<Q>>, W: map<Span, Win<Q>>,
                         target: WindowInstance, r: Option<QuadContainer<Q>>)
    requires SpansUnique(m) && Coupled(m, W)
    requires r.Some? ==> exists k :: k in m && m[k] == r.value && k.SpanOf() == target.SpanOf() &&
                                     k.hasTriggered == target.hasTriggered
    requires r.None? ==> forall k :: k in m ==>
                           (k.SpanOf() != target.SpanOf() || k.hasTriggered != target.hasTriggered)
    ensures var p := M.Lookup(W, Inst(target.SpanOf(), target.hasTriggered));
            (r.Some? <==> p.Some?) && (r.Some? ==> r.value.elements == p.value)
  {
    if r.None? && target.SpanOf() in W {
      var k := KeyOf(m, target.SpanOf());
    }
  }

  /** `hasWindowInstance(set, window)`: some element has the window's open and close. */
  method HasWindowInstance(ps: seq<WindowInstance>, window: WindowInstance) returns (r: bool)
    ensures r <==> exists i :: 0 <= i < |ps| && ps[i].SpanOf() == window.SpanOf()
  {
    for i := 0 to |ps|
      invariant forall j :: 0 <= j < i ==> ps[j].SpanOf() != window.SpanOf()
    {
      if ps[i].open == window.open && ps[i].close == window.close {
        return true;
      }
    }
    return false;
  }

  /** Appending an instance and its value keeps the sequences coupled, and an instance
      that is not a key keeps them separate from the map. */
  lemma PendingSnoc<Q>(ps: seq<WindowInstance>, P: seq<Inst>, m: map<WindowInstance, QuadContainer<Q>>,
                       w: WindowInstance, x: Inst)
    requires PendingCoupled(ps, P) && NoneKeyed(ps, m)
    requires x == Inst(w.SpanOf(), w.hasTriggered) && w !in m
    ensures PendingCoupled(ps + [w], P + [x]) && NoneKeyed(ps + [w], m)
  {
    assert (ps + [w])[..|ps|] == ps;
    assert (P + [x])[..|P|] == P;
  }

  /** Dropping a position from both sequences keeps them coupled. */
  lemma PendingRemoveCoupled(ps: seq<WindowInstance>, P: seq<Inst>, k: int)
    requires PendingCoupled(ps, P) && 0 <= k < |ps|
    ensures PendingCoupled(ps[..k] + ps[k + 1..], P[..k] + P[k + 1..])
  {
    var r := ps[..k] + ps[k + 1..];
    var R := P[..k] + P[k + 1..];
    PendingCoupledIff(ps, P);
    PendingCoupledIff(r, R);
    forall j | 0 <= j < |r| ensures R[j] == Inst(r[j].SpanOf(), r[j].hasTriggered) {
      if j < k {
        assert R[j] == P[j] && r[j] == ps[j];
      } else {
        assert R[j] == P[j + 1] && r[j] == ps[j + 1];
      }
    }
  }

  /** With unique bounds, an instance occurs at one position only. */
  lemma PendingRefUnique(ps: seq<WindowInstance>, P: seq<Inst>, k: int)
    requires PendingCoupled(ps, P) && M.PendingSpansUnique(P) && 0 <= k < |ps|
    ensures ps[k] !in ps[..k] && ps[k] !in ps[k + 1..]
  {
    var before := ps[..k];
    var after := ps[k + 1..];
    PendingCoupledIff(ps, P);
    M.UniqueIff(P);
    forall j | 0 <= j < k ensures before[j] != ps[k] {
      assert P[j].span != P[k].span;
    }
    forall j | 0 <= j < |after| ensures after[j] != ps[k] {
      assert after[j] == ps[k + 1 + j];
      assert P[k].span != P[k + 1 + j].span;
    }
  }

  /** In a pending set with unique bounds, `Set.delete` of the instance at position `k`
      removes exactly that position, from the objects and from their value alike. */
  lemma PendingDelete(ps: seq<WindowInstance>, P: seq<Inst>, k: int)
    requires PendingCoupled(ps, P) && M.PendingSpansUnique(P) && 0 <= k < |ps|
    ensures SetDelete(ps, ps[k]) == ps[..k] + ps[k + 1..]
    ensures ps[k] !in ps[..k] + ps[k + 1..]
    ensures PendingCoupled(ps[..k] + ps[k + 1..], P[..k] + P[k + 1..])
    ensures M.PendingSpansUnique(P[..k] + P[k + 1..])
  {
    PendingRefUnique(ps, P, k);
    assert ps == ps[..k] + [ps[k]] + ps[k + 1..];
    SetDeleteSplit(ps[..k], ps[k], ps[k + 1..]);
    PendingRemoveCoupled(ps, P, k);
    M.UniqueRemove(P, k);
  }

  class CSPARQLWindow<Q(==)> {
    const name: string
    const width: int
    const slide: int
    const report: ReportStrategy
    const tick: Tick
    const t0: int
    var time: int
    var currentWatermark: int
    var maxDelay: int
    var activeWindows: map<WindowInstance, QuadContainer<Q>>
    var pendingTriggers: seq<WindowInstance>
    var lateBuffer: map<int, seq<Q>>

    /** The span-keyed value of `activeWindows`. */
    ghost var windows: map<Span, Win<Q>>
    /** The bounds and flags of `pendingTriggers`, in order. */
    ghost var pending: seq<Inst>
    /** The element sets delivered to `RStream` listeners, oldest first. */
    ghost var rstream: seq<set<Q>>

    function Cfg(): Config
    {
      Config(width, slide, t0, report, tick)
    }

    /** The active windows: unique bounds, one container each, and `windows` is
        their span-keyed value. */
    ghost predicate WindowsValid()
      reads this`activeWindows, this`windows, activeWindows.Keys, activeWindows.Values
    {
      SpansUnique(activeWindows) && ContainersDistinct(activeWindows) && Coupled(activeWindows, windows)
    }

    /** The pending set: `pending` is its value, whose bounds are pairwise different. */
    ghost predicate PendingValid()
      reads this`pendingTriggers, this`pending, pendingTriggers
    {
      PendingCoupled(pendingTriggers, pending) && M.PendingSpansUnique(pending)
    }

    /** Pending instances are never keys of the active windows. */
    ghost predicate Separate()
      reads this`pendingTriggers, this`activeWindows
    {
      NoneKeyed(pendingTriggers, activeWindows)
    }

    ghost predicate Valid()
      reads this`activeWindows, this`windows, this`pendingTriggers, this`pending
      reads activeWindows.Keys, activeWindows.Values, pendingTriggers
    {
      width > 0 && slide > 0 && WindowsValid() && PendingValid() && Separate()
    }

    /** The operator's state as a DistModel value. */
    ghost function State(): M.State<Q>
      reads this
    {
      M.State(time, currentWatermark, maxDelay, windows, pending, lateBuffer, rstream)
    }

    constructor (name: string, width: int, slide: int, report: ReportStrategy, tick: Tick,
                 startTime: int, maxDelay: int)
      requires width > 0 && slide > 0
      ensures Valid()
      ensures this.name == name && Cfg() == Config(width, slide, startTime, report, tick)
      ensures State() == M.Initial(startTime, maxDelay)
    {
      this.name := name;
      this.width := width;
      this.slide := slide;
      this.report := report;
      this.tick := tick;
      time := startTime;
      currentWatermark := startTime;
      t0 := startTime;
      activeWindows := map[];
      this.maxDelay := maxDelay;
      pendingTriggers := [];
      lateBuffer := map[];
      windows := map[];
      pending := [];
      rstream := [];
    }

    /** `getContent(timestamp)`: the container of the covering window (close inclusive)
        with the smallest close, or `undefined` when no window covers the timestamp. */
    method GetContent(timestamp: int) returns (r: Option<QuadContainer<Q>>)
      requires Valid()
      ensures r.None? <==> forall sp :: sp in windows ==> !Covers(sp, timestamp)
      ensures r.Some? ==> exists w :: w in activeWindows && activeWindows[w] == r.value &&
                                      IsContentSpan(windows, timestamp, w.SpanOf())
    {
      var best := SmallestCover(activeWindows, timestamp);
      ContentOfCover(activeWindows, windows, timestamp, best);
      if best.Some? {
        r := Some(activeWindows[best.value]);
      } else {
        r := None;
      }
    }

    /** One step of the scoping loop: `computeWindowIfAbsent` on a fresh instance
        with the given open bound. */
    method EnsureWindowAt(o: int)
      requires WindowsValid() && Separate()
      modifies this`activeWindows, this`windows
      ensures WindowsValid() && Separate()
      ensures windows == EnsureWindow(old(windows), Span(o, o + width))
      ensures forall c :: c in activeWindows.Values ==> c in old(activeWindows).Values || fresh(c)
    {
      var wi := new WindowInstance(o, o + width);
      assert wi.SpanOf() == Span(o, o + width);
      ghost var present := HasKeySpan(activeWindows, wi.SpanOf());
      ghost var c;
      activeWindows, c := ComputeWindowIfAbsent(activeWindows, wi);
      NoneKeyedIff(pendingTriggers, old(activeWindows));
      NoneKeyedIff(pendingTriggers, activeWindows);
      if !present {
        assert wi.SpanOf() !in windows;
        CoupledPut(old(activeWindows), windows, wi, c);
        windows := windows[wi.SpanOf() := EmptyWin()];
      } else {
        var k :| k in old(activeWindows) && k.SpanOf() == wi.SpanOf();
        assert wi.SpanOf() in windows;
      }
    }

    /** `scope(t_e)`: a while loop from the first open bound of the instance grid at
        `t_e`, creating every absent window while the open bound does not exceed `t_e`. */
    method Scope(t: int)
      requires Cfg().Valid() && WindowsValid() && Separate()
      modifies this`activeWindows, this`windows
      ensures WindowsValid() && Separate()
      ensures windows == ScopeFrom(old(windows), Cfg().FirstOpen(t), t, width, slide)
      ensures forall c :: c in activeWindows.Values ==> c in old(activeWindows).Values || fresh(c)
    {
      var o := CSup(t, t0, slide) - width;
      assert o == Cfg().FirstOpen(t);
      ghost var target := ScopeFrom(windows, o, t, width, slide);
      while o <= t
        invariant WindowsValid() && Separate()
        invariant ScopeFrom(windows, o, t, width, slide) == target
        invariant forall c :: c in activeWindows.Values ==> c in old(activeWindows).Values || fresh(c)
        decreases t - o
      {
        ghost var W := windows;
        EnsureWindowAt(o);
        ScopeFromStep(W, windows, o, t, width, slide);
        o := o + slide;
      }
    }
  
    /** The insertion loop of `process_event(e, t_e)` seen through the view: the
        event joins every window covering `t_e`, and the windows with `close <= t_e`
        are collected for eviction. */
    method InsertEvent(e: Q, t: int) returns (toEvict: set<WindowInstance>)
      requires WindowsValid()
      modifies activeWindows.Values, this`windows
      ensures WindowsValid()
      ensures windows == Insert(old(windows), e, t)
      ensures forall k :: k in toEvict <==> k in activeWindows && k.close <= t
      ensures Spans(toEvict) == Evictable(old(windows), t)
    {
      toEvict := InsertLoop(activeWindows, e, t);
      windows := Insert(windows, e, t);
      forall k | k in activeWindows
        ensures windows[k.SpanOf()] ==
                Win(activeWindows[k].elements, activeWindows[k].lastTimeStampChanged, k.hasTriggered)
      {
        assert k.SpanOf() in old(windows);
      }
      CoupledKeys(activeWindows, windows);
      SelectedSpans(activeWindows, windows, toEvict, t);
      assert Evictable(windows, t) == Evictable(old(windows), t);
    }
  
    /** `evict_windows(toEvict)`: every instance of the set is deleted from the map by
        identity; deleting an instance that is no longer a key does nothing.  Both callers
        pass a set that, among the current keys, holds those with `close <= bound`. */
    method EvictWindows(toEvict: set<WindowInstance>, ghost bound: int)
      requires WindowsValid() && Separate()
      requires forall k :: k in activeWindows ==> (k in toEvict <==> k.close <= bound)
      modifies this`activeWindows, this`windows
      ensures activeWindows == old(activeWindows) - toEvict
      ensures windows == old(windows) - Evictable(old(windows), bound)
      ensures WindowsValid() && Separate()
    {
      var m := RemoveAll(activeWindows, toEvict);
      EvictView(activeWindows, windows, toEvict, bound);
      NoneKeyedIff(pendingTriggers, activeWindows);
      NoneKeyedIff(pendingTriggers, m);
      activeWindows := m;
      windows := windows - Evictable(windows, bound);
    }

    /** The test `emit_on_trigger` applies to one pending instance: its structurally
        matching content exists and is non-empty, and the report policy asks for
        emission (`close <= t_e` under OnWindowClose, always under OnContentChange). */
    method Released(w: WindowInstance, t: int) returns (released: bool, content: Option<QuadContainer<Q>>)
      requires WindowsValid()
      ensures released <==> M.Released(Cfg(), windows, Inst(w.SpanOf(), w.hasTriggered), t)
      ensures released ==> content.Some? &&
                           content.value.elements == M.Lookup(windows, Inst(w.SpanOf(), w.hasTriggered)).value
    {
      content := GetQuadsFromActiveWindows(activeWindows, w);
      LookupCoupled(activeWindows, windows, w, content);
      released := false;
      if content.Some? && content.value.Len() > 0 {
        if report == OnWindowClose {
          if w.close <= t {
            released := true;
          }
        } else if report == OnContentChange {
          released := true;
        }
      }
    }

    /** `pending_triggers.delete(window)` for the instance at position `k`. */
    method DeletePendingAt(k: int)
      requires PendingValid() && Separate() && 0 <= k < |pendingTriggers|
      modifies this`pendingTriggers, this`pending
      ensures PendingValid() && Separate()
      ensures pendingTriggers == old(pendingTriggers[..k] + pendingTriggers[k + 1..])
      ensures pending == old(pending[..k] + pending[k + 1..])
      ensures old(pendingTriggers[k]) !in pendingTriggers
    {
      PendingDelete(pendingTriggers, pending, k);
      pendingTriggers := SetDelete(pendingTriggers, pendingTriggers[k]);
      pending := pending[..k] + pending[k + 1..];
      NoneKeyedIff(old(pendingTriggers), activeWindows);
      NoneKeyedIff(pendingTriggers, activeWindows);
      forall j | 0 <= j < |pendingTriggers| ensures pendingTriggers[j] !in activeWindows {
        if j >= k {
          assert pendingTriggers[j] == old(pendingTriggers[j + 1]);
        }
      }
    }

    /** `window.set_triggered()` on an instance that is neither a key nor pending: the
        views stay coupled. */
    method MarkTriggered(w: WindowInstance)
      requires WindowsValid() && PendingValid() && w !in activeWindows && w !in pendingTriggers
      modifies w
      ensures WindowsValid() && PendingValid() && w.hasTriggered
    {
      w.SetTriggered();
    }

    /** The released branch of `emit_on_trigger` for the pending instance at position
        `k`: marked triggered and emitted when it had not triggered before, and deleted
        from the pending set either way. */
    method ReleaseAt(k: int, t: int, content: QuadContainer<Q>)
      requires WindowsValid() && PendingValid() && Separate() && 0 <= k < |pendingTriggers|
      requires M.Released(Cfg(), windows, pending[k], t)
      requires content.elements == M.Lookup(windows, pending[k]).value
      modifies pendingTriggers[k], this`pendingTriggers, this`pending, this`rstream
      ensures WindowsValid() && PendingValid() && Separate()
      ensures pending == old(pending[..k] + pending[k + 1..])
      ensures pendingTriggers == old(pendingTriggers[..k] + pendingTriggers[k + 1..])
      ensures rstream == old(rstream) + if old(pending[k]).triggered then [] else [content.elements]
    {
      var w := pendingTriggers[k];
      PendingCoupledIff(pendingTriggers, pending);
      NoneKeyedIff(pendingTriggers, activeWindows);
      DeletePendingAt(k);
      if !w.hasTriggered || report == OnContentChange {
        if !w.hasTriggered && content.Len() > 0 {
          MarkTriggered(w);
          rstream := rstream + [content.elements];
        }
      }
    }

    /** The body of `emit_on_trigger` for the pending instance at position `k`. */
    method EmitAt(k: int, t: int) returns (kept: bool)
      requires WindowsValid() && PendingValid() && Separate() && 0 <= k < |pendingTriggers|
      modifies pendingTriggers[k], this`pendingTriggers, this`pending, this`rstream
      ensures WindowsValid() && PendingValid() && Separate()
      ensures kept <==> !M.Released(Cfg(), windows, old(pending[k]), t)
      ensures pending == if kept then old(pending) else old(pending[..k] + pending[k + 1..])
      ensures pendingTriggers == if kept then old(pendingTriggers)
                                 else old(pendingTriggers[..k] + pendingTriggers[k + 1..])
      ensures rstream == old(rstream) + if M.Fires(Cfg(), windows, old(pending[k]), t)
                                        then [M.Lookup(windows, old(pending[k])).value] else []
    {
      var w := pendingTriggers[k];
      PendingCoupledIff(pendingTriggers, pending);
      var released, content := Released(w, t);
      kept := !released;
      if released {
        ReleaseAt(k, t, content.value);
      }
    }

    /** One turn of the `forEach` of `emit_on_trigger`: the instances before position
        `i` of the original pending sequence `P0` have been visited, those kept sit in
        front; visiting the next one extends both the kept prefix and the emitted
        contents by the model's step. */
    method Visit(k: int, t: int, ghost P0: seq<Inst>, ghost i: nat, ghost R0: seq<set<Q>>,
                 ghost Objs: set<WindowInstance>) returns (kept: bool)
      requires WindowsValid() && PendingValid() && Separate() && 0 <= k < |pendingTriggers|
      requires i < |P0| && k == |M.Kept(Cfg(), windows, P0[..i], t)| && |pendingTriggers| == k + |P0| - i
      requires pending == M.Kept(Cfg(), windows, P0[..i], t) + P0[i..]
      requires rstream == R0 + M.Fired(Cfg(), windows, P0[..i], t)
      requires forall j :: 0 <= j < |pendingTriggers| ==> pendingTriggers[j] in Objs
      modifies pendingTriggers[k], this`pendingTriggers, this`pending, this`rstream
      ensures WindowsValid() && PendingValid() && Separate()
      ensures (if kept then k + 1 else k) == |M.Kept(Cfg(), windows, P0[..i + 1], t)|
      ensures pending == M.Kept(Cfg(), windows, P0[..i + 1], t) + P0[i + 1..]
      ensures rstream == R0 + M.Fired(Cfg(), windows, P0[..i + 1], t)
      ensures forall j :: 0 <= j < |pendingTriggers| ==> pendingTriggers[j] in Objs
      ensures |pendingTriggers| == (if kept then k + 1 else k) + |P0| - (i + 1)
    {
      ghost var F := M.Fired(Cfg(), windows, P0[..i], t);
      M.EmitVisit(Cfg(), windows, P0, i, pending, t);
      ghost var pt := pendingTriggers;
      kept := EmitAt(k, t);
      if !kept {
        DeleteKeepsIn(pt, k, Objs, pendingTriggers);
      }
      AppendAssoc(R0, F, if M.Fires(Cfg(), windows, P0[i], t) then [M.Lookup(windows, P0[i]).value] else []);
    }

    /** Where the `forEach` of `emit_on_trigger` stands: the first `i` instances of
        `P0` have been visited, the kept ones sit in front of those still to visit, the
        next one to visit is at position `k`, and the fired contents follow `R0`. */
    ghost predicate Progress(t: int, P0: seq<Inst>, i: int, k: int, R0: seq<set<Q>>, Objs: set<WindowInstance>)
      reads this
    {
      0 <= i <= |P0| && k == |M.Kept(Cfg(), windows, P0[..i], t)| && |pendingTriggers| == k + |P0| - i &&
      pending == M.Kept(Cfg(), windows, P0[..i], t) + P0[i..] &&
      rstream == R0 + M.Fired(Cfg(), windows, P0[..i], t) &&
      forall j :: 0 <= j < |pendingTriggers| ==> pendingTriggers[j] in Objs
    }

    /** One turn of the `forEach` of `emit_on_trigger` with its bookkeeping. */
    method Step(k: int, t: int, ghost P0: seq<Inst>, ghost i: nat, ghost R0: seq<set<Q>>,
                ghost Objs: set<WindowInstance>) returns (k': int)
      requires WindowsValid() && PendingValid() && Separate()
      requires Progress(t, P0, i, k, R0, Objs) && k < |pendingTriggers|
      modifies pendingTriggers[k], this`pendingTriggers, this`pending, this`rstream
      ensures WindowsValid() && PendingValid() && Separate()
      ensures Progress(t, P0, i + 1, k', R0, Objs)
    {
      var kept := Visit(k, t, P0, i, R0, Objs);
      k' := if kept then k + 1 else k;
    }

    /** `emit_on_trigger(t_e)`: `Set.forEach` visits every pending instance once, in
        insertion order, while released ones are deleted behind it. */
    method EmitOnTrigger(t: int)
      requires WindowsValid() && PendingValid() && Separate()
      modifies pendingTriggers, this`pendingTriggers, this`pending, this`rstream
      ensures WindowsValid() && PendingValid() && Separate()
      ensures pending == M.Kept(Cfg(), windows, old(pending), t)
      ensures rstream == old(rstream) + M.Fired(Cfg(), windows, old(pending), t)
      ensures forall j :: 0 <= j < |pendingTriggers| ==> pendingTriggers[j] in old(pendingTriggers)
    {
      ghost var P0 := pending;
      ghost var R0 := rstream;
      ghost var Objs := set x | x in pendingTriggers;
      ghost var i: nat := 0;
      var k := 0;
      assert P0[..0] == [] && P0[0..] == P0;
      while k < |pendingTriggers|
        invariant WindowsValid() && PendingValid() && Separate()
        invariant Progress(t, P0, i, k, R0, Objs)
        decreases |P0| - i
      {
        assert pendingTriggers[k] in Objs;
        k := Step(k, t, P0, i, R0, Objs);
        i := i + 1;
      }
      AtEnd(M.Kept(Cfg(), windows, P0[..i], t), P0, i);
    }

    /** The body of `evict_and_trigger_on_watermark()` on the views: the windows with
        `close <= bound` are collected, emission runs at the watermark, and the collected
        windows are deleted afterwards. */
    method TriggerThenEvict(bound: int)
      requires WindowsValid() && PendingValid() && Separate()
      modifies pendingTriggers, this`pendingTriggers, this`pending, this`rstream,
               this`activeWindows, this`windows
      ensures WindowsValid() && PendingValid() && Separate()
      ensures windows == old(windows) - Evictable(old(windows), bound)
      ensures pending == M.Kept(Cfg(), old(windows), old(pending), currentWatermark)
      ensures rstream == old(rstream) + M.Fired(Cfg(), old(windows), old(pending), currentWatermark)
      ensures activeWindows.Keys <= old(activeWindows).Keys
      ensures activeWindows.Values <= old(activeWindows).Values
      ensures forall j :: 0 <= j < |pendingTriggers| ==> pendingTriggers[j] in old(pendingTriggers)
    {
      var toEvict := CollectEvictable(activeWindows, bound);
      EmitOnTrigger(currentWatermark);
      EvictWindows(toEvict, bound);
    }

    /** `evict_and_trigger_on_watermark()`: eviction bound `watermark - max_delay`. */
    method EvictAndTriggerOnWatermark()
      requires Valid()
      modifies pendingTriggers, this`pendingTriggers, this`pending, this`rstream,
               this`activeWindows, this`windows
      ensures Valid()
      ensures State() == M.EvictAndTrigger(Cfg(), old(State()))
      ensures activeWindows.Keys <= old(activeWindows).Keys
      ensures activeWindows.Values <= old(activeWindows).Values
      ensures forall j :: 0 <= j < |pendingTriggers| ==> pendingTriggers[j] in old(pendingTriggers)
    {
      ghost var s0 := State();
      TriggerThenEvict(currentWatermark - maxDelay);
      M.EvictAndTriggerIs(Cfg(), s0, windows, pending, rstream);
    }

    /** `update_watermark(new_time)`: only a strictly larger value is taken, and then
        the watermark eviction and emission run. */
    method UpdateWatermark(t: int)
      requires Valid()
      modifies pendingTriggers, this`currentWatermark, this`pendingTriggers, this`pending, this`rstream,
               this`activeWindows, this`windows
      ensures Valid()
      ensures State() == M.UpdateWatermark(Cfg(), old(State()), t)
      ensures activeWindows.Keys <= old(activeWindows).Keys
      ensures activeWindows.Values <= old(activeWindows).Values
      ensures forall j :: 0 <= j < |pendingTriggers| ==> pendingTriggers[j] in old(pendingTriggers)
    {
      if t > currentWatermark {
        currentWatermark := t;
        EvictAndTriggerOnWatermark();
      }
    }
  
    /** `get_window_instance(t_e)`: a new instance `[c_sup - width, c_sup)`. */
    method GetWindowInstance(t: int) returns (w: WindowInstance)
      requires Cfg().Valid()
      ensures fresh(w) && w.SpanOf() == Cfg().InstanceSpan(t) && !w.hasTriggered
    {
      var cSup := CSup(t, t0, slide);
      var o := cSup - width;
      w := new WindowInstance(o, o + width);
    }

    /** `add_window_instance_to_pending_triggers(t_e)`: the instance of `t_e` joins the
        pending set unless one with the same bounds is already there. */
    method AddWindowInstanceToPendingTriggers(t: int)
      requires Valid()
      modifies this`pendingTriggers, this`pending
      ensures Valid()
      ensures State() == M.AddPending(Cfg(), old(State()), t)
      ensures forall j :: 0 <= j < |pendingTriggers| ==> pendingTriggers[j] in old(pendingTriggers) || fresh(pendingTriggers[j])
    {
      var wi := GetWindowInstance(t);
      var has := HasWindowInstance(pendingTriggers, wi);
      assert has <==> M.HasSpan(pending, wi.SpanOf()) by {
        PendingCoupledIff(pendingTriggers, pending);
      }
      if !has {
        AppendPending(wi);
      }
    }

    /** The append branch of `add_window_instance_to_pending_triggers`: a new instance
        whose bounds are not pending yet. */
    method AppendPending(wi: WindowInstance)
      requires Valid()
      requires wi !in activeWindows && !wi.hasTriggered && !M.HasSpan(pending, wi.SpanOf())
      modifies this`pendingTriggers, this`pending
      ensures Valid()
      ensures pendingTriggers == old(pendingTriggers) + [wi] && pending == old(pending) + [Inst(wi.SpanOf(), false)]
    {
      ghost var x := Inst(wi.SpanOf(), false);
      assert PendingCoupled(pendingTriggers + [wi], pending + [x]) &&
             NoneKeyed(pendingTriggers + [wi], activeWindows) by {
        PendingSnoc(pendingTriggers, pending, activeWindows, wi, x);
      }
      assert M.PendingSpansUnique(pending + [x]) by {
        M.UniqueSnoc(pending, x);
      }
      pendingTriggers, pending := pendingTriggers + [wi], pending + [x];
    }

    /** The first half of `process_event(e, t_e)`: scoping, then the insertion loop with
        the collection of the expired windows. */
    method ScopeAndInsert(e: Q, t: int) returns (toEvict: set<WindowInstance>)
      requires Cfg().Valid() && WindowsValid() && PendingValid() && Separate()
      modifies this`activeWindows, this`windows, activeWindows.Values
      ensures WindowsValid() && PendingValid() && Separate()
      ensures windows == Insert(ScopeFrom(old(windows), Cfg().FirstOpen(t), t, width, slide), e, t)
      ensures Spans(toEvict) == Evictable(ScopeFrom(old(windows), Cfg().FirstOpen(t), t, width, slide), t)
      ensures forall k :: k in toEvict <==> k in activeWindows && k.close <= t
      ensures forall c :: c in activeWindows.Values ==> c in old(activeWindows).Values || fresh(c)
    {
      Scope(t);
      toEvict := InsertEvent(e, t);
    }

    /** `process_event(e, t_e)`: scoping, insertion with collection of the expired
        windows, the watermark update and the pending instance of `t_e`. */
    method ProcessEvent(e: Q, t: int) returns (toEvict: set<WindowInstance>)
      requires Valid()
      modifies this`activeWindows, this`windows, activeWindows.Values, pendingTriggers,
               this`currentWatermark, this`pendingTriggers, this`pending, this`rstream
      ensures Valid()
      ensures State() == M.ProcessEvent(Cfg(), old(State()), e, t).0
      ensures Spans(toEvict) == M.ProcessEvent(Cfg(), old(State()), e, t).1
      ensures forall k :: k in activeWindows ==> (k in toEvict <==> k.close <= t)
      ensures forall c :: c in activeWindows.Values ==> c in old(activeWindows).Values || fresh(c)
      ensures forall j :: 0 <= j < |pendingTriggers| ==> pendingTriggers[j] in old(pendingTriggers) || fresh(pendingTriggers[j])
    {
      ghost var s0 := State();
      toEvict := ScopeAndInsert(e, t);
      ghost var s2 := State();
      assert s2 == M.Scope(Cfg(), s0, t).(windows := Insert(M.Scope(Cfg(), s0, t).windows, e, t));
      WatermarkThenPending(t);
      assert M.ProcessEvent(Cfg(), s0, e, t) == (State(), Evictable(M.Scope(Cfg(), s0, t).windows, t)) by {
        M.ProcessEventIs(Cfg(), s0, e, t, s2, M.UpdateWatermark(Cfg(), s2, t), State());
      }
    }

    /** The second half of `process_event(e, t_e)`: the watermark update, then the
        pending instance of `t_e`. */
    method WatermarkThenPending(t: int)
      requires Valid()
      modifies pendingTriggers, this`currentWatermark, this`pendingTriggers, this`pending, this`rstream,
               this`activeWindows, this`windows
      ensures Valid()
      ensures State() == M.AddPending(Cfg(), M.UpdateWatermark(Cfg(), old(State()), t), t)
      ensures activeWindows.Keys <= old(activeWindows).Keys
      ensures activeWindows.Values <= old(activeWindows).Values
      ensures forall j :: 0 <= j < |pendingTriggers| ==> pendingTriggers[j] in old(pendingTriggers) || fresh(pendingTriggers[j])
    {
      UpdateWatermark(t);
      ghost var s3 := State();
      AddWindowInstanceToPendingTriggers(t);
      assert State() == M.AddPending(Cfg(), s3, t);
    }
  
    /** `if_event_late(timestamp)`: the event is behind the time cursor. */
    method IfEventLate(t: int) returns (r: bool)
      ensures r <==> time > t
    {
      r := time > t;
    }

    /** `buffer_late_event(e, timestamp)`: dropped when `time - timestamp > max_delay`,
        otherwise added to the bucket of `timestamp`, which is created when absent. */
    method BufferLateEvent(e: Q, ts: int)
      modifies this`lateBuffer
      ensures State() == M.BufferLate(old(State()), e, ts)
    {
      if time - ts > maxDelay {
        return;
      }
      if ts !in lateBuffer {
        lateBuffer := lateBuffer[ts := []];
      }
      var bucket := lateBuffer[ts];
      if e !in bucket {
        lateBuffer := lateBuffer[ts := bucket + [e]];
      }
    }

    /** The branch of `add(e, timestamp)` for an event that is not late. */
    method AddInOrder(e: Q, t: int)
      requires Valid() && time <= t
      modifies this`activeWindows, this`windows, activeWindows.Values, pendingTriggers,
               this`currentWatermark, this`pendingTriggers, this`pending, this`rstream, this`time
      ensures Valid()
      ensures State() == M.Add(Cfg(), old(State()), e, t)
    {
      ghost var s0 := State();
      var toEvict := ProcessEvent(e, t);
      ghost var r := State();
      RaiseTimeAndEvict(toEvict, t);
      M.AddIs(Cfg(), s0, e, t, r, windows, time);
    }

    /** The end of `add`: the time cursor is raised to the timestamp and the windows
        collected by `process_event` are deleted. */
    method RaiseTimeAndEvict(toEvict: set<WindowInstance>, t: int)
      requires WindowsValid() && Separate()
      requires forall k :: k in activeWindows ==> (k in toEvict <==> k.close <= t)
      modifies this`time, this`activeWindows, this`windows
      ensures WindowsValid() && Separate()
      ensures time == if t > old(time) then t else old(time)
      ensures windows == old(windows) - Evictable(old(windows), t)
      ensures activeWindows.Keys <= old(activeWindows).Keys
    {
      if t > time {
        time := t;
      }
      EvictWindows(toEvict, t);
    }

    /** `add(e, timestamp)`: a late event is buffered under the current time cursor;
        otherwise the event is processed, the cursor raised to the timestamp, and the
        expired windows evicted. */
    method Add(e: Q, t: int)
      requires Valid()
      modifies this`activeWindows, this`windows, activeWindows.Values, pendingTriggers,
               this`currentWatermark, this`pendingTriggers, this`pending, this`rstream,
               this`time, this`lateBuffer
      ensures Valid()
      ensures State() == M.Add(Cfg(), old(State()), e, t)
    {
      var late := IfEventLate(t);
      if late {
        BufferLateEvent(e, time);
      } else {
        AddInOrder(e, t);
      }
    }
  
    /** The inner `forEach` of `process_late_elements`: every element of one bucket,
        in insertion order, through `process_event`; the sets it returns are dropped. */
    method ReplayBucket(ts: int, els: seq<Q>)
      requires Valid()
      modifies this`activeWindows, this`windows, activeWindows.Values, pendingTriggers,
               this`currentWatermark, this`pendingTriggers, this`pending, this`rstream
      ensures Valid()
      ensures State() == M.ReplayBucket(Cfg(), old(State()), ts, els)
      ensures forall c :: c in activeWindows.Values ==> c in old(activeWindows).Values || fresh(c)
      ensures forall j :: 0 <= j < |pendingTriggers| ==> pendingTriggers[j] in old(pendingTriggers) || fresh(pendingTriggers[j])
    {
      ghost var s0 := State();
      for i := 0 to |els|
        invariant Valid()
        invariant State() == M.ReplayBucket(Cfg(), s0, ts, els[..i])
        invariant forall c :: c in activeWindows.Values ==> c in old(activeWindows).Values || fresh(c)
        invariant forall j :: 0 <= j < |pendingTriggers| ==> pendingTriggers[j] in old(pendingTriggers) || fresh(pendingTriggers[j])
      {
        var _ := ProcessEvent(els[i], ts);
        assert State() == M.ReplayBucket(Cfg(), s0, ts, els[..i + 1]) by {
          M.ReplayBucketStep(Cfg(), s0, ts, els, i);
        }
      }
      assert els[..|els|] == els;
    }

    /** The outer `forEach` of `process_late_elements`: the buckets of `late`, in the
        order of `keys`, each through `ReplayBucket`. */
    method ReplayAll(keys: seq<int>, ghost late: map<int, seq<Q>>)
      requires Valid() && lateBuffer == late
      requires forall i :: 0 <= i < |keys| ==> keys[i] in late
      modifies this`activeWindows, this`windows, activeWindows.Values, pendingTriggers,
               this`currentWatermark, this`pendingTriggers, this`pending, this`rstream
      ensures Valid()
      ensures State() == M.Replay(Cfg(), old(State()), keys, late)
    {
      ghost var s0 := State();
      for i := 0 to |keys|
        invariant Valid() && lateBuffer == late
        invariant State() == M.Replay(Cfg(), s0, keys[..i], late)
        invariant forall c :: c in activeWindows.Values ==> c in old(activeWindows).Values || fresh(c)
        invariant forall j :: 0 <= j < |pendingTriggers| ==> pendingTriggers[j] in old(pendingTriggers) || fresh(pendingTriggers[j])
      {
        ReplayBucket(keys[i], lateBuffer[keys[i]]);
        assert State() == M.Replay(Cfg(), s0, keys[..i + 1], late) by {
          M.ReplayStep(Cfg(), s0, keys, late, i);
        }
      }
      assert keys[..|keys|] == keys;
    }

    /** The non-empty branch of `process_late_elements`: the replay in the order of
        `keys`, then `late_buffer.clear()`. */
    method ReplayAndClear(keys: seq<int>)
      requires Valid() && |lateBuffer| != 0 && keys == SortedKeys(lateBuffer.Keys)
      modifies this`activeWindows, this`windows, activeWindows.Values, pendingTriggers,
               this`currentWatermark, this`pendingTriggers, this`pending, this`rstream, this`lateBuffer
      ensures Valid()
      ensures State() == M.ProcessLate(Cfg(), old(State()))
    {
      ghost var s0 := State();
      assert forall i :: 0 <= i < |keys| ==> keys[i] in lateBuffer by {
        forall i | 0 <= i < |keys| ensures keys[i] in lateBuffer {
          assert keys[i] in keys;
        }
      }
      ReplayAll(keys, lateBuffer);
      ghost var R := State();
      assert M.ProcessLate(Cfg(), s0) == R.(late := map[]) by {
        M.ProcessLateIs(Cfg(), s0, keys, R);
      }
      ClearLate();
    }

    /** `late_buffer.clear()`. */
    method ClearLate()
      modifies this`lateBuffer
      ensures State() == old(State()).(late := map[])
    {
      lateBuffer := map[];
    }

    /** `process_late_elements()`: nothing on an empty buffer; otherwise the buckets are
        replayed in ascending timestamp order and the buffer is cleared. */
    method ProcessLateElements()
      requires Valid()
      modifies this`activeWindows, this`windows, activeWindows.Values, pendingTriggers,
               this`currentWatermark, this`pendingTriggers, this`pending, this`rstream, this`lateBuffer
      ensures Valid()
      ensures State() == M.ProcessLate(Cfg(), old(State()))
    {
      if |lateBuffer| == 0 {
        return;
      }
      var keys := SortTimestamps(lateBuffer.Keys);
      ReplayAndClear(keys);
    }

    /** `get_current_watermark()`. */
    method GetCurrentWatermark() returns (w: int)
      ensures w == State().watermark
    {
      w := currentWatermark;
    }

    /** `set_current_time(t)`: the time cursor is overwritten, even backwards. */
    method SetCurrentTime(t: int)
      modifies this`time
      ensures State() == old(State()).(time := t)
      ensures old(Valid()) ==> Valid()
    {
      time := t;
    }

    /** `set_max_delay(delay)`. */
    method SetMaxDelay(delay: int)
      modifies this`maxDelay
      ensures State() == old(State()).(maxDelay := delay)
      ensures old(Valid()) ==> Valid()
    {
      maxDelay := delay;
    }

    /** `set_current_watermark(t)`: overwritten without eviction or emission. */
    method SetCurrentWatermark(t: int)
      modifies this`currentWatermark
      ensures State() == old(State()).(watermark := t)
      ensures old(Valid()) ==> Valid()
    {
      currentWatermark := t;
    }
  }
}
