/**
 * The window operator of the earlier snapshot (src/operators/s2r.ts) as a
 * class over the heap.  Its pending triggers are an insertion-ordered set of
 * distinct `WindowInstance` objects that emission looks up in the
 * active-window map by identity; its late buffer is a map from timestamps to
 * insertion-ordered buckets whose own key order is kept in `lateOrder`.
 * Ghost views hold the span-keyed value of the windows and the value of the
 * pending set; `Valid()` couples them to the heap, and every state-changing
 * method is proved to perform the matching transition of SrcModel on
 * `State()`.
 */
module SrcEngine {
  import opened WindowCore
  import opened WindowMaps
  import opened WindowRefs
  import opened WindowLoops
  import M = SrcModel

  /** `computeWindowIfAbsent(map, key, () => new QuadContainer(new Set(), 0))`: the
      container of a key with the same bounds as `key` when there is one (the search
      runs over all keys, `key` itself included); otherwise `key` is put with a fresh
      empty container, which is returned. */
  method ComputeWindowIfAbsent<Q(==)>(m: map<WindowInstance, QuadContainer<Q>>, key: WindowInstance)
    returns (r: map<WindowInstance, QuadContainer<Q>>, val: QuadContainer<Q>)
    ensures HasKeySpan(m, key.SpanOf()) ==> r == m && exists k :: k in m && k.SpanOf() == key.SpanOf() && m[k] == val
    ensures !HasKeySpan(m, key.SpanOf()) ==>
              r == m[key := val] && fresh(val) && val.elements == {} && val.lastTimeStampChanged == 0
  {
    var found := false;
    var keys := m.Keys;
    var same := key;
    while !found && keys != {}
      invariant keys <= m.Keys
      invariant found ==> same in m && same.SpanOf() == key.SpanOf()
      invariant !found ==> forall w :: w in m && w !in keys ==> !w.IsSame(key)
      decreases |keys|, !found
    {
      if forall z :: z !in keys { assert false; }
      var w :| w in keys;
      if w.IsSame(key) {
        found := true;
        same := w;
      } else {
        keys := keys - {w};
      }
    }
    if found {
      val := m[same];
      r := m;
    } else {
      val := new QuadContainer({}, 0);
      r := m[key := val];
    }
  }

  /** The value sequence `P` lists, position by position, the bounds and flags of the
      pending objects `ps` and whether each is a key of `m`. */
  ghost predicate PendCoupled<Q>(ps: seq<WindowInstance>, P: seq<M.Pend>, m: map<WindowInstance, QuadContainer<Q>>)
    reads ps
  {
    |P| == |ps| && forall i :: 0 <= i < |ps| ==> P[i] == M.Pend(ps[i].SpanOf(), ps[i].hasTriggered, ps[i] in m)
  }

  /** Pending objects that keep their key status keep the coupling. */
  lemma PendSameKeys<Q>(ps: seq<WindowInstance>, P: seq<M.Pend>, m: map<WindowInstance, QuadContainer<Q>>,
                        m': map<WindowInstance, QuadContainer<Q>>)
    requires PendCoupled(ps, P, m)
    requires forall i :: 0 <= i < |ps| ==> (ps[i] in m' <==> ps[i] in m)
    ensures PendCoupled(ps, P, m')
  {
  }

  /** `Unkey` position by position. */
  lemma {:induction false} UnkeyAt(P: seq<M.Pend>, bound: int)
    ensures forall i :: 0 <= i < |P| ==>
              M.Unkey(P, bound)[i] == P[i].(keyed := P[i].keyed && P[i].span.close > bound)
    decreases |P|
  {
    if P != [] {
      UnkeyAt(P[..|P| - 1], bound);
    }
  }

  /** Deleting the keys selected by their close bound un-keys exactly the pending
      objects among them. */
  lemma PendRemoveAll<Q>(ps: seq<WindowInstance>, P: seq<M.Pend>, m: map<WindowInstance, QuadContainer<Q>>,
                         T: set<WindowInstance>, bound: int)
    requires PendCoupled(ps, P, m)
    requires forall k :: k in m ==> (k in T <==> k.close <= bound)
    ensures PendCoupled(ps, M.Unkey(P, bound), m - T)
  {
    UnkeyAt(P, bound);
  }

  /** Dropping a position from both sequences keeps them coupled. */
  lemma PendRemoveCoupled<Q>(ps: seq<WindowInstance>, P: seq<M.Pend>, m: map<WindowInstance, QuadContainer<Q>>,
                             k: int)
    requires PendCoupled(ps, P, m) && 0 <= k < |ps|
    ensures PendCoupled(ps[..k] + ps[k + 1..], P[..k] + P[k + 1..], m)
  {
    var r := ps[..k] + ps[k + 1..];
    var R := P[..k] + P[k + 1..];
    forall j | 0 <= j < |r| ensures R[j] == M.Pend(r[j].SpanOf(), r[j].hasTriggered, r[j] in m) {
      if j < k {
        assert R[j] == P[j] && r[j] == ps[j];
      } else {
        assert R[j] == P[j + 1] && r[j] == ps[j + 1];
      }
    }
  }

  /** `Set.delete` of the object at position `k` of a duplicate-free pending set removes
      exactly that position. */
  lemma PendDelete<Q>(ps: seq<WindowInstance>, P: seq<M.Pend>, m: map<WindowInstance, QuadContainer<Q>>,
                      k: int)
    requires PendCoupled(ps, P, m) && NoDup(ps) && 0 <= k < |ps|
    ensures SetDelete(ps, ps[k]) == ps[..k] + ps[k + 1..]
    ensures ps[k] !in ps[..k] + ps[k + 1..]
    ensures NoDup(ps[..k] + ps[k + 1..])
    ensures PendCoupled(ps[..k] + ps[k + 1..], P[..k] + P[k + 1..], m)
  {
    NoDupRemove(ps, k);
    assert ps == ps[..k] + [ps[k]] + ps[k + 1..];
    SetDeleteSplit(ps[..k], ps[k], ps[k + 1..]);
    PendRemoveCoupled(ps, P, m, k);
  }

  class CSPARQLWindow<Q(==)> {
    const name: string
    const width: int
    const slide: int
    const report: ReportStrategy
    const tick: Tick
    const t0: int
    var time: int
    var currentWatermark: int
    var maxDelay: int
    var activeWindows: map<WindowInstance, QuadContainer<Q>>
    var pendingTriggers: seq<WindowInstance>
    var lateBuffer: map<int, seq<Q>>
    /** The insertion order of the late buffer's keys. */
    var lateOrder: seq<int>

    /** The span-keyed value of `activeWindows`. */
    ghost var windows: map<Span, Win<Q>>
    /** The bounds, flags and key status of `pendingTriggers`, in order. */
    ghost var pending: seq<M.Pend>
    /** The element sets delivered to `RStream` listeners, oldest first. */
    ghost var rstream: seq<set<Q>>

    function Cfg(): Config
    {
      Config(width, slide, t0, report, tick)
    }

    /** The active windows: unique bounds, one container each, and `windows` is
        their span-keyed value. */
    ghost predicate WindowsValid()
      reads this`activeWindows, this`windows, activeWindows.Keys, activeWindows.Values
    {
      SpansUnique(activeWindows) && ContainersDistinct(activeWindows) && Coupled(activeWindows, windows)
    }

    /** The pending set: distinct objects, and `pending` is their value. */
    ghost predicate PendingValid()
      reads this`pendingTriggers, this`pending, this`activeWindows, pendingTriggers
    {
      PendCoupled(pendingTriggers, pending, activeWindows) && NoDup(pendingTriggers)
    }

    ghost predicate Valid()
      reads this`activeWindows, this`windows, this`pendingTriggers, this`pending
      reads activeWindows.Keys, activeWindows.Values, pendingTriggers
    {
      width > 0 && slide > 0 && WindowsValid() && PendingValid()
    }

    /** The late buffer's key order lists its keys, each once. */
    ghost predicate LateValid()
      reads this`lateBuffer, this`lateOrder
    {
      NoDup(lateOrder) && (forall ts :: ts in lateBuffer ==> ts in lateOrder) &&
      forall i :: 0 <= i < |lateOrder| ==> lateOrder[i] in lateBuffer
    }

    /** The operator's state as a SrcModel value. */
    ghost function State(): M.State<Q>
      reads this
    {
      M.State(time, currentWatermark, maxDelay, windows, pending, lateOrder, lateBuffer, rstream)
    }

    /** The constructor; the `setInterval` that calls `process_late_elements` every
        `slide` is not part of this model. */
    constructor (name: string, width: int, slide: int, report: ReportStrategy, tick: Tick,
                 startTime: int, maxDelay: int)
      requires width > 0 && slide > 0
      ensures Valid() && LateValid()
      ensures this.name == name && Cfg() == Config(width, slide, startTime, report, tick)
      ensures State() == M.Initial(startTime, maxDelay)
    {
      this.name := name;
      this.width := width;
      this.slide := slide;
      this.report := report;
      this.tick := tick;
      time := startTime;
      currentWatermark := startTime;
      t0 := startTime;
      activeWindows := map[];
      this.maxDelay := maxDelay;
      pendingTriggers := [];
      lateBuffer := map[];
      lateOrder := [];
      windows := map[];
      pending := [];
      rstream := [];
    }

    /** `getContent(timestamp)`: the container of the covering window (close inclusive)
        with the smallest close, or `undefined`. */
    method GetContent(timestamp: int) returns (r: Option<QuadContainer<Q>>)
      requires Valid()
      ensures r.None? <==> forall sp :: sp in windows ==> !Covers(sp, timestamp)
      ensures r.Some? ==> exists w :: w in activeWindows && activeWindows[w] == r.value &&
                                      IsContentSpan(windows, timestamp, w.SpanOf())
    {
      var best := SmallestCover(activeWindows, timestamp);
      ContentOfCover(activeWindows, windows, timestamp, best);
      if best.Some? {
        r := Some(activeWindows[best.value]);
      } else {
        r := None;
      }
    }

    /** One step of the scoping loop: `computeWindowIfAbsent` on a new instance with the
        given open bound.  The new instance is the only possible new key, so the pending
        objects keep their key status. */
    method EnsureWindowAt(o: int)
      requires WindowsValid()
      modifies this`activeWindows, this`windows
      ensures WindowsValid()
      ensures windows == EnsureWindow(old(windows), Span(o, o + width))
      ensures forall i :: 0 <= i < |pendingTriggers| ==>
                (pendingTriggers[i] in activeWindows <==> pendingTriggers[i] in old(activeWindows))
      ensures forall c :: c in activeWindows.Values ==> c in old(activeWindows).Values || fresh(c)
    {
      var wi := new WindowInstance(o, o + width);
      assert wi.SpanOf() == Span(o, o + width);
      ghost var present := HasKeySpan(activeWindows, wi.SpanOf());
      var c;
      activeWindows, c := ComputeWindowIfAbsent(activeWindows, wi);
      if !present {
        assert wi.SpanOf() !in windows;
        CoupledPut(old(activeWindows), windows, wi, c);
        windows := windows[wi.SpanOf() := EmptyWin()];
      } else {
        var k :| k in old(activeWindows) && k.SpanOf() == wi.SpanOf();
        assert wi.SpanOf() in windows;
      }
    }

    /** The `while (o_i <= t_e)` part of the scoping loop, from open bound `o`. */
    method ScopeLoop(o: int, t: int)
      requires slide > 0 && WindowsValid()
      modifies this`activeWindows, this`windows
      ensures WindowsValid()
      ensures windows == ScopeFrom(old(windows), o, t, width, slide)
      ensures forall i :: 0 <= i < |pendingTriggers| ==>
                (pendingTriggers[i] in activeWindows <==> pendingTriggers[i] in old(activeWindows))
      ensures forall c :: c in activeWindows.Values ==> c in old(activeWindows).Values || fresh(c)
    {
      var o := o;
      ghost var target := ScopeFrom(windows, o, t, width, slide);
      while o <= t
        invariant WindowsValid()
        invariant ScopeFrom(windows, o, t, width, slide) == target
        invariant forall i :: 0 <= i < |pendingTriggers| ==>
                    (pendingTriggers[i] in activeWindows <==> pendingTriggers[i] in old(activeWindows))
        invariant forall c :: c in activeWindows.Values ==> c in old(activeWindows).Values || fresh(c)
        decreases t - o
      {
        ghost var W := windows;
        EnsureWindowAt(o);
        ScopeFromStep(W, windows, o, t, width, slide);
        o := o + slide;
      }
    }

    /** `scope(t_e)`: a do-while from the first open bound of the instance grid at
        `t_e`: the first window is created unconditionally, the next ones while the open
        bound does not exceed `t_e`. */
    method Scope(t: int)
      requires Cfg().Valid() && WindowsValid() && PendingValid()
      modifies this`activeWindows, this`windows
      ensures WindowsValid() && PendingValid()
      ensures windows == M.Scope(Cfg(), old(State()), t).windows
      ensures forall c :: c in activeWindows.Values ==> c in old(activeWindows).Values || fresh(c)
    {
      var o := CSup(t, t0, slide) - width;
      assert o == Cfg().FirstOpen(t);
      ghost var s0 := State();
      ScopeWindows(o, t);
      PendSameKeys(pendingTriggers, pending, old(activeWindows), activeWindows);
      M.ScopeIs(Cfg(), s0, t, o, EnsureWindow(s0.windows, Span(o, o + width)));
    }

    /** The do-while of `scope(t_e)` from the open bound `o`: the window at `o`, then
        the loop. */
    method ScopeWindows(o: int, t: int)
      requires slide > 0 && WindowsValid()
      modifies this`activeWindows, this`windows
      ensures WindowsValid()
      ensures windows == ScopeFrom(EnsureWindow(old(windows), Span(o, o + width)), o + slide, t, width, slide)
      ensures forall i :: 0 <= i < |pendingTriggers| ==>
                (pendingTriggers[i] in activeWindows <==> pendingTriggers[i] in old(activeWindows))
      ensures forall c :: c in activeWindows.Values ==> c in old(activeWindows).Values || fresh(c)
    {
      EnsureWindowAt(o);
      ScopeLoop(o + slide, t);
    }

    /** The insertion loop of `process_event(e, t_e)` seen through the view. */
    method InsertEvent(e: Q, t: int) returns (toEvict: set<WindowInstance>)
      requires WindowsValid()
      modifies activeWindows.Values, this`windows
      ensures WindowsValid()
      ensures windows == Insert(old(windows), e, t)
      ensures forall k :: k in toEvict <==> k in activeWindows && k.close <= t
      ensures Spans(toEvict) == Evictable(old(windows), t)
    {
      toEvict := InsertLoop(activeWindows, e, t);
      windows := Insert(windows, e, t);
      forall k | k in activeWindows
        ensures windows[k.SpanOf()] ==
                Win(activeWindows[k].elements, activeWindows[k].lastTimeStampChanged, k.hasTriggered)
      {
        assert k.SpanOf() in old(windows);
      }
      CoupledKeys(activeWindows, windows);
      SelectedSpans(activeWindows, windows, toEvict, t);
      assert Evictable(windows, t) == Evictable(old(windows), t);
    }

    /** `evict_windows(toEvict)` (and the deletion loop of `check_watermark`): every
        instance of the set is deleted from the map by identity.  Both callers pass a set
        that, among the current keys, holds those with `close <= bound`. */
    method EvictWindows(toEvict: set<WindowInstance>, ghost bound: int)
      requires WindowsValid() && PendingValid()
      requires forall k :: k in activeWindows ==> (k in toEvict <==> k.close <= bound)
      modifies this`activeWindows, this`windows, this`pending
      ensures activeWindows == old(activeWindows) - toEvict
      ensures windows == old(windows) - Evictable(old(windows), bound)
      ensures pending == M.Unkey(old(pending), bound)
      ensures WindowsValid() && PendingValid()
    {
      DropKeys(toEvict, bound);
      pending := M.Unkey(pending, bound);
    }

    /** The deletion itself, with the pending value it leaves to be recomputed. */
    method DropKeys(toEvict: set<WindowInstance>, ghost bound: int)
      requires WindowsValid() && PendingValid()
      requires forall k :: k in activeWindows ==> (k in toEvict <==> k.close <= bound)
      modifies this`activeWindows, this`windows
      ensures activeWindows == old(activeWindows) - toEvict
      ensures windows == old(windows) - Evictable(old(windows), bound)
      ensures WindowsValid() && NoDup(pendingTriggers)
      ensures PendCoupled(pendingTriggers, M.Unkey(pending, bound), activeWindows)
    {
      var m := RemoveAll(activeWindows, toEvict);
      assert SpansUnique(m) && ContainersDistinct(m) && Coupled(m, windows - Evictable(windows, bound)) by {
        EvictView(activeWindows, windows, toEvict, bound);
      }
      assert PendCoupled(pendingTriggers, M.Unkey(pending, bound), m) by {
        PendRemoveAll(pendingTriggers, pending, activeWindows, toEvict, bound);
      }
      activeWindows, windows := m, windows - Evictable(windows, bound);
    }

    /** `pending_triggers.delete(window)` for the object at position `k`. */
    method DeletePendingAt(k: int)
      requires PendingValid() && 0 <= k < |pendingTriggers|
      modifies this`pendingTriggers, this`pending
      ensures PendingValid()
      ensures pendingTriggers == old(pendingTriggers[..k] + pendingTriggers[k + 1..])
      ensures pending == old(pending[..k] + pending[k + 1..])
      ensures old(pendingTriggers[k]) !in pendingTriggers
    {
      PendDelete(pendingTriggers, pending, activeWindows, k);
      pendingTriggers := SetDelete(pendingTriggers, pendingTriggers[k]);
      pending := pending[..k] + pending[k + 1..];
    }

    /** `window.has_triggered = true` on a key that is no longer pending: the flag of its
        window is set in the view. */
    method MarkKey(w: WindowInstance)
      requires WindowsValid() && PendingValid() && w in activeWindows && w !in pendingTriggers
      modifies w, this`windows
      ensures WindowsValid() && PendingValid()
      ensures windows == old(windows[w.SpanOf() := windows[w.SpanOf()].(triggered := true)])
    {
      w.SetTriggered();
      windows := windows[w.SpanOf() := windows[w.SpanOf()].(triggered := true)];
      forall k | k in activeWindows && k != w ensures k.SpanOf() != w.SpanOf() {
        assert KeyOf(activeWindows, k.SpanOf()) == k;
      }
    }

    /** The pending-set part of the emitting branch of `emit_on_trigger` for the pending
        object at position `k`, a key: the object leaves the pending set and, when it
        fires, its flag is set.  The flag is set after the deletion, which reads no
        flag. */
    method ReleaseAt(k: int, fire: bool)
      requires Valid() && 0 <= k < |pendingTriggers| && pendingTriggers[k] in activeWindows
      modifies pendingTriggers[k], this`pendingTriggers, this`pending, this`windows
      ensures Valid()
      ensures windows == if fire then old(windows[pendingTriggers[k].SpanOf() :=
                                                   windows[pendingTriggers[k].SpanOf()].(triggered := true)])
                         else old(windows)
      ensures pending == old(pending[..k] + pending[k + 1..])
      ensures pendingTriggers == old(pendingTriggers[..k] + pendingTriggers[k + 1..])
    {
      var w := pendingTriggers[k];
      DeletePendingAt(k);
      if fire {
        MarkKey(w);
      }
    }

    /** The test of the `forEach` of `emit_on_trigger` for the pending object at position
        `k`: `active_windows.get(window)` finds a content only when the object is itself a
        key, and a found content is released when the policy asks for it (`close <= t_e`
        under OnWindowClose, always under OnContentChange). */
    method ReleasedAt(k: int, t: int) returns (shouldEmit: bool)
      requires Valid() && 0 <= k < |pendingTriggers|
      ensures shouldEmit <==> M.Releases(Cfg(), windows, pending[k], t)
      ensures shouldEmit ==> pendingTriggers[k] in activeWindows
    {
      var w := pendingTriggers[k];
      assert pending[k] == M.Pend(w.SpanOf(), w.hasTriggered, w in activeWindows);
      shouldEmit := false;
      if w in activeWindows {
        assert w.SpanOf() in windows;
        if report == OnWindowClose {
          if w.close <= t {
            shouldEmit := true;
          }
        } else if report == OnContentChange {
          shouldEmit := true;
        }
      }
    }

    /** The body of the `forEach` of `emit_on_trigger` for the pending object at position
        `k`: a released object leaves the pending set, and under TimeDriven with
        `t_e > time` the cursor moves to `t_e` and the content is emitted unless the
        object had triggered under OnWindowClose.  The cursor and the output are written
        last. */
    method EmitAt(k: int, t: int) returns (kept: bool)
      requires Valid() && 0 <= k < |pendingTriggers|
      modifies pendingTriggers[k], this`pendingTriggers, this`pending, this`rstream, this`time, this`windows
      ensures Valid()
      ensures kept <==> !M.Releases(Cfg(), old(windows), old(pending[k]), t)
      ensures time == if !kept && M.Moves(Cfg(), old(time), t) then t else old(time)
      ensures windows == if !kept && M.Fires(Cfg(), old(time), old(pending[k]), t)
                         then old(windows[pending[k].span := windows[pending[k].span].(triggered := true)])
                         else old(windows)
      ensures rstream == if !kept && M.Fires(Cfg(), old(time), old(pending[k]), t)
                         then old(rstream + [windows[pending[k].span].elements]) else old(rstream)
      ensures pending == if kept then old(pending) else old(pending[..k] + pending[k + 1..])
      ensures pendingTriggers == if kept then old(pendingTriggers)
                                 else old(pendingTriggers[..k] + pendingTriggers[k + 1..])
    {
      var shouldEmit := ReleasedAt(k, t);
      kept := !shouldEmit;
      if shouldEmit {
        var w := pendingTriggers[k];
        var content := activeWindows[w];
        assert pending[k] == M.Pend(w.SpanOf(), w.hasTriggered, true) && windows[w.SpanOf()].elements == content.elements;
        var newTime := time;
        var fire := false;
        if tick == TimeDriven {
          if t > time {
            newTime := t;
            fire := !w.hasTriggered || report == OnContentChange;
          }
        }
        ReleaseAt(k, fire);
        time, rstream := newTime, if fire then rstream + [content.elements] else rstream;
      }
    }

    /** One turn of the `forEach` of `emit_on_trigger`: the objects before position `i`
        of the original pending sequence `P0` have been visited, and those kept, `K`, sit
        in front; visiting the next one takes the model's step from the emission `e`
        reached so far. */
    method Visit(k: int, t: int, ghost e: M.Emission<Q>, ghost P0: seq<M.Pend>, ghost i: nat,
                 ghost Objs: set<WindowInstance>) returns (kept: bool)
      requires Valid() && 0 <= k < |pendingTriggers|
      requires e == M.Emission(windows, time, e.kept, rstream)
      requires i < |P0| && k == |e.kept| && |pendingTriggers| == k + |P0| - i && pending == e.kept + P0[i..]
      requires forall j :: 0 <= j < |pendingTriggers| ==> pendingTriggers[j] in Objs
      modifies pendingTriggers[k], this`pendingTriggers, this`pending, this`rstream, this`time, this`windows
      ensures Valid()
      ensures M.EmitOne(Cfg(), e, P0[i], t) ==
              M.Emission(windows, time, if kept then e.kept + [P0[i]] else e.kept, rstream)
      ensures pending == (if kept then e.kept + [P0[i]] else e.kept) + P0[i + 1..]
      ensures |pendingTriggers| == (if kept then k + 1 else k) + |P0| - (i + 1)
      ensures forall j :: 0 <= j < |pendingTriggers| ==> pendingTriggers[j] in Objs
    {
      ghost var S := pending;
      assert S[k] == P0[i] && S[..k] + S[k + 1..] == e.kept + P0[i + 1..] &&
             S == e.kept + [P0[i]] + P0[i + 1..] by {
        SplitAt(e.kept, P0, i);
      }
      ghost var pt := pendingTriggers;
      kept := EmitAt(k, t);
      assert M.EmitOne(Cfg(), e, P0[i], t) ==
             M.Emission(windows, time, if kept then e.kept + [P0[i]] else e.kept, rstream) by {
        M.EmitOneIs(Cfg(), e, P0[i], t, kept, windows, time, rstream);
      }
      if !kept {
        assert forall j :: 0 <= j < |pendingTriggers| ==> pendingTriggers[j] in Objs by {
          DeleteKeepsIn(pt, k, Objs, pendingTriggers);
        }
      }
    }

    /** Where the `forEach` of `emit_on_trigger` stands: the emission `E` has been
        reached after the first `i` objects of `P0`, the kept ones sit in front of the
        objects still to visit, and the next one to visit is at position `k`. */
    ghost predicate Progress(t: int, E0: M.Emission<Q>, P0: seq<M.Pend>, i: int, k: int, E: M.Emission<Q>,
                             Objs: set<WindowInstance>)
      reads this
    {
      0 <= i <= |P0| && k == |E.kept| && |pendingTriggers| == k + |P0| - i &&
      pending == E.kept + P0[i..] &&
      E == M.EmitAll(Cfg(), E0, P0[..i], t) && E == M.Emission(windows, time, E.kept, rstream) &&
      forall j :: 0 <= j < |pendingTriggers| ==> pendingTriggers[j] in Objs
    }

    /** One turn of the `forEach` of `emit_on_trigger` with its bookkeeping. */
    method Step(k: int, t: int, ghost E0: M.Emission<Q>, ghost E: M.Emission<Q>, ghost P0: seq<M.Pend>,
                ghost i: nat, ghost Objs: set<WindowInstance>) returns (k': int, ghost E': M.Emission<Q>)
      requires Valid() && Progress(t, E0, P0, i, k, E, Objs) && k < |pendingTriggers|
      modifies pendingTriggers[k], this`pendingTriggers, this`pending, this`rstream, this`time, this`windows
      ensures Valid() && Progress(t, E0, P0, i + 1, k', E', Objs)
    {
      var kept := Visit(k, t, E, P0, i, Objs);
      M.EmitAllStep(Cfg(), E0, P0, i, t);
      E' := M.EmitOne(Cfg(), E, P0[i], t);
      k' := if kept then k + 1 else k;
    }

    /** `emit_on_trigger(t_e)`: `Set.forEach` visits every pending object once, in
        insertion order, while the emitted ones are deleted behind it. */
    method EmitOnTrigger(t: int)
      requires Valid()
      modifies pendingTriggers, this`pendingTriggers, this`pending, this`rstream, this`time, this`windows
      ensures Valid()
      ensures M.Emission(windows, time, pending, rstream) ==
              M.EmitAll(Cfg(), M.Emission(old(windows), old(time), [], old(rstream)), old(pending), t)
      ensures forall j :: 0 <= j < |pendingTriggers| ==> pendingTriggers[j] in old(pendingTriggers)
    {
      ghost var P0 := pending;
      ghost var E0 := M.Emission(windows, time, [], rstream);
      ghost var Objs := set x | x in pendingTriggers;
      ghost var i: nat := 0;
      var k := 0;
      assert P0[..0] == [] && P0[0..] == P0;
      ghost var E := E0;
      while k < |pendingTriggers|
        invariant Valid() && Progress(t, E0, P0, i, k, E, Objs)
        decreases |P0| - i
      {
        assert pendingTriggers[k] in Objs;
        k, E := Step(k, t, E0, E, P0, i, Objs);
        i := i + 1;
      }
      assert i == |P0| && pending == E.kept + P0[i..];
      assert P0[..i] == P0 && pending == E.kept by {
        AtEnd(E.kept, P0, i);
      }
    }

    /** `check_watermark()`: the keys with `close <= watermark - max_delay` are collected,
        emission runs at the watermark, and the collected keys are deleted. */
    method CheckWatermark()
      requires Valid()
      modifies pendingTriggers, this`pendingTriggers, this`pending, this`rstream, this`time, this`windows,
               this`activeWindows
      ensures Valid()
      ensures State() == M.CheckWatermark(Cfg(), old(State()))
      ensures activeWindows.Keys <= old(activeWindows).Keys
      ensures activeWindows.Values <= old(activeWindows).Values
      ensures forall j :: 0 <= j < |pendingTriggers| ==> pendingTriggers[j] in old(pendingTriggers)
    {
      ghost var s0 := State();
      ghost var E := M.EmitAll(Cfg(), M.Emission(windows, time, [], rstream), pending, currentWatermark);
      TriggerThenEvict(currentWatermark - maxDelay);
      M.CheckWatermarkIs(Cfg(), s0, E, windows, pending);
    }

    /** The body of `check_watermark()` on the fields: the keys with `close <= bound` are
        collected, emission runs at the watermark, and the collected keys are deleted. */
    method TriggerThenEvict(bound: int)
      requires Valid()
      modifies pendingTriggers, this`pendingTriggers, this`pending, this`rstream, this`time, this`windows,
               this`activeWindows
      ensures Valid()
      ensures var E := M.EmitAll(Cfg(), M.Emission(old(windows), old(time), [], old(rstream)), old(pending),
                                 currentWatermark);
              windows == E.windows - Evictable(E.windows, bound) && pending == M.Unkey(E.kept, bound) &&
              time == E.time && rstream == E.out
      ensures activeWindows.Keys <= old(activeWindows).Keys
      ensures activeWindows.Values <= old(activeWindows).Values
      ensures forall j :: 0 <= j < |pendingTriggers| ==> pendingTriggers[j] in old(pendingTriggers)
    {
      ghost var E0 := M.Emission(windows, time, [], rstream);
      ghost var P0 := pending;
      var toEvict := CollectEvictable(activeWindows, bound);
      EmitOnTrigger(currentWatermark);
      ghost var E := M.Emission(windows, time, pending, rstream);
      assert E == M.EmitAll(Cfg(), E0, P0, currentWatermark);
      EvictWindows(toEvict, bound);
      assert windows == E.windows - Evictable(E.windows, bound) && pending == M.Unkey(E.kept, bound);
    }

    /** `update_watermark(new_time)`: only a strictly larger value is taken, and then
        `check_watermark` runs. */
    method UpdateWatermark(t: int)
      requires Valid()
      modifies pendingTriggers, this`currentWatermark, this`pendingTriggers, this`pending, this`rstream,
               this`time, this`windows, this`activeWindows
      ensures Valid()
      ensures State() == M.UpdateWatermark(Cfg(), old(State()), t)
      ensures activeWindows.Keys <= old(activeWindows).Keys
      ensures activeWindows.Values <= old(activeWindows).Values
      ensures forall j :: 0 <= j < |pendingTriggers| ==> pendingTriggers[j] in old(pendingTriggers)
    {
      if t > currentWatermark {
        currentWatermark := t;
        CheckWatermark();
      }
    }

    /** `get_window_instance(t_e)`: a new instance `[c_sup - width, c_sup)`. */
    method GetWindowInstance(t: int) returns (w: WindowInstance)
      requires Cfg().Valid()
      ensures fresh(w) && w.SpanOf() == Cfg().InstanceSpan(t) && !w.hasTriggered
    {
      var cSup := CSup(t, t0, slide);
      var o := cSup - width;
      w := new WindowInstance(o, o + width);
    }

    /** `pending_triggers.add(this.get_window_instance(t_e))`: the instance is new, so it
        is neither pending nor a key, and `Set.add` appends it. */
    method AddPendingInstance(t: int)
      requires Valid()
      modifies this`pendingTriggers, this`pending
      ensures Valid()
      ensures State() == old(State()).(pending := old(pending) + [M.Pend(Cfg().InstanceSpan(t), false, false)])
      ensures forall j :: 0 <= j < |pendingTriggers| ==>
                pendingTriggers[j] in old(pendingTriggers) || fresh(pendingTriggers[j])
    {
      var wi := GetWindowInstance(t);
      assert wi !in pendingTriggers && wi !in activeWindows;
      pendingTriggers := SetAdd(pendingTriggers, wi);
      pending := pending + [M.Pend(wi.SpanOf(), false, false)];
    }

    /** The first half of `process_event(e, t_e)`: scoping, then the insertion loop with
        the collection of the expired windows. */
    method ScopeAndInsert(e: Q, t: int) returns (toEvict: set<WindowInstance>)
      requires Valid()
      modifies this`activeWindows, this`windows, activeWindows.Values
      ensures Valid()
      ensures windows == Insert(M.Scope(Cfg(), old(State()), t).windows, e, t)
      ensures Spans(toEvict) == Evictable(M.Scope(Cfg(), old(State()), t).windows, t)
      ensures forall k :: k in toEvict <==> k in activeWindows && k.close <= t
      ensures forall c :: c in activeWindows.Values ==> c in old(activeWindows).Values || fresh(c)
    {
      Scope(t);
      toEvict := InsertEvent(e, t);
    }

    /** `process_event(e, t_e)`: scoping, insertion with collection of the expired
        windows, the watermark update, and a new pending instance for `t_e`. */
    method ProcessEvent(e: Q, t: int) returns (toEvict: set<WindowInstance>)
      requires Valid()
      modifies this`activeWindows, this`windows, activeWindows.Values, pendingTriggers,
               this`currentWatermark, this`pendingTriggers, this`pending, this`rstream, this`time
      ensures Valid()
      ensures State() == M.ProcessEvent(Cfg(), old(State()), e, t).0
      ensures Spans(toEvict) == M.ProcessEvent(Cfg(), old(State()), e, t).1
      ensures forall k :: k in activeWindows ==> (k in toEvict <==> k.close <= t)
      ensures forall c :: c in activeWindows.Values ==> c in old(activeWindows).Values || fresh(c)
      ensures forall j :: 0 <= j < |pendingTriggers| ==>
                pendingTriggers[j] in old(pendingTriggers) || fresh(pendingTriggers[j])
    {
      ghost var s0 := State();
      toEvict := ScopeAndInsert(e, t);
      ghost var s2 := State();
      assert s2 == M.Scope(Cfg(), s0, t).(windows := Insert(M.Scope(Cfg(), s0, t).windows, e, t));
      WatermarkThenPending(t);
      ghost var s3 := M.UpdateWatermark(Cfg(), s2, t);
      assert M.ProcessEvent(Cfg(), s0, e, t) == (State(), Evictable(M.Scope(Cfg(), s0, t).windows, t)) by {
        M.ProcessEventIs(Cfg(), s0, e, t, s2, s3, State());
      }
    }

    /** The second half of `process_event(e, t_e)`: the watermark update, then the
        pending instance of `t_e`. */
    method WatermarkThenPending(t: int)
      requires Valid()
      modifies pendingTriggers, this`currentWatermark, this`pendingTriggers, this`pending, this`rstream,
               this`time, this`windows, this`activeWindows
      ensures Valid()
      ensures var s3 := M.UpdateWatermark(Cfg(), old(State()), t);
        State() == s3.(pending := s3.pending + [M.Pend(Cfg().InstanceSpan(t), false, false)])
      ensures activeWindows.Keys <= old(activeWindows).Keys
      ensures activeWindows.Values <= old(activeWindows).Values
      ensures forall j :: 0 <= j < |pendingTriggers| ==>
                pendingTriggers[j] in old(pendingTriggers) || fresh(pendingTriggers[j])
    {
      UpdateWatermark(t);
      AddPendingInstance(t);
    }

    /** `if_event_late(timestamp)`: the event is behind the time cursor. */
    method IfEventLate(t: int) returns (r: bool)
      ensures r <==> time > t
    {
      r := time > t;
    }

    /** `buffer_late_event(e, timestamp)`: dropped when `time - timestamp > max_delay`,
        otherwise added to the bucket of `timestamp`, which is created (and its key
        appended to the key order) when absent. */
    method BufferLateEvent(e: Q, ts: int)
      requires LateValid()
      modifies this`lateBuffer, this`lateOrder
      ensures LateValid()
      ensures State() == M.BufferLate(old(State()), e, ts)
    {
      if time - ts > maxDelay {
        return;
      }
      if ts !in lateBuffer {
        lateBuffer := lateBuffer[ts := []];
        lateOrder := lateOrder + [ts];
      }
      var bucket := lateBuffer[ts];
      lateBuffer := lateBuffer[ts := SetAdd(bucket, e)];
    }

    /** The branch of `add(e, timestamp)` for an event at the time cursor: it is
        processed and the windows collected by `process_event` are deleted. */
    method AddInOrder(e: Q, t: int)
      requires Valid() && time == t
      modifies this`activeWindows, this`windows, activeWindows.Values, pendingTriggers,
               this`currentWatermark, this`pendingTriggers, this`pending, this`rstream, this`time
      ensures Valid()
      ensures State() == M.Add(Cfg(), old(State()), e, t)
    {
      ghost var s0 := State();
      var toEvict := ProcessEvent(e, t);
      ghost var r := State();
      EvictWindows(toEvict, t);
      M.AddIs(Cfg(), s0, e, t, r, windows, pending);
    }

    /** `add(e, timestamp)`: the time cursor is raised to the timestamp first; an event
        then behind the cursor is buffered under its own timestamp, any other is
        processed. */
    method Add(e: Q, t: int)
      requires Valid() && LateValid()
      modifies this`activeWindows, this`windows, activeWindows.Values, pendingTriggers,
               this`currentWatermark, this`pendingTriggers, this`pending, this`rstream,
               this`time, this`lateBuffer, this`lateOrder
      ensures Valid() && LateValid()
      ensures State() == M.Add(Cfg(), old(State()), e, t)
    {
      ghost var s0 := State();
      if t > time {
        SetCurrentTime(t);
      }
      ghost var s1 := State();
      M.AddCases(Cfg(), s0, e, t, s1);
      Dispatch(e, t);
    }

    /** The rest of `add(e, timestamp)` once the cursor is at or past the timestamp: an
        event behind the cursor is buffered, one at the cursor is processed. */
    method Dispatch(e: Q, t: int)
      requires Valid() && LateValid() && time >= t
      modifies this`activeWindows, this`windows, activeWindows.Values, pendingTriggers,
               this`currentWatermark, this`pendingTriggers, this`pending, this`rstream,
               this`time, this`lateBuffer, this`lateOrder
      ensures Valid() && LateValid()
      ensures State() == if old(time) > t then M.BufferLate(old(State()), e, t)
                         else M.Add(Cfg(), old(State()), e, t)
    {
      var late := IfEventLate(t);
      if late {
        BufferLateEvent(e, t);
      } else {
        AddInOrder(e, t);
      }
    }

    /** The inner `forEach` of `process_late_elements`: every element of one bucket, in
        insertion order, through `process_event`; what it returns is not evicted. */
    method ReplayBucket(ts: int, els: seq<Q>)
      requires Valid()
      modifies this`activeWindows, this`windows, activeWindows.Values, pendingTriggers,
               this`currentWatermark, this`pendingTriggers, this`pending, this`rstream, this`time
      ensures Valid()
      ensures State() == M.ReplayBucket(Cfg(), old(State()), ts, els)
      ensures forall c :: c in activeWindows.Values ==> c in old(activeWindows).Values || fresh(c)
      ensures forall j :: 0 <= j < |pendingTriggers| ==>
                pendingTriggers[j] in old(pendingTriggers) || fresh(pendingTriggers[j])
    {
      ghost var s0 := State();
      for i := 0 to |els|
        invariant Valid()
        invariant State() == M.ReplayBucket(Cfg(), s0, ts, els[..i])
        invariant forall c :: c in activeWindows.Values ==> c in old(activeWindows).Values || fresh(c)
        invariant forall j :: 0 <= j < |pendingTriggers| ==>
                    pendingTriggers[j] in old(pendingTriggers) || fresh(pendingTriggers[j])
      {
        var _ := ProcessEvent(els[i], ts);
        assert State() == M.ReplayBucket(Cfg(), s0, ts, els[..i + 1]) by {
          M.ReplayBucketStep(Cfg(), s0, ts, els, i);
        }
      }
      assert els[..|els|] == els;
    }

    /** The outer `forEach` of `process_late_elements`: the buckets in the Map's insertion
        order, each through `ReplayBucket`. */
    method ReplayAll()
      requires Valid() && LateValid()
      modifies this`activeWindows, this`windows, activeWindows.Values, pendingTriggers,
               this`currentWatermark, this`pendingTriggers, this`pending, this`rstream, this`time
      ensures Valid()
      ensures State() == M.Replay(Cfg(), old(State()), lateOrder, lateBuffer)
    {
      ghost var s0 := State();
      for i := 0 to |lateOrder|
        invariant Valid()
        invariant State() == M.Replay(Cfg(), s0, lateOrder[..i], lateBuffer)
        invariant forall c :: c in activeWindows.Values ==> c in old(activeWindows).Values || fresh(c)
        invariant forall j :: 0 <= j < |pendingTriggers| ==>
                    pendingTriggers[j] in old(pendingTriggers) || fresh(pendingTriggers[j])
      {
        assert lateOrder[i] in lateBuffer;
        ReplayBucket(lateOrder[i], lateBuffer[lateOrder[i]]);
        assert State() == M.Replay(Cfg(), s0, lateOrder[..i + 1], lateBuffer) by {
          M.ReplayStep(Cfg(), s0, lateOrder, lateBuffer, i);
        }
      }
      assert lateOrder[..|lateOrder|] == lateOrder;
    }

    /** `process_late_elements()`: every buffered event replayed, then
        `late_buffer.clear()`. */
    method ProcessLateElements()
      requires Valid() && LateValid()
      modifies this`activeWindows, this`windows, activeWindows.Values, pendingTriggers,
               this`currentWatermark, this`pendingTriggers, this`pending, this`rstream, this`time,
               this`lateBuffer, this`lateOrder
      ensures Valid() && LateValid()
      ensures State() == M.ProcessLate(Cfg(), old(State()))
    {
      ReplayAll();
      lateBuffer, lateOrder := map[], [];
    }

    /** `get_current_watermark()`. */
    method GetCurrentWatermark() returns (w: int)
      ensures w == State().watermark
    {
      w := currentWatermark;
    }

    /** `set_current_time(t)`: the time cursor is overwritten, even backwards. */
    method SetCurrentTime(t: int)
      modifies this`time
      ensures State() == old(State()).(time := t)
      ensures old(Valid()) ==> Valid()
    {
      time := t;
    }
  }
}
