/**
 * The value semantics of the earlier snapshot of the window operator
 * (src/operators/s2r.ts), on span-keyed state.  Its pending triggers are
 * distinct objects that emission looks up in the active-window map by
 * identity, so each pending entry records whether its object is itself a key
 * of that map.  The class in SrcEngine refines every function here.
 */
module SrcModel {
  import opened WindowCore
  import opened WindowMaps

  /** One pending-trigger object: its bounds, its `has_triggered` flag, and whether
      the object is a key of the active-window map. */
  datatype Pend = Pend(span: Span, triggered: bool, keyed: bool)

  /** The operator's state seen as a value.  The late buffer is a map from timestamps to
      insertion-ordered buckets, with its keys in insertion order in `lateOrder`. */
  datatype State<Q> = State(
    time: int,
    watermark: int,
    maxDelay: int,
    windows: map<Span, Win<Q>>,
    pending: seq<Pend>,
    lateOrder: seq<int>,
    late: map<int, seq<Q>>,
    out: seq<set<Q>>)

  /** No pending object is a key. */
  predicate Unkeyed(ps: seq<Pend>)
  {
    forall i :: 0 <= i < |ps| ==> !ps[i].keyed
  }

  /** What every reachable state satisfies. */
  predicate Inv<Q(==)>(c: Config, s: State<Q>)
  {
    c.Valid() && WidthInv(s.windows, c.width) && Unkeyed(s.pending) &&
    NoDup(s.lateOrder) && (forall ts :: ts in s.late ==> ts in s.lateOrder) &&
    (forall i :: 0 <= i < |s.lateOrder| ==> s.lateOrder[i] in s.late) &&
    forall ts :: ts in s.late ==> NoDup(s.late[ts])
  }

  /** The constructor's state. */
  function Initial<Q>(startTime: int, maxDelay: int): State<Q>
  {
    State(startTime, startTime, maxDelay, map[], [], [], map[], [])
  }

  // ---------------------------------------------------------------- emission

  /** `active_windows.get(window)` finds a container only for an object that is a key. */
  predicate Found<Q>(W: map<Span, Win<Q>>, p: Pend)
  {
    p.keyed && p.span in W
  }

  /** The part of the state `emit_on_trigger` threads through its `forEach`. */
  datatype Emission<Q> = Emission(windows: map<Span, Win<Q>>, time: int, kept: seq<Pend>, out: seq<set<Q>>)

  /** A pending object whose content is found and whose policy asks for emission leaves
      the pending set. */
  predicate Releases<Q>(c: Config, W: map<Span, Win<Q>>, p: Pend, t: int)
  {
    Found(W, p) && ShouldEmit(c.report, p.span.close, t)
  }

  /** A released object moves the cursor under TimeDriven with `t_e > time`. */
  predicate Moves(c: Config, time: int, t: int)
  {
    c.tick == TimeDriven && t > time
  }

  /** A released object that moves the cursor is emitted unless it had triggered under
      another policy than OnContentChange. */
  predicate Fires(c: Config, time: int, p: Pend, t: int)
  {
    Moves(c, time, t) && (!p.triggered || c.report == OnContentChange)
  }

  /** The body of the `forEach` for one pending object: without content nothing happens;
      with content and a policy that asks for emission the object leaves the pending set,
      and under TimeDriven with `t_e > time` the cursor moves to `t_e` and the content is
      emitted (and the key flagged) unless it had triggered under another policy than
      OnContentChange. */
  function EmitOne<Q>(c: Config, e: Emission<Q>, p: Pend, t: int): Emission<Q>
  {
    if Found(e.windows, p) && ShouldEmit(c.report, p.span.close, t) then
      if c.tick == TimeDriven && t > e.time then
        if !p.triggered || c.report == OnContentChange then
          var w := e.windows[p.span];
          e.(windows := e.windows[p.span := w.(triggered := true)], time := t, out := e.out + [w.elements])
        else e.(time := t)
      else e
    else e.(kept := e.kept + [p])
  }

  /** The `forEach` over the pending objects in insertion order. */
  function EmitAll<Q>(c: Config, e: Emission<Q>, ps: seq<Pend>, t: int): Emission<Q>
    decreases |ps|
  {
    if ps == [] then e
    else EmitOne(c, EmitAll(c, e, ps[..|ps| - 1], t), ps[|ps| - 1], t)
  }

  /** `EmitOne` field by field. */
  lemma EmitOneIs<Q>(c: Config, e: Emission<Q>, p: Pend, t: int, kept: bool, W: map<Span, Win<Q>>, time: int,
                     out: seq<set<Q>>)
    requires kept <==> !Releases(c, e.windows, p, t)
    requires time == if !kept && Moves(c, e.time, t) then t else e.time
    requires W == if !kept && Fires(c, e.time, p, t)
                  then e.windows[p.span := e.windows[p.span].(triggered := true)] else e.windows
    requires out == if !kept && Fires(c, e.time, p, t) then e.out + [e.windows[p.span].elements] else e.out
    ensures EmitOne(c, e, p, t) == Emission(W, time, if kept then e.kept + [p] else e.kept, out)
  {
  }

  /** One more pending object visited. */
  lemma EmitAllStep<Q>(c: Config, e: Emission<Q>, ps: seq<Pend>, i: int, t: int)
    requires 0 <= i < |ps|
    ensures EmitAll(c, e, ps[..i + 1], t) == EmitOne(c, EmitAll(c, e, ps[..i], t), ps[i], t)
  {
    assert ps[..i + 1][..i] == ps[..i];
  }

  /** `emit_on_trigger(t_e)`. */
  function EmitOnTrigger<Q>(c: Config, s: State<Q>, t: int): State<Q>
  {
    var r := EmitAll(c, Emission(s.windows, s.time, [], s.out), s.pending, t);
    s.(windows := r.windows, time := r.time, pending := r.kept, out := r.out)
  }

  /** The pending objects after the keys with `close <= bound` have been deleted. */
  function Unkey(ps: seq<Pend>, bound: int): (r: seq<Pend>)
    ensures |r| == |ps|
    decreases |ps|
  {
    if ps == [] then []
    else
      var p := ps[|ps| - 1];
      Unkey(ps[..|ps| - 1], bound) + [p.(keyed := p.keyed && p.span.close > bound)]
  }

  /** `check_watermark()`: the windows with `close <= watermark - max_delay` are collected
      first, emission runs at the watermark, and the collected windows are deleted. */
  function CheckWatermark<Q>(c: Config, s: State<Q>): State<Q>
  {
    var bound := s.watermark - s.maxDelay;
    var evict := Evictable(s.windows, bound);
    var s1 := EmitOnTrigger(c, s, s.watermark);
    s1.(windows := s1.windows - evict, pending := Unkey(s1.pending, bound))
  }

  /** Emission changes flags only: the windows keep their bounds. */
  lemma {:induction false} EmitAllKeys<Q>(c: Config, e: Emission<Q>, ps: seq<Pend>, t: int)
    ensures EmitAll(c, e, ps, t).windows.Keys == e.windows.Keys
    decreases |ps|
  {
    if ps != [] {
      EmitAllKeys(c, e, ps[..|ps| - 1], t);
    }
  }

  /** `check_watermark` field by field: emission, then deletion of the windows that
      were already expired before emission, which emission leaves in place. */
  lemma CheckWatermarkIs<Q>(c: Config, s: State<Q>, E: Emission<Q>, W: map<Span, Win<Q>>, P: seq<Pend>)
    requires E == EmitAll(c, Emission(s.windows, s.time, [], s.out), s.pending, s.watermark)
    requires W == E.windows - Evictable(E.windows, s.watermark - s.maxDelay)
    requires P == Unkey(E.kept, s.watermark - s.maxDelay)
    ensures CheckWatermark(c, s) == s.(windows := W, time := E.time, pending := P, out := E.out)
  {
    EmitAllKeys(c, Emission(s.windows, s.time, [], s.out), s.pending, s.watermark);
  }

  /** `update_watermark(new_time)`: only a strictly larger value moves the watermark. */
  function UpdateWatermark<Q>(c: Config, s: State<Q>, t: int): State<Q>
  {
    if t > s.watermark then CheckWatermark(c, s.(watermark := t)) else s
  }

  // ---------------------------------------------------------------- admission

  /** `scope(t_e)`: a do-while, so the window at the first open bound is always visited,
      even when that bound exceeds `t_e`. */
  function Scope<Q>(c: Config, s: State<Q>, t: int): State<Q>
    requires c.Valid()
  {
    var o := c.FirstOpen(t);
    s.(windows := ScopeFrom(EnsureWindow(s.windows, Span(o, o + c.width)), o + c.slide, t, c.width, c.slide))
  }

  /** The do-while's first turn, then the loop. */
  lemma ScopeIs<Q>(c: Config, s: State<Q>, t: int, o: int, W1: map<Span, Win<Q>>)
    requires c.Valid() && o == c.FirstOpen(t) && W1 == EnsureWindow(s.windows, Span(o, o + c.width))
    ensures Scope(c, s, t).windows == ScopeFrom(W1, o + c.slide, t, c.width, c.slide)
  {
  }

  /** `process_event(e, t_e)`: scope, insert, collect the windows with `close <= t_e`,
      update the watermark, and add a new pending object (never a duplicate, being new). */
  function ProcessEvent<Q>(c: Config, s: State<Q>, e: Q, t: int): (State<Q>, set<Span>)
    requires c.Valid()
  {
    var s1 := Scope(c, s, t);
    var evict := Evictable(s1.windows, t);
    var s2 := UpdateWatermark(c, s1.(windows := Insert(s1.windows, e, t)), t);
    (s2.(pending := s2.pending + [Pend(c.InstanceSpan(t), false, false)]), evict)
  }

  /** `ProcessEvent` from its intermediate states: after scoping and insertion, after
      the watermark update, and after the pending object is added. */
  lemma ProcessEventIs<Q>(c: Config, s: State<Q>, e: Q, t: int, s2: State<Q>, s3: State<Q>, s4: State<Q>)
    requires c.Valid()
    requires s2 == Scope(c, s, t).(windows := Insert(Scope(c, s, t).windows, e, t))
    requires s3 == UpdateWatermark(c, s2, t)
    requires s4 == s3.(pending := s3.pending + [Pend(c.InstanceSpan(t), false, false)])
    ensures ProcessEvent(c, s, e, t) == (s4, Evictable(Scope(c, s, t).windows, t))
  {
  }

  /** `evict_windows(to_evict)` after `process_event(e, t)`: the collected windows go, and
      pending objects among them stop being keys. */
  function EvictProcessed<Q>(s: State<Q>, evict: set<Span>, t: int): State<Q>
  {
    s.(windows := s.windows - evict, pending := Unkey(s.pending, t))
  }

  /** The windows `process_event` collects and those with `close <= t_e` among the
      windows it leaves are the same for deletion. */
  lemma ProcessEventEvict<Q>(c: Config, s: State<Q>, e: Q, t: int)
    requires c.Valid()
    ensures var r := ProcessEvent(c, s, e, t);
            r.0.windows - r.1 == r.0.windows - Evictable(r.0.windows, t)
  {
    var s1 := Scope(c, s, t);
    var W2 := Insert(s1.windows, e, t);
    assert W2.Keys == s1.windows.Keys;
    var s3 := UpdateWatermark(c, s1.(windows := W2), t);
    if t > s1.watermark {
      var s2 := s1.(windows := W2, watermark := t);
      EmitAllKeys(c, Emission(s2.windows, s2.time, [], s2.out), s2.pending, t);
    }
    assert s3.windows.Keys <= W2.Keys;
    var W := s3.windows;
    var A := W - Evictable(s1.windows, t);
    var B := W - Evictable(W, t);
    assert A.Keys == B.Keys;
    forall sp | sp in A ensures A[sp] == B[sp] { }
  }

  /** `Add` of an event that is not late, stated with the state `process_event`
      leaves. */
  lemma AddIs<Q>(c: Config, s: State<Q>, e: Q, t: int, r: State<Q>, W: map<Span, Win<Q>>, P: seq<Pend>)
    requires c.Valid() && s.time <= t && r == ProcessEvent(c, s.(time := t), e, t).0
    requires W == r.windows - Evictable(r.windows, t) && P == Unkey(r.pending, t)
    ensures Add(c, s, e, t) == r.(windows := W, pending := P)
  {
    ProcessEventEvict(c, s.(time := t), e, t);
  }

  /** The bucket of the late buffer at a timestamp (`undefined` read as empty). */
  function Bucket<Q>(late: map<int, seq<Q>>, ts: int): seq<Q>
  {
    if ts in late then late[ts] else []
  }

  /** `buffer_late_event(e, timestamp)`: dropped when `time - timestamp > max_delay`;
      otherwise a new bucket is created when absent and the event is added to it. */
  function BufferLate<Q(==)>(s: State<Q>, e: Q, ts: int): State<Q>
  {
    if s.time - ts > s.maxDelay then s
    else if ts in s.late then s.(late := s.late[ts := SetAdd(s.late[ts], e)])
    else s.(late := s.late[ts := SetAdd([], e)], lateOrder := s.lateOrder + [ts])
  }

  /** `add(e, timestamp)`: the cursor is raised to the timestamp first; an event below the
      previous cursor is then late and buffered under its own timestamp; otherwise it is
      processed and the collected windows are evicted. */
  function Add<Q(==)>(c: Config, s: State<Q>, e: Q, t: int): State<Q>
    requires c.Valid()
  {
    var s1 := if t > s.time then s.(time := t) else s;
    if s1.time > t then BufferLate(s1, e, t)
    else
      var (s2, evict) := ProcessEvent(c, s1, e, t);
      EvictProcessed(s2, evict, t)
  }

  /** `Add` after the cursor has been raised: buffering of a late event, or `Add` of
      an event at the cursor. */
  lemma AddCases<Q>(c: Config, s: State<Q>, e: Q, t: int, s1: State<Q>)
    requires c.Valid() && s1 == if t > s.time then s.(time := t) else s
    ensures s1.time > t ==> Add(c, s, e, t) == BufferLate(s1, e, t)
    ensures s1.time <= t ==> s1.time == t && Add(c, s, e, t) == Add(c, s1, e, t)
  {
  }

  // ---------------------------------------------------------------- late replay

  /** One bucket through `process_event`, in insertion order; its returned sets are dropped. */
  function ReplayBucket<Q>(c: Config, s: State<Q>, ts: int, els: seq<Q>): State<Q>
    requires c.Valid()
    decreases |els|
  {
    if els == [] then s
    else ProcessEvent(c, ReplayBucket(c, s, ts, els[..|els| - 1]), els[|els| - 1], ts).0
  }

  /** One more event of a bucket replayed. */
  lemma ReplayBucketStep<Q>(c: Config, s: State<Q>, ts: int, els: seq<Q>, i: int)
    requires c.Valid() && 0 <= i < |els|
    ensures ReplayBucket(c, s, ts, els[..i + 1]) == ProcessEvent(c, ReplayBucket(c, s, ts, els[..i]), els[i], ts).0
  {
    assert els[..i + 1][..i] == els[..i];
  }

  /** The buckets of `late` in the order of `keys`. */
  function Replay<Q>(c: Config, s: State<Q>, keys: seq<int>, late: map<int, seq<Q>>): State<Q>
    requires c.Valid()
    decreases |keys|
  {
    if keys == [] then s
    else
      var ts := keys[|keys| - 1];
      ReplayBucket(c, Replay(c, s, keys[..|keys| - 1], late), ts, Bucket(late, ts))
  }

  /** One more bucket replayed. */
  lemma ReplayStep<Q>(c: Config, s: State<Q>, keys: seq<int>, late: map<int, seq<Q>>, i: int)
    requires c.Valid() && 0 <= i < |keys|
    ensures Replay(c, s, keys[..i + 1], late) == ReplayBucket(c, Replay(c, s, keys[..i], late), keys[i], Bucket(late, keys[i]))
  {
    assert keys[..i + 1][..i] == keys[..i];
  }

  /** `process_late_elements()`: every bucket in the Map's insertion order, every event in
      its bucket's insertion order, through `process_event`; then the buffer is cleared. */
  function ProcessLate<Q>(c: Config, s: State<Q>): State<Q>
    requires c.Valid()
  {
    Replay(c, s, s.lateOrder, s.late).(late := map[], lateOrder := [])
  }
}
