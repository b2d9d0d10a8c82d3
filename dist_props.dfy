/**
 * What the later snapshot of the window operator (dist/operators/s2r.js)
 * promises, proved about the value semantics of DistModel: the reachable-state
 * invariant, the watermark and eviction rules, the emission rules per report
 * policy, de-duplication of pending triggers, the lateness branch of `add` and
 * the late-buffer replay.
 */
module DistProps {
  import opened WindowCore
  import opened WindowMaps
  import opened Sorting
  import opened DistModel

  // ---------------------------------------------------------------- scoping

  /** `scope(t)` keeps every window it finds, gives each new span an empty window, and
      creates exactly the absent spans [o, o + width) for o = c_sup - width + k * slide,
      o <= t; in particular nothing at all when c_sup - width > t. */
  lemma ScopeSpec<Q>(c: Config, s: State<Q>, t: int)
    requires c.Valid()
    ensures var W := Scope(c, s, t).windows;
            (forall sp :: sp in W <==> sp in s.windows || Aligned(sp, c.FirstOpen(t), t, c.width, c.slide)) &&
            (forall sp :: sp in s.windows ==> W[sp] == s.windows[sp]) &&
            (forall sp :: sp in W && sp !in s.windows ==> W[sp] == EmptyWin())
    ensures c.FirstOpen(t) > t ==> Scope(c, s, t) == s
    ensures Scope(c, s, t).(windows := s.windows) == s
  {
    ScopeFromSpec(s.windows, c.FirstOpen(t), t, c.width, c.slide);
  }

  // ---------------------------------------------------------------- the invariant

  /** Scoping t = 4 on an empty operator with width 10, slide 2 and t0 = 0 opens the six
      windows [-6, 4), [-4, 6), [-2, 8), [0, 10), [2, 12) and [4, 14). */
  lemma ScopeSixWindows<Q>(c: Config, s: State<Q>)
    requires c.width == 10 && c.slide == 2 && c.t0 == 0 && s.windows == map[]
    ensures Scope(c, s, 4).windows.Keys ==
            {Span(-6, 4), Span(-4, 6), Span(-2, 8), Span(0, 10), Span(2, 12), Span(4, 14)}
  {
    assert c.FirstOpen(4) == -6 by { assert CSup(4, 0, 2) == 4; }
    var W := Scope(c, s, 4).windows;
    var S := {Span(-6, 4), Span(-4, 6), Span(-2, 8), Span(0, 10), Span(2, 12), Span(4, 14)};
    forall sp ensures sp in W.Keys <==> sp in S {
      assert sp in W <==> Aligned(sp, -6, 4, 10, 2) by { ScopeSpec(c, s, 4); }
      AlignedExample(sp);
    }
  }

  lemma ScopeWidth<Q>(c: Config, s: State<Q>, t: int)
    requires c.Valid() && WidthInv(s.windows, c.width)
    ensures WidthInv(Scope(c, s, t).windows, c.width)
  {
    ScopeFromSpec(s.windows, c.FirstOpen(t), t, c.width, c.slide);
  }

  /** Appending a span that is not pending keeps the pending spans unique. */
  lemma AppendUnique(ps: seq<Inst>, x: Inst)
    requires PendingSpansUnique(ps) && !HasSpan(ps, x.span)
    ensures PendingSpansUnique(ps + [x])
  {
    var r := ps + [x];
    assert r[..|r| - 1] == ps;
  }

  lemma AddPendingInv<Q>(c: Config, s: State<Q>, t: int)
    requires Inv(c, s)
    ensures Inv(c, AddPending(c, s, t))
  {
    if !HasSpan(s.pending, c.InstanceSpan(t)) {
      AppendUnique(s.pending, Inst(c.InstanceSpan(t), false));
    }
  }

  lemma EvictAndTriggerInv<Q>(c: Config, s: State<Q>)
    requires Inv(c, s)
    ensures Inv(c, EvictAndTrigger(c, s))
    ensures EvictAndTrigger(c, s).late == s.late
  {
    KeptUnique(c, s.windows, s.pending, s.watermark);
  }

  lemma UpdateWatermarkInv<Q>(c: Config, s: State<Q>, t: int)
    requires Inv(c, s)
    ensures Inv(c, UpdateWatermark(c, s, t))
    ensures UpdateWatermark(c, s, t).late == s.late
  {
    if t > s.watermark {
      EvictAndTriggerInv(c, s.(watermark := t));
    }
  }

  /** `process_event` keeps the invariant and never touches the late buffer. */
  lemma ProcessEventInv<Q>(c: Config, s: State<Q>, e: Q, t: int)
    requires Inv(c, s)
    ensures Inv(c, ProcessEvent(c, s, e, t).0)
    ensures ProcessEvent(c, s, e, t).0.late == s.late
  {
    ScopeWidth(c, s, t);
    var s1 := Scope(c, s, t);
    var s2 := s1.(windows := Insert(s1.windows, e, t));
    assert Inv(c, s2);
    UpdateWatermarkInv(c, s2, t);
    AddPendingInv(c, UpdateWatermark(c, s2, t), t);
  }

  /** `add` keeps the invariant: windows keep the operator's width, pending spans stay
      unique, and every late bucket stays duplicate-free. */
  lemma AddInv<Q>(c: Config, s: State<Q>, e: Q, t: int)
    requires Inv(c, s)
    ensures Inv(c, Add(c, s, e, t))
  {
    if s.time > t {
      if s.time - s.time <= s.maxDelay {
        var b := Bucket(s.late, s.time);
        assert NoDup(b);
      }
    } else {
      ProcessEventInv(c, s, e, t);
    }
  }

  lemma {:induction false} ReplayBucketInv<Q>(c: Config, s: State<Q>, ts: int, els: seq<Q>)
    requires Inv(c, s)
    ensures Inv(c, ReplayBucket(c, s, ts, els))
    ensures ReplayBucket(c, s, ts, els).late == s.late
    decreases |els|
  {
    if els != [] {
      ReplayBucketInv(c, s, ts, els[..|els| - 1]);
      ProcessEventInv(c, ReplayBucket(c, s, ts, els[..|els| - 1]), els[|els| - 1], ts);
    }
  }

  lemma {:induction false} ReplayInv<Q>(c: Config, s: State<Q>, keys: seq<int>, late: map<int, seq<Q>>)
    requires Inv(c, s)
    requires forall i :: 0 <= i < |keys| ==> keys[i] in late
    ensures Inv(c, Replay(c, s, keys, late))
    ensures Replay(c, s, keys, late).late == s.late
    decreases |keys|
  {
    if keys != [] {
      var init := keys[..|keys| - 1];
      ReplayInv(c, s, init, late);
      ReplayBucketInv(c, Replay(c, s, init, late), keys[|keys| - 1], late[keys[|keys| - 1]]);
    }
  }

  /** Replaying the late buffer keeps the invariant and leaves the buffer empty: the
      events go through `process_event`, which never re-buffers. */
  lemma ProcessLateInv<Q>(c: Config, s: State<Q>)
    requires Inv(c, s)
    ensures Inv(c, ProcessLate(c, s))
    ensures ProcessLate(c, s).late == map[]
  {
    if |s.late| != 0 {
      ReplayInv(c, s, SortedKeys(s.late.Keys), s.late);
    }
  }

  /** The constructor's state satisfies the invariant. */
  lemma InitialInv<Q>(c: Config, startTime: int, maxDelay: int)
    requires c.Valid()
    ensures Inv(c, Initial<Q>(startTime, maxDelay))
  {
  }

  // ---------------------------------------------------------------- watermark

  /** `update_watermark(t)` moves the watermark to max(watermark, t), and is the identity
      when t does not exceed it. */
  lemma UpdateWatermarkMonotone<Q>(c: Config, s: State<Q>, t: int)
    ensures UpdateWatermark(c, s, t).watermark == if t > s.watermark then t else s.watermark
    ensures UpdateWatermark(c, s, t).watermark >= s.watermark
    ensures t <= s.watermark ==> UpdateWatermark(c, s, t) == s
  {
  }

  /** `evict_and_trigger_on_watermark` deletes exactly the windows with
      close <= watermark - max_delay, leaves the others as they were, and keeps the
      cursor, watermark and late buffer. */
  lemma EvictAndTriggerWindows<Q>(c: Config, s: State<Q>)
    ensures var r := EvictAndTrigger(c, s);
            (forall sp :: sp in r.windows <==> sp in s.windows && sp.close > s.watermark - s.maxDelay) &&
            (forall sp :: sp in r.windows ==> r.windows[sp] == s.windows[sp]) &&
            r.time == s.time && r.watermark == s.watermark && r.late == s.late
  {
  }

  /** With max_delay 5 and the windows [0, 10) and [5, 15) at watermark 0, raising the
      watermark to 25 evicts both, and raising it to 10 evicts neither. */
  lemma WatermarkExample<Q>(c: Config, s: State<Q>)
    requires s.windows.Keys == {Span(0, 10), Span(5, 15)} && s.maxDelay == 5 && s.watermark == 0
    ensures UpdateWatermark(c, s, 25).windows == map[]
    ensures UpdateWatermark(c, s, 10).windows == s.windows
  {
    EvictAndTriggerWindows(c, s.(watermark := 25));
    EvictAndTriggerWindows(c, s.(watermark := 10));
    assert UpdateWatermark(c, s, 25).windows.Keys == {};
  }

  // ---------------------------------------------------------------- emission

  lemma {:induction false} FiredEmpty<Q>(c: Config, W: map<Span, Win<Q>>, ps: seq<Inst>, t: int)
    requires c.report == NonEmptyContent || c.report == Periodic
    ensures Fired(c, W, ps, t) == [] && Kept(c, W, ps, t) == ps
  {
    if ps != [] {
      var init := ps[..|ps| - 1];
      var last := ps[|ps| - 1];
      FiredEmpty(c, W, init, t);
      assert !ShouldEmit(c.report, last.span.close, t);
      assert Kept(c, W, ps, t) == Kept(c, W, init, t) + [last];
      assert init + [last] == ps;
    }
  }

  /** Under NonEmptyContent and Periodic the trigger step emits nothing and keeps every
      pending instance. */
  lemma NeverEmits<Q>(c: Config, s: State<Q>, t: int)
    requires c.report == NonEmptyContent || c.report == Periodic
    ensures EmitOnTrigger(c, s, t) == s
  {
    FiredEmpty(c, s.windows, s.pending, t);
  }

  /** Every emitted content is the non-empty content of a window that was pending,
      closed by `t` under OnWindowClose, and not triggered. */
  lemma {:induction false} FiredNonEmpty<Q>(c: Config, W: map<Span, Win<Q>>, ps: seq<Inst>, t: int)
    ensures forall x :: x in Fired(c, W, ps, t) ==> |x| > 0
    ensures forall x :: x in Fired(c, W, ps, t) ==>
              exists p :: p in ps && Fires(c, W, p, t) && x == W[p.span].elements
    ensures |Fired(c, W, ps, t)| <= |ps|
  {
    if ps != [] {
      var init := ps[..|ps| - 1];
      var last := ps[|ps| - 1];
      FiredNonEmpty(c, W, init, t);
      forall x | x in Fired(c, W, ps, t)
        ensures exists p :: p in ps && Fires(c, W, p, t) && x == W[p.span].elements
      {
        if x in Fired(c, W, init, t) {
          var p :| p in init && Fires(c, W, p, t) && x == W[p.span].elements;
          assert p in ps;
        } else {
          assert last in ps;
        }
      }
    }
  }

  /** An instance stays pending exactly when it is not released: released instances go,
      and no other pending instance is lost. */
  lemma {:induction false} KeptExactly<Q>(c: Config, W: map<Span, Win<Q>>, ps: seq<Inst>, t: int)
    ensures forall p :: p in Kept(c, W, ps, t) <==> p in ps && !Released(c, W, p, t)
  {
    if ps != [] {
      KeptExactly(c, W, ps[..|ps| - 1], t);
      assert forall p :: p in ps <==> p in ps[..|ps| - 1] || p == ps[|ps| - 1] by {
        assert ps == ps[..|ps| - 1] + [ps[|ps| - 1]];
      }
    }
  }

  /** Emission at most once: an instance that fires leaves the pending set, so the same
      instance cannot fire at a later trigger. */
  lemma FiredLeaves<Q>(c: Config, s: State<Q>, t: int, p: Inst)
    requires p in s.pending && Fires(c, s.windows, p, t)
    ensures p !in EmitOnTrigger(c, s, t).pending
  {
    KeptExactly(c, s.windows, s.pending, t);
  }

  /** An instance whose flag was already raised is never emitted again. */
  lemma TriggeredNeverFires<Q>(c: Config, W: map<Span, Win<Q>>, p: Inst, t: int)
    requires p.triggered
    ensures !Fires(c, W, p, t)
  {
  }

  /** Under OnWindowClose an emitted window is closed by the trigger time. */
  lemma OnCloseFiresClosed<Q>(c: Config, W: map<Span, Win<Q>>, p: Inst, t: int)
    requires c.report == OnWindowClose && Fires(c, W, p, t)
    ensures p.span.close <= t
  {
  }

  // ---------------------------------------------------------------- pending triggers

  /** `add_window_instance_to_pending_triggers(t)` makes the span of `t` pending, leaves
      everything unchanged when it already is, and applying it twice is applying it once. */
  lemma AddPendingIdempotent<Q>(c: Config, s: State<Q>, t: int)
    requires c.Valid()
    ensures HasSpan(AddPending(c, s, t).pending, c.InstanceSpan(t))
    ensures HasSpan(s.pending, c.InstanceSpan(t)) ==> AddPending(c, s, t) == s
    ensures AddPending(c, AddPending(c, s, t), t) == AddPending(c, s, t)
  {
    var sp := c.InstanceSpan(t);
    if !HasSpan(s.pending, sp) {
      var r := s.pending + [Inst(sp, false)];
      assert r[|r| - 1].span == sp;
    }
  }

  // ---------------------------------------------------------------- add

  /** A late event (timestamp below the cursor) is filed under the cursor itself, so with
      a non-negative delay it is never dropped; windows, pending triggers, watermark,
      cursor and output are untouched. */
  lemma AddLate<Q>(c: Config, s: State<Q>, e: Q, t: int)
    requires c.Valid() && s.time > t
    ensures var r := Add(c, s, e, t);
            r.windows == s.windows && r.pending == s.pending && r.watermark == s.watermark &&
            r.time == s.time && r.out == s.out
    ensures s.maxDelay >= 0 ==>
              Add(c, s, e, t).late == s.late[s.time := SetAdd(Bucket(s.late, s.time), e)]
    ensures s.maxDelay < 0 ==> Add(c, s, e, t) == s
    ensures s.maxDelay >= 0 ==> e in Add(c, s, e, t).late[s.time]
  {
  }

  /** After `process_event` every window is one that scoping left, holding what the
      insertion loop put in it: the watermark step only deletes windows. */
  lemma ProcessEventWindows<Q>(c: Config, s: State<Q>, e: Q, t: int)
    requires c.Valid()
    ensures var W := ProcessEvent(c, s, e, t).0.windows;
            var I := Insert(Scope(c, s, t).windows, e, t);
            W.Keys <= I.Keys && forall sp :: sp in W ==> W[sp] == I[sp]
  {
    var s1 := Scope(c, s, t);
    var s2 := s1.(windows := Insert(s1.windows, e, t));
    var s3 := UpdateWatermark(c, s2, t);
    assert s3.windows.Keys <= s2.windows.Keys;
    assert AddPending(c, s3, t).windows == s3.windows;
  }

  /** An event that is not late moves the cursor to its timestamp; afterwards no window
      is closed by the timestamp, every window covering it holds the event, and every
      window opening after it that was there before is unchanged in content. */
  lemma AddInOrder<Q>(c: Config, s: State<Q>, e: Q, t: int)
    requires Inv(c, s) && s.time <= t
    ensures var r := Add(c, s, e, t);
            r.time == t && r.late == s.late &&
            (forall sp :: sp in r.windows ==> sp.close > t) &&
            (forall sp :: sp in r.windows && sp.open <= t ==> e in r.windows[sp].elements) &&
            (forall sp :: sp in r.windows && sp in s.windows && t < sp.open ==>
               r.windows[sp].elements == s.windows[sp].elements)
  {
    var r0 := ProcessEvent(c, s, e, t).0;
    var S := Scope(c, s, t).windows;
    var I := Insert(S, e, t);
    ProcessEventWindows(c, s, e, t);
    ProcessEventEvict(c, s, e, t);
    ProcessEventInv(c, s, e, t);
    ScopeSpec(c, s, t);
    var r := Add(c, s, e, t);
    assert r.windows == r0.windows - Evictable(r0.windows, t);
    forall sp | sp in r.windows
      ensures sp.close > t && r.windows[sp] == I[sp]
    {
      assert sp in r0.windows;
    }
  }

  // ---------------------------------------------------------------- where replayed events land

  /** The cursor and every late-buffer key are at or below the watermark, so that
      replaying the buffer never moves the watermark. */
  predicate BelowWatermark<Q>(s: State<Q>)
  {
    s.time <= s.watermark && forall ts :: ts in s.late ==> ts <= s.watermark
  }

  /** The constructor's state is below its watermark. */
  lemma InitialBelow<Q>(startTime: int, maxDelay: int)
    ensures BelowWatermark(Initial<Q>(startTime, maxDelay))
  {
  }

  /** `add` keeps the cursor and the late buffer at or below the watermark: a late event
      is filed under the cursor, and a processed one raises the watermark to its
      timestamp before the cursor follows. */
  lemma AddBelow<Q>(c: Config, s: State<Q>, e: Q, t: int)
    requires Inv(c, s) && BelowWatermark(s)
    ensures BelowWatermark(Add(c, s, e, t))
  {
    if s.time <= t {
      var r := ProcessEvent(c, s, e, t).0;
      ProcessEventInv(c, s, e, t);
      assert r.watermark >= t && r.time == s.time by {
        var s2 := Scope(c, s, t).(windows := Insert(Scope(c, s, t).windows, e, t));
        ScopeSpec(c, s, t);
        UpdateWatermarkMonotone(c, s2, t);
        if t > s2.watermark {
          EvictAndTriggerWindows(c, s2.(watermark := t));
        }
      }
    }
  }

  /** An event at or below the watermark: `process_event` only scopes and inserts, and
      registers its pending instance. */
  lemma ProcessEventBelow<Q>(c: Config, s: State<Q>, e: Q, t: int)
    requires c.Valid() && t <= s.watermark
    ensures var r := ProcessEvent(c, s, e, t).0;
            r.windows == Insert(Scope(c, s, t).windows, e, t) &&
            r.(windows := s.windows, pending := s.pending) == s
  {
    ScopeSpec(c, s, t);
  }

  /** Windows holding every span that scoping t visits are left as they are by it. */
  lemma ScopeAgain<Q>(c: Config, s: State<Q>, s': State<Q>, t: int)
    requires c.Valid() && s'.windows.Keys == Scope(c, s, t).windows.Keys
    ensures Scope(c, s', t).windows.Keys == s'.windows.Keys
  {
    ScopeSpec(c, s, t);
    ScopeSpec(c, s', t);
  }

  /** A bucket replayed at a key at or below the watermark changes only the windows and
      the pending instances. */
  lemma {:induction false} ReplayBucketKeeps<Q>(c: Config, s: State<Q>, ts: int, els: seq<Q>)
    requires c.Valid() && ts <= s.watermark
    ensures ReplayBucket(c, s, ts, els).(windows := s.windows, pending := s.pending) == s
    decreases |els|
  {
    if els != [] {
      ReplayBucketKeeps(c, s, ts, els[..|els| - 1]);
      ProcessEventBelow(c, ReplayBucket(c, s, ts, els[..|els| - 1]), els[|els| - 1], ts);
    }
  }

  /** A bucket replayed at a key at or below the watermark: no window is lost or shrinks,
      a window not covering the key is untouched, every scoped window is present once an
      event has been replayed, and every window covering the key holds every event of
      the bucket. */
  lemma {:induction false} ReplayBucketLands<Q>(c: Config, s: State<Q>, ts: int, els: seq<Q>)
    requires c.Valid() && ts <= s.watermark
    ensures var r := ReplayBucket(c, s, ts, els);
            Grown(s.windows, r.windows) &&
            (forall sp :: sp in s.windows && !sp.Contains(ts) ==> r.windows[sp] == s.windows[sp]) &&
            (els != [] ==> Scope(c, r, ts).windows.Keys == r.windows.Keys) &&
            Landed(r.windows, r.windows, ts, els)
    decreases |els|
  {
    if els != [] {
      var init := els[..|els| - 1];
      var x := els[|els| - 1];
      ReplayBucketLands(c, s, ts, init);
      var r' := ReplayBucket(c, s, ts, init);
      var r := ReplayBucket(c, s, ts, els);
      var S := Scope(c, r', ts).windows;
      assert r.windows == Insert(S, x, ts) by {
        ReplayBucketKeeps(c, s, ts, init);
        ProcessEventBelow(c, r', x, ts);
      }
      assert forall sp :: sp in r'.windows ==> sp in S && S[sp] == r'.windows[sp] by {
        ScopeSpec(c, r', ts);
      }
      InsertGrows(r'.windows, S, x, ts);
      GrownTrans(s.windows, r'.windows, r.windows);
      ScopeAgain(c, r', r, ts);
      LandsStep(r'.windows, S, ts, init, els);
    }
  }

  /** Replaying buckets at keys at or below the watermark keeps the watermark and the
      cursor. */
  lemma {:induction false} ReplayKeepsWatermark<Q>(c: Config, s: State<Q>, keys: seq<int>, late: map<int, seq<Q>>)
    requires c.Valid() && forall i :: 0 <= i < |keys| ==> keys[i] in late && keys[i] <= s.watermark
    ensures Replay(c, s, keys, late).watermark == s.watermark && Replay(c, s, keys, late).time == s.time
    decreases |keys|
  {
    if keys != [] {
      var init := keys[..|keys| - 1];
      ReplayKeepsWatermark(c, s, init, late);
      ReplayBucketKeeps(c, Replay(c, s, init, late), keys[|keys| - 1], late[keys[|keys| - 1]]);
    }
  }

  /** The buckets replayed after the first `j` only add to the windows the first `j`
      left. */
  lemma {:induction false} ReplayGrows<Q>(c: Config, s: State<Q>, keys: seq<int>, late: map<int, seq<Q>>, j: int)
    requires c.Valid() && (forall i :: 0 <= i < |keys| ==> keys[i] in late && keys[i] <= s.watermark)
    requires 0 <= j <= |keys|
    ensures Grown(Replay(c, s, keys[..j], late).windows, Replay(c, s, keys, late).windows)
    decreases |keys|
  {
    if j == |keys| {
      assert keys[..j] == keys;
    } else {
      var init := keys[..|keys| - 1];
      var last := keys[|keys| - 1];
      assert init[..j] == keys[..j];
      ReplayGrows(c, s, init, late, j);
      ReplayKeepsWatermark(c, s, init, late);
      ReplayBucketLands(c, Replay(c, s, init, late), last, late[last]);
    }
  }

  /** `process_late_elements()` in a reachable state loses or shrinks no window, keeps
      the watermark and the cursor, and leaves the state below its watermark. */
  lemma ProcessLateGrows<Q>(c: Config, s: State<Q>)
    requires Inv(c, s) && BelowWatermark(s)
    ensures var r := ProcessLate(c, s);
            Grown(s.windows, r.windows) && r.watermark == s.watermark && r.time == s.time && BelowWatermark(r)
  {
    if |s.late| != 0 {
      var keys := SortedKeys(s.late.Keys);
      var R := Replay(c, s, keys, s.late);
      ProcessLateIs(c, s, keys, R);
      assert forall k :: 0 <= k < |keys| ==> keys[k] in s.late && keys[k] <= s.watermark;
      ReplayKeepsWatermark(c, s, keys, s.late);
      ReplayGrows(c, s, keys, s.late, 0);
      assert keys[..0] == [];
    }
  }

  /** Once the bucket at `keys[i]` has been replayed, every window covering that key
      holds each of its events. */
  lemma PrefixLands<Q>(c: Config, s: State<Q>, keys: seq<int>, late: map<int, seq<Q>>, i: int)
    requires c.Valid() && (forall k :: 0 <= k < |keys| ==> keys[k] in late && keys[k] <= s.watermark)
    requires 0 <= i < |keys|
    ensures var mid := Replay(c, s, keys[..i + 1], late);
            Landed(mid.windows, mid.windows, keys[i], late[keys[i]])
  {
    var ts := keys[i];
    var pre := Replay(c, s, keys[..i], late);
    assert pre.watermark == s.watermark by {
      ReplayKeepsWatermark(c, s, keys[..i], late);
    }
    assert Replay(c, s, keys[..i + 1], late) == ReplayBucket(c, pre, ts, late[ts]) by {
      ReplayStep(c, s, keys, late, i);
    }
    ReplayBucketLands(c, pre, ts, late[ts]);
  }

  /** After replaying `keys`, each event of the bucket at `keys[i]` is in every window
      covering that key that was there once the bucket had been replayed. */
  lemma ReplayLands<Q>(c: Config, s: State<Q>, keys: seq<int>, late: map<int, seq<Q>>, i: int)
    requires c.Valid() && (forall k :: 0 <= k < |keys| ==> keys[k] in late && keys[k] <= s.watermark)
    requires 0 <= i < |keys|
    ensures var ts := keys[i];
            var mid := Replay(c, s, keys[..i + 1], late);
            var R := Replay(c, s, keys, late);
            (i == |keys| - 1 ==> mid.windows == R.windows) &&
            Landed(mid.windows, R.windows, ts, late[ts])
  {
    var ts := keys[i];
    var mid := Replay(c, s, keys[..i + 1], late);
    var R := Replay(c, s, keys, late);
    PrefixLands(c, s, keys, late, i);
    assert Grown(mid.windows, R.windows) by {
      ReplayGrows(c, s, keys, late, i + 1);
    }
    LandedGrown(mid.windows, R.windows, ts, late[ts]);
    if i == |keys| - 1 {
      assert keys[..i + 1] == keys;
    }
  }

  /** `process_late_elements()` in a reachable state: each buffered event is, afterwards,
      in every window covering its bucket's key that was there once its bucket had been
      replayed; for the last bucket these are all the active windows covering its key.
      The key is the cursor at the time the event was buffered, not the event's own
      timestamp. */
  lemma ProcessLateLands<Q>(c: Config, s: State<Q>, i: int)
    requires c.Valid() && BelowWatermark(s) && 0 <= i < |SortedKeys(s.late.Keys)|
    ensures var keys := SortedKeys(s.late.Keys);
            var mid := Replay(c, s, keys[..i + 1], s.late);
            var r := ProcessLate(c, s);
            (i == |keys| - 1 ==> mid.windows == r.windows) &&
            Landed(mid.windows, r.windows, keys[i], s.late[keys[i]])
  {
    var keys := SortedKeys(s.late.Keys);
    var R := Replay(c, s, keys, s.late);
    assert ProcessLate(c, s).windows == R.windows by {
      ProcessLateIs(c, s, keys, R);
    }
    assert forall k :: 0 <= k < |keys| ==> keys[k] in s.late && keys[k] <= s.watermark;
    ReplayLands(c, s, keys, s.late, i);
  }

  /** A late event kept on an empty buffer is filed under the cursor and replayed there:
      afterwards it is in every active window covering the cursor, while a window that
      covers only the event's own timestamp is untouched and does not receive it. */
  lemma LateReplayedAtCursor<Q>(c: Config, s: State<Q>, e: Q, t: int)
    requires Inv(c, s) && BelowWatermark(s) && s.late == map[]
    requires t < s.time && s.maxDelay >= 0
    ensures var r := ProcessLate(c, Add(c, s, e, t));
            Grown(s.windows, r.windows) &&
            (forall sp :: sp in r.windows && sp.Contains(s.time) ==> e in r.windows[sp].elements) &&
            (forall sp :: sp in s.windows && !sp.Contains(s.time) ==> r.windows[sp] == s.windows[sp])
  {
    var s1 := Add(c, s, e, t);
    assert s1 == s.(late := map[s.time := [e]]) by {
      AddLate(c, s, e, t);
      assert SetAdd([], e) == [e];
    }
    var keys := SortedKeys(s1.late.Keys);
    assert keys == [s.time] by {
      assert s1.late.Keys == {s.time};
      SortedUnique(keys, [s.time]);
    }
    var R := ReplayBucket(c, s1, s.time, [e]);
    assert Replay(c, s1, keys, s1.late) == R by {
      assert keys[..0] == [];
    }
    assert ProcessLate(c, s1).windows == R.windows by {
      ProcessLateIs(c, s1, keys, R);
    }
    ReplayBucketLands(c, s1, s.time, [e]);
  }

  // ---------------------------------------------------------------- a report scenario

  /** The operator of the scenario `should trigger on window change`: width 10, slide 5,
      OnWindowClose. */
  function ScenarioConfig(): Config
  {
    Config(10, 5, 0, OnWindowClose, TimeDriven)
  }

  /** Scoping 1 on a fresh operator opens [-5, 5) and [0, 10). */
  lemma ScenarioScope<Q>(c: Config, s0: State<Q>)
    requires c == ScenarioConfig() && s0 == Initial<Q>(0, 2)
    ensures Scope(c, s0, 1).windows == map[Span(-5, 5) := EmptyWin<Q>(), Span(0, 10) := EmptyWin<Q>()]
  {
    assert CSup(1, 0, 5) == 5 by {
      assert CeilDiv(1, 5) == 1;
    }
    var A := Span(-5, 5);
    var W1 := map[A := EmptyWin<Q>(), Span(0, 10) := EmptyWin<Q>()];
    assert ScopeFrom(s0.windows, -5, 1, 10, 5) == ScopeFrom(map[A := EmptyWin<Q>()], 0, 1, 10, 5);
    assert ScopeFrom(map[A := EmptyWin<Q>()], 0, 1, 10, 5) == ScopeFrom(W1, 5, 1, 10, 5);
  }

  /** Inserting q at 1 into the two fresh windows: both cover 1, so both take q; neither
      has expired at 1. */
  lemma ScenarioInsert<Q>(W1: map<Span, Win<Q>>, q: Q)
    requires W1 == map[Span(-5, 5) := EmptyWin<Q>(), Span(0, 10) := EmptyWin<Q>()]
    ensures Insert(W1, q, 1) == map[Span(-5, 5) := Win({q}, 1, false), Span(0, 10) := Win({q}, 1, false)]
    ensures Evictable(W1, 1) == {}
  {
    var A := Span(-5, 5);
    var B := Span(0, 10);
    var W2 := map[A := Win({q}, 1, false), B := Win({q}, 1, false)];
    assert A.Contains(1) && B.Contains(1);
    assert Insert(W1, q, 1).Keys == W2.Keys;
    assert Insert(W1, q, 1)[A] == W2[A];
    assert Insert(W1, q, 1)[B] == W2[B];
  }

  /** The watermark moves to 1 and evicts nothing. */
  lemma ScenarioMark<Q>(c: Config, s2: State<Q>, q: Q)
    requires c == ScenarioConfig()
    requires s2 == State(0, 0, 2, map[Span(-5, 5) := Win({q}, 1, false), Span(0, 10) := Win({q}, 1, false)],
                         [], map[], [])
    ensures UpdateWatermark(c, s2, 1) == s2.(watermark := 1)
  {
    assert Evictable(s2.windows, 1 - 2) == {};
    assert s2.windows - {} == s2.windows;
  }

  /** The instance for 1 is [-5, 5); with nothing pending it is recorded. */
  lemma ScenarioPending<Q>(c: Config, s3: State<Q>)
    requires c == ScenarioConfig() && s3.pending == []
    ensures AddPending(c, s3, 1) == s3.(pending := [Inst(Span(-5, 5), false)])
  {
    assert CSup(1, 0, 5) == 5 by {
      assert CeilDiv(1, 5) == 1;
    }
    assert c.InstanceSpan(1) == Span(-5, 5);
  }

  /** `add(q, 1)` on a fresh operator with max_delay 2: the windows [-5, 5) and [0, 10)
      open and hold q, [-5, 5) becomes pending, and cursor and watermark move to 1. */
  lemma ScenarioAdd<Q>(q: Q)
    ensures Add(ScenarioConfig(), Initial<Q>(0, 2), q, 1) ==
            State(1, 1, 2, map[Span(-5, 5) := Win({q}, 1, false), Span(0, 10) := Win({q}, 1, false)],
                  [Inst(Span(-5, 5), false)], map[], [])
  {
    var c := ScenarioConfig();
    var s0 := Initial<Q>(0, 2);
    var W1 := map[Span(-5, 5) := EmptyWin<Q>(), Span(0, 10) := EmptyWin<Q>()];
    var W2 := map[Span(-5, 5) := Win({q}, 1, false), Span(0, 10) := Win({q}, 1, false)];
    ScenarioScope(c, s0);
    ScenarioInsert(W1, q);
    var s2 := s0.(windows := W2);
    ScenarioMark(c, s2, q);
    var s3 := s2.(watermark := 1);
    ScenarioPending(c, s3);
    var s4 := s3.(pending := [Inst(Span(-5, 5), false)]);
    ProcessEventIs(c, s0, q, 1, s2, s3, s4);
    assert W2 - {} == W2;
  }

  /** Emission at 23 over the scenario's windows: the pending [-5, 5) is released and
      fires with {q}, [0, 10) is not pending, and watermark 23 with max_delay 2 evicts
      both windows. */
  lemma ScenarioEmit<Q>(q: Q)
    ensures var W := map[Span(-5, 5) := Win({q}, 1, false), Span(0, 10) := Win({q}, 1, false)];
            var ps := [Inst(Span(-5, 5), false)];
            Kept(ScenarioConfig(), W, ps, 23) == [] && Fired(ScenarioConfig(), W, ps, 23) == [{q}] &&
            W - Evictable(W, 23 - 2) == map[]
  {
    var c := ScenarioConfig();
    var W := map[Span(-5, 5) := Win({q}, 1, false), Span(0, 10) := Win({q}, 1, false)];
    var p := Inst(Span(-5, 5), false);
    assert Fires(c, W, p, 23);
    assert [p][..0] == [];
    assert Evictable(W, 23 - 2) == {Span(-5, 5), Span(0, 10)};
  }

  /** `set_current_time(11)` and `update_watermark(23)` after the scenario's `add`:
      the pending [-5, 5) fires with {q}, and both windows are evicted. */
  lemma ScenarioWatermark<Q>(q: Q, s1: State<Q>)
    requires s1 == State(1, 1, 2, map[Span(-5, 5) := Win({q}, 1, false), Span(0, 10) := Win({q}, 1, false)],
                         [Inst(Span(-5, 5), false)], map[], [])
    ensures UpdateWatermark(ScenarioConfig(), s1.(time := 11), 23) ==
            s1.(time := 11, watermark := 23, windows := map[], pending := [], out := [{q}])
  {
    var s4 := s1.(time := 11, watermark := 23);
    assert UpdateWatermark(ScenarioConfig(), s1.(time := 11), 23) == EvictAndTrigger(ScenarioConfig(), s4);
    ScenarioEmit(q);
    EvictAndTriggerIs(ScenarioConfig(), s4, map[], [], [{q}]);
  }

  /** The scenario `should trigger on window change`: after `add(q, 1)`,
      `set_current_time(11)` and `update_watermark(23)` the content {q} of [-5, 5) has
      been emitted exactly once, nothing stays pending, and both windows are evicted. */
  lemma TriggerScenarioEmits<Q>(q: Q)
    ensures var c := ScenarioConfig();
            var s1 := Add(c, Initial<Q>(0, 2), q, 1);
            var r := UpdateWatermark(c, s1.(time := 11), 23);
            r.out == [{q}] && r.windows == map[] && r.pending == []
  {
    ScenarioAdd(q);
    ScenarioWatermark(q, Add(ScenarioConfig(), Initial<Q>(0, 2), q, 1));
  }
}
