/**
 * What the earlier snapshot of the window operator (src/operators/s2r.ts)
 * does, proved about the value semantics of SrcModel: the reachable-state
 * invariant, the do-while scoping, the watermark and eviction rules, the
 * lateness branch of `add` and the late-buffer replay.  In this snapshot a
 * pending trigger is a new object that is never a key of the active-window
 * map, so in every reachable state emission finds no content and the output
 * stream stays as it is.
 */
module SrcProps {
  import opened WindowCore
  import opened WindowMaps
  import opened SrcModel

  // ---------------------------------------------------------------- scoping

  /** `scope(t)` is a do-while: the window opening at c_sup - width is always there
      afterwards, even when it opens after `t`; the loop then adds the absent aligned
      spans up to `t`, every window it finds is kept, and only the windows change. */
  lemma ScopeSpec<Q>(c: Config, s: State<Q>, t: int)
    requires c.Valid()
    ensures var o := c.FirstOpen(t); var W := Scope(c, s, t).windows;
            Span(o, o + c.width) in W &&
            (forall sp :: sp in W <==> sp in s.windows || sp == Span(o, o + c.width) ||
                                       Aligned(sp, o, t, c.width, c.slide)) &&
            (forall sp :: sp in s.windows ==> W[sp] == s.windows[sp]) &&
            (forall sp :: sp in W && sp !in s.windows ==> W[sp] == EmptyWin())
    ensures Scope(c, s, t).(windows := s.windows) == s
  {
    var o := c.FirstOpen(t);
    var first := Span(o, o + c.width);
    EnsureWindowSpec(s.windows, first);
    ScopeFromSpec(EnsureWindow(s.windows, first), o + c.slide, t, c.width, c.slide);
    if o <= t {
      forall sp { AlignedStep(sp, o, t, c.width, c.slide); }
    }
  }

  /** Scoping t = 4 on an empty operator with width 10, slide 2 and t0 = 0 opens the six
      windows [-6, 4), [-4, 6), [-2, 8), [0, 10), [2, 12) and [4, 14). */
  lemma ScopeSixWindows<Q>(c: Config, s: State<Q>)
    requires c.width == 10 && c.slide == 2 && c.t0 == 0 && s.windows == map[]
    ensures Scope(c, s, 4).windows.Keys ==
            {Span(-6, 4), Span(-4, 6), Span(-2, 8), Span(0, 10), Span(2, 12), Span(4, 14)}
  {
    assert c.FirstOpen(4) == -6 by { assert CSup(4, 0, 2) == 4; }
    var W := Scope(c, s, 4).windows;
    var S := {Span(-6, 4), Span(-4, 6), Span(-2, 8), Span(0, 10), Span(2, 12), Span(4, 14)};
    forall sp ensures sp in W.Keys <==> sp in S {
      assert sp in W <==> sp == Span(-6, 4) || Aligned(sp, -6, 4, 10, 2) by { ScopeSpec(c, s, 4); }
      AlignedExample(sp);
    }
  }

  lemma ScopeWidth<Q>(c: Config, s: State<Q>, t: int)
    requires c.Valid() && WidthInv(s.windows, c.width)
    ensures WidthInv(Scope(c, s, t).windows, c.width)
  {
    ScopeSpec(c, s, t);
  }

  // ---------------------------------------------------------------- pending objects

  /** Deleting the keys with `close <= bound` clears the key flag of exactly those
      pending objects and changes nothing else about them. */
  lemma {:induction false} UnkeyIs(ps: seq<Pend>, bound: int)
    ensures forall i :: 0 <= i < |ps| ==>
              Unkey(ps, bound)[i] == ps[i].(keyed := ps[i].keyed && ps[i].span.close > bound)
    decreases |ps|
  {
    if ps != [] {
      UnkeyIs(ps[..|ps| - 1], bound);
    }
  }

  /** Objects that are not keys stay as they are. */
  lemma UnkeyUnkeyed(ps: seq<Pend>, bound: int)
    requires Unkeyed(ps)
    ensures Unkey(ps, bound) == ps
  {
    UnkeyIs(ps, bound);
  }

  // ---------------------------------------------------------------- emission

  /** When no pending object is released, the `forEach` keeps all of them and changes
      nothing else. */
  lemma {:induction false} EmitAllQuiet<Q>(c: Config, e: Emission<Q>, ps: seq<Pend>, t: int)
    requires forall i :: 0 <= i < |ps| ==> !Releases(c, e.windows, ps[i], t)
    ensures EmitAll(c, e, ps, t) == e.(kept := e.kept + ps)
    decreases |ps|
  {
    if ps != [] {
      var init := ps[..|ps| - 1];
      EmitAllQuiet(c, e, init, t);
      assert e.kept + init + [ps[|ps| - 1]] == e.kept + ps;
    }
  }

  /** In a reachable state no pending object is a key, so `emit_on_trigger` finds no
      content: nothing is emitted, no object leaves the pending set, and the cursor and
      the windows stay as they are. */
  lemma EmitNothing<Q>(c: Config, s: State<Q>, t: int)
    requires Unkeyed(s.pending)
    ensures EmitOnTrigger(c, s, t) == s
  {
    EmitAllQuiet(c, Emission(s.windows, s.time, [], s.out), s.pending, t);
  }

  /** Under NonEmptyContent and Periodic the trigger step emits nothing and keeps every
      pending object, whatever the keys. */
  lemma NeverEmits<Q>(c: Config, s: State<Q>, t: int)
    requires c.report == NonEmptyContent || c.report == Periodic
    ensures EmitOnTrigger(c, s, t) == s
  {
    EmitAllQuiet(c, Emission(s.windows, s.time, [], s.out), s.pending, t);
  }

  /** A pending object stays pending exactly when it is not released; whether it is
      released depends on the keys only, which emission does not change. */
  lemma {:induction false} KeptExactly<Q>(c: Config, e: Emission<Q>, ps: seq<Pend>, t: int)
    ensures forall p :: p in EmitAll(c, e, ps, t).kept <==>
              p in e.kept || (p in ps && !Releases(c, e.windows, p, t))
    decreases |ps|
  {
    if ps != [] {
      var init := ps[..|ps| - 1];
      KeptExactly(c, e, init, t);
      EmitAllKeys(c, e, init, t);
      assert forall p :: p in ps <==> p in init || p == ps[|ps| - 1] by {
        assert ps == init + [ps[|ps| - 1]];
      }
    }
  }

  /** A released object leaves the pending set, so it cannot be released again. */
  lemma ReleasedLeaves<Q>(c: Config, s: State<Q>, t: int, p: Pend)
    requires p in s.pending && Releases(c, s.windows, p, t)
    ensures p !in EmitOnTrigger(c, s, t).pending
  {
    KeptExactly(c, Emission(s.windows, s.time, [], s.out), s.pending, t);
  }

  // ---------------------------------------------------------------- watermark

  /** `check_watermark()` in a reachable state deletes exactly the windows with
      close <= watermark - max_delay, keeps the others as they were, and changes
      nothing else. */
  lemma CheckWatermarkEvicts<Q>(c: Config, s: State<Q>)
    requires Unkeyed(s.pending)
    ensures var r := CheckWatermark(c, s);
            (forall sp :: sp in r.windows <==> sp in s.windows && sp.close > s.watermark - s.maxDelay) &&
            (forall sp :: sp in r.windows ==> r.windows[sp] == s.windows[sp]) &&
            r.(windows := s.windows) == s
  {
    EmitNothing(c, s, s.watermark);
    UnkeyUnkeyed(s.pending, s.watermark - s.maxDelay);
  }

  /** With max_delay 5 and the windows [0, 10) and [5, 15) at watermark 0, raising the
      watermark to 25 evicts both, and raising it to 10 evicts neither. */
  lemma WatermarkExample<Q>(c: Config, s: State<Q>)
    requires s.windows.Keys == {Span(0, 10), Span(5, 15)} && s.maxDelay == 5 && s.watermark == 0
    requires Unkeyed(s.pending)
    ensures UpdateWatermark(c, s, 25).windows == map[]
    ensures UpdateWatermark(c, s, 10).windows == s.windows
  {
    CheckWatermarkEvicts(c, s.(watermark := 25));
    CheckWatermarkEvicts(c, s.(watermark := 10));
    assert UpdateWatermark(c, s, 25).windows.Keys == {};
  }

  /** `update_watermark(t)` moves the watermark to max(watermark, t), and is the identity
      when t does not exceed it. */
  lemma UpdateWatermarkMonotone<Q>(c: Config, s: State<Q>, t: int)
    ensures UpdateWatermark(c, s, t).watermark == if t > s.watermark then t else s.watermark
    ensures t <= s.watermark ==> UpdateWatermark(c, s, t) == s
  {
  }

  // ---------------------------------------------------------------- the invariant

  lemma UpdateWatermarkInv<Q>(c: Config, s: State<Q>, t: int)
    requires Inv(c, s)
    ensures var r := UpdateWatermark(c, s, t);
            Inv(c, r) && r.(windows := s.windows, watermark := s.watermark) == s &&
            r.windows.Keys <= s.windows.Keys && forall sp :: sp in r.windows ==> r.windows[sp] == s.windows[sp]
  {
    if t > s.watermark {
      CheckWatermarkEvicts(c, s.(watermark := t));
    }
  }

  /** `process_event` keeps the invariant and never touches the cursor, the late buffer
      or the output; the watermark does not go down. */
  lemma ProcessEventInv<Q>(c: Config, s: State<Q>, e: Q, t: int)
    requires Inv(c, s)
    ensures var r := ProcessEvent(c, s, e, t).0;
            Inv(c, r) && r.time == s.time && r.late == s.late && r.lateOrder == s.lateOrder &&
            r.out == s.out && r.watermark >= s.watermark
  {
    ScopeSpec(c, s, t);
    var s1 := Scope(c, s, t);
    var s2 := s1.(windows := Insert(s1.windows, e, t));
    assert Inv(c, s2);
    UpdateWatermarkInv(c, s2, t);
  }

  /** `buffer_late_event` keeps the late buffer's keys and its key order in step and
      every bucket duplicate-free. */
  lemma BufferLateInv<Q>(c: Config, s: State<Q>, e: Q, ts: int)
    requires Inv(c, s)
    ensures Inv(c, BufferLate(s, e, ts))
  {
    if s.time - ts <= s.maxDelay {
      assert NoDup(Bucket(s.late, ts));
    }
  }

  /** `add` keeps the invariant. */
  lemma AddInv<Q>(c: Config, s: State<Q>, e: Q, t: int)
    requires Inv(c, s)
    ensures Inv(c, Add(c, s, e, t))
  {
    var s1 := if t > s.time then s.(time := t) else s;
    if s1.time > t {
      BufferLateInv(c, s1, e, t);
    } else {
      ProcessEventInv(c, s1, e, t);
      UnkeyUnkeyed(ProcessEvent(c, s1, e, t).0.pending, t);
    }
  }

  lemma {:induction false} ReplayBucketInv<Q>(c: Config, s: State<Q>, ts: int, els: seq<Q>)
    requires Inv(c, s)
    ensures var r := ReplayBucket(c, s, ts, els);
            Inv(c, r) && r.time == s.time && r.late == s.late && r.lateOrder == s.lateOrder && r.out == s.out
    decreases |els|
  {
    if els != [] {
      ReplayBucketInv(c, s, ts, els[..|els| - 1]);
      ProcessEventInv(c, ReplayBucket(c, s, ts, els[..|els| - 1]), els[|els| - 1], ts);
    }
  }

  lemma {:induction false} ReplayInv<Q>(c: Config, s: State<Q>, keys: seq<int>, late: map<int, seq<Q>>)
    requires Inv(c, s)
    ensures var r := Replay(c, s, keys, late);
            Inv(c, r) && r.time == s.time && r.late == s.late && r.lateOrder == s.lateOrder && r.out == s.out
    decreases |keys|
  {
    if keys != [] {
      var init := keys[..|keys| - 1];
      ReplayInv(c, s, init, late);
      ReplayBucketInv(c, Replay(c, s, init, late), keys[|keys| - 1], Bucket(late, keys[|keys| - 1]));
    }
  }

  /** `process_late_elements()` keeps the invariant, leaves the buffer empty, keeps the
      cursor, and emits nothing. */
  lemma ProcessLateInv<Q>(c: Config, s: State<Q>)
    requires Inv(c, s)
    ensures var r := ProcessLate(c, s);
            Inv(c, r) && r.late == map[] && r.lateOrder == [] && r.time == s.time && r.out == s.out
  {
    ReplayInv(c, s, s.lateOrder, s.late);
  }

  /** The constructor's state satisfies the invariant. */
  lemma InitialInv<Q>(c: Config, startTime: int, maxDelay: int)
    requires c.Valid()
    ensures Inv(c, Initial<Q>(startTime, maxDelay))
  {
  }

  // ---------------------------------------------------------------- add

  /** An event below the cursor is late: it is dropped exactly when it is more than
      `max_delay` behind the cursor, and otherwise joins the bucket of its own
      timestamp, whose key is appended to the key order when new; nothing else
      changes. */
  lemma AddLate<Q>(c: Config, s: State<Q>, e: Q, t: int)
    requires c.Valid() && s.time > t
    ensures s.time - t > s.maxDelay ==> Add(c, s, e, t) == s
    ensures s.time - t <= s.maxDelay ==>
              var r := Add(c, s, e, t);
              r.late == s.late[t := SetAdd(Bucket(s.late, t), e)] && e in r.late[t] &&
              r.lateOrder == (if t in s.late then s.lateOrder else s.lateOrder + [t]) &&
              r.(late := s.late, lateOrder := s.lateOrder) == s
  {
  }

  /** After `process_event` in a reachable state every window is one that scoping left,
      holding what the insertion loop put in it: the watermark step only deletes
      windows. */
  lemma ProcessEventWindows<Q>(c: Config, s: State<Q>, e: Q, t: int)
    requires Inv(c, s)
    ensures var W := ProcessEvent(c, s, e, t).0.windows;
            var I := Insert(Scope(c, s, t).windows, e, t);
            W.Keys <= I.Keys && forall sp :: sp in W ==> W[sp] == I[sp]
  {
    ScopeSpec(c, s, t);
    var s1 := Scope(c, s, t);
    var s2 := s1.(windows := Insert(s1.windows, e, t));
    assert Inv(c, s2);
    UpdateWatermarkInv(c, s2, t);
  }

  /** An event that is not late moves the cursor to its timestamp and emits nothing;
      afterwards no window is closed by the timestamp, every window covering it holds
      the event, and every window opening after it that was there before is unchanged
      in content. */
  lemma AddInOrder<Q>(c: Config, s: State<Q>, e: Q, t: int)
    requires Inv(c, s) && s.time <= t
    ensures var r := Add(c, s, e, t);
            r.time == t && r.late == s.late && r.lateOrder == s.lateOrder && r.out == s.out &&
            (forall sp :: sp in r.windows ==> sp.close > t) &&
            (forall sp :: sp in r.windows && sp.open <= t ==> e in r.windows[sp].elements) &&
            (forall sp :: sp in r.windows && sp in s.windows && t < sp.open ==>
               r.windows[sp].elements == s.windows[sp].elements)
  {
    var s1 := s.(time := t);
    var r0 := ProcessEvent(c, s1, e, t).0;
    var I := Insert(Scope(c, s1, t).windows, e, t);
    ProcessEventInv(c, s1, e, t);
    ProcessEventWindows(c, s1, e, t);
    ScopeSpec(c, s1, t);
    AddIs(c, s, e, t, r0, r0.windows - Evictable(r0.windows, t), Unkey(r0.pending, t));
    var r := Add(c, s, e, t);
    forall sp | sp in r.windows
      ensures sp.close > t && r.windows[sp] == I[sp]
    {
      assert sp in r0.windows;
    }
  }

  // ---------------------------------------------------------------- where replayed events land

  /** The cursor and every late-buffer timestamp are at or below the watermark, so that
      replaying the buffer never moves the watermark. */
  predicate BelowWatermark<Q>(s: State<Q>)
  {
    s.time <= s.watermark && forall ts :: ts in s.late ==> ts <= s.watermark
  }

  /** The constructor's state is below its watermark. */
  lemma InitialBelow<Q>(startTime: int, maxDelay: int)
    ensures BelowWatermark(Initial<Q>(startTime, maxDelay))
  {
  }

  /** `add` keeps the cursor and the late buffer at or below the watermark: a late event
      is below the cursor, and a processed one raises the watermark to its timestamp. */
  lemma AddBelow<Q>(c: Config, s: State<Q>, e: Q, t: int)
    requires Inv(c, s) && BelowWatermark(s)
    ensures BelowWatermark(Add(c, s, e, t))
  {
    var s1 := if t > s.time then s.(time := t) else s;
    if s1.time <= t {
      var r := ProcessEvent(c, s1, e, t).0;
      ProcessEventInv(c, s1, e, t);
      assert r.watermark >= t by {
        var s2 := Scope(c, s1, t).(windows := Insert(Scope(c, s1, t).windows, e, t));
        ScopeSpec(c, s1, t);
        UpdateWatermarkMonotone(c, s2, t);
      }
    }
  }

  /** An event at or below the watermark: `process_event` only scopes and inserts. */
  lemma ProcessEventBelow<Q>(c: Config, s: State<Q>, e: Q, t: int)
    requires c.Valid() && t <= s.watermark
    ensures var r := ProcessEvent(c, s, e, t).0;
            r.windows == Insert(Scope(c, s, t).windows, e, t) &&
            r.(windows := s.windows, pending := s.pending) == s
  {
    ScopeSpec(c, s, t);
  }

  /** Windows holding every span that scoping t visits are left as they are by it. */
  lemma ScopeAgain<Q>(c: Config, s: State<Q>, s': State<Q>, t: int)
    requires c.Valid() && s'.windows.Keys == Scope(c, s, t).windows.Keys
    ensures Scope(c, s', t).windows.Keys == s'.windows.Keys
  {
    ScopeSpec(c, s, t);
    ScopeSpec(c, s', t);
  }

  /** A bucket replayed at a timestamp at or below the watermark changes only the
      windows and the pending objects. */
  lemma {:induction false} ReplayBucketKeeps<Q>(c: Config, s: State<Q>, ts: int, els: seq<Q>)
    requires c.Valid() && ts <= s.watermark
    ensures ReplayBucket(c, s, ts, els).(windows := s.windows, pending := s.pending) == s
    decreases |els|
  {
    if els != [] {
      ReplayBucketKeeps(c, s, ts, els[..|els| - 1]);
      ProcessEventBelow(c, ReplayBucket(c, s, ts, els[..|els| - 1]), els[|els| - 1], ts);
    }
  }

  /** A bucket replayed at a timestamp at or below the watermark: no window is lost or
      shrinks, a window not covering the timestamp is untouched, every scoped window is
      present once an event has been replayed, and every window covering the timestamp
      holds every event of the bucket. */
  lemma {:induction false} ReplayBucketLands<Q>(c: Config, s: State<Q>, ts: int, els: seq<Q>)
    requires c.Valid() && ts <= s.watermark
    ensures var r := ReplayBucket(c, s, ts, els);
            Grown(s.windows, r.windows) &&
            (forall sp :: sp in s.windows && !sp.Contains(ts) ==> r.windows[sp] == s.windows[sp]) &&
            (els != [] ==> Scope(c, r, ts).windows.Keys == r.windows.Keys) &&
            Landed(r.windows, r.windows, ts, els)
    decreases |els|
  {
    if els != [] {
      var init := els[..|els| - 1];
      var x := els[|els| - 1];
      ReplayBucketLands(c, s, ts, init);
      var r' := ReplayBucket(c, s, ts, init);
      var r := ReplayBucket(c, s, ts, els);
      var S := Scope(c, r', ts).windows;
      assert r.windows == Insert(S, x, ts) by {
        ReplayBucketKeeps(c, s, ts, init);
        ProcessEventBelow(c, r', x, ts);
      }
      assert forall sp :: sp in r'.windows ==> sp in S && S[sp] == r'.windows[sp] by {
        ScopeSpec(c, r', ts);
      }
      InsertGrows(r'.windows, S, x, ts);
      GrownTrans(s.windows, r'.windows, r.windows);
      ScopeAgain(c, r', r, ts);
      LandsStep(r'.windows, S, ts, init, els);
    }
  }

  /** Replaying buckets at timestamps at or below the watermark keeps the watermark. */
  lemma {:induction false} ReplayKeepsWatermark<Q>(c: Config, s: State<Q>, keys: seq<int>, late: map<int, seq<Q>>)
    requires c.Valid() && forall i :: 0 <= i < |keys| ==> keys[i] <= s.watermark
    ensures Replay(c, s, keys, late).watermark == s.watermark
    decreases |keys|
  {
    if keys != [] {
      var init := keys[..|keys| - 1];
      ReplayKeepsWatermark(c, s, init, late);
      ReplayBucketKeeps(c, Replay(c, s, init, late), keys[|keys| - 1], Bucket(late, keys[|keys| - 1]));
    }
  }

  /** The buckets replayed after the first `j` only add to the windows the first `j`
      left. */
  lemma {:induction false} ReplayGrows<Q>(c: Config, s: State<Q>, keys: seq<int>, late: map<int, seq<Q>>, j: int)
    requires c.Valid() && (forall i :: 0 <= i < |keys| ==> keys[i] <= s.watermark) && 0 <= j <= |keys|
    ensures Grown(Replay(c, s, keys[..j], late).windows, Replay(c, s, keys, late).windows)
    decreases |keys|
  {
    if j == |keys| {
      assert keys[..j] == keys;
    } else {
      var init := keys[..|keys| - 1];
      var last := keys[|keys| - 1];
      assert init[..j] == keys[..j];
      ReplayGrows(c, s, init, late, j);
      ReplayKeepsWatermark(c, s, init, late);
      ReplayBucketLands(c, Replay(c, s, init, late), last, Bucket(late, last));
    }
  }

  /** `process_late_elements()` in a reachable state loses or shrinks no window, keeps
      the watermark, and leaves the state below its watermark. */
  lemma ProcessLateGrows<Q>(c: Config, s: State<Q>)
    requires Inv(c, s) && BelowWatermark(s)
    ensures var r := ProcessLate(c, s);
            Grown(s.windows, r.windows) && r.watermark == s.watermark && BelowWatermark(r)
  {
    var keys := s.lateOrder;
    assert forall k :: 0 <= k < |keys| ==> keys[k] <= s.watermark;
    ReplayKeepsWatermark(c, s, keys, s.late);
    ReplayInv(c, s, keys, s.late);
    ReplayGrows(c, s, keys, s.late, 0);
    assert keys[..0] == [];
  }

  /** Once the bucket at `keys[i]` has been replayed, every window covering that timestamp
      holds each of its events. */
  lemma PrefixLands<Q>(c: Config, s: State<Q>, keys: seq<int>, late: map<int, seq<Q>>, i: int)
    requires c.Valid() && (forall k :: 0 <= k < |keys| ==> keys[k] in late && keys[k] <= s.watermark)
    requires 0 <= i < |keys|
    ensures var mid := Replay(c, s, keys[..i + 1], late);
            Landed(mid.windows, mid.windows, keys[i], late[keys[i]])
  {
    var ts := keys[i];
    var pre := Replay(c, s, keys[..i], late);
    assert Bucket(late, ts) == late[ts];
    assert pre.watermark == s.watermark by {
      ReplayKeepsWatermark(c, s, keys[..i], late);
    }
    assert Replay(c, s, keys[..i + 1], late) == ReplayBucket(c, pre, ts, late[ts]) by {
      ReplayStep(c, s, keys, late, i);
    }
    ReplayBucketLands(c, pre, ts, late[ts]);
  }

  /** After replaying `keys`, each event of the bucket at `keys[i]` is in every window
      covering that timestamp that was there once the bucket had been replayed. */
  lemma ReplayLands<Q>(c: Config, s: State<Q>, keys: seq<int>, late: map<int, seq<Q>>, i: int)
    requires c.Valid() && (forall k :: 0 <= k < |keys| ==> keys[k] in late && keys[k] <= s.watermark)
    requires 0 <= i < |keys|
    ensures var ts := keys[i];
            var mid := Replay(c, s, keys[..i + 1], late);
            var R := Replay(c, s, keys, late);
            (i == |keys| - 1 ==> mid.windows == R.windows) &&
            Landed(mid.windows, R.windows, ts, late[ts])
  {
    var ts := keys[i];
    var mid := Replay(c, s, keys[..i + 1], late);
    var R := Replay(c, s, keys, late);
    PrefixLands(c, s, keys, late, i);
    assert Grown(mid.windows, R.windows) by {
      ReplayGrows(c, s, keys, late, i + 1);
    }
    LandedGrown(mid.windows, R.windows, ts, late[ts]);
    if i == |keys| - 1 {
      assert keys[..i + 1] == keys;
    }
  }

  /** `process_late_elements()` in a reachable state: each buffered event is, afterwards,
      in every window covering its own timestamp that was there once its bucket had
      been replayed; for the last bucket these are all the active windows covering its
      timestamp. */
  lemma ProcessLateLands<Q>(c: Config, s: State<Q>, i: int)
    requires Inv(c, s) && BelowWatermark(s) && 0 <= i < |s.lateOrder|
    ensures var ts := s.lateOrder[i];
            var mid := Replay(c, s, s.lateOrder[..i + 1], s.late);
            var r := ProcessLate(c, s);
            (i == |s.lateOrder| - 1 ==> mid.windows == r.windows) &&
            Landed(mid.windows, r.windows, ts, s.late[ts])
  {
    assert forall k :: 0 <= k < |s.lateOrder| ==> s.lateOrder[k] in s.late && s.lateOrder[k] <= s.watermark;
    ReplayLands(c, s, s.lateOrder, s.late, i);
  }

  /** A late event kept on an empty buffer lands, after the sweep, in every active window
      covering its own timestamp, and windows not covering it are untouched. */
  lemma LateReplayedAtOwnTime<Q>(c: Config, s: State<Q>, e: Q, t: int)
    requires Inv(c, s) && BelowWatermark(s) && s.late == map[] && s.lateOrder == []
    requires t < s.time && s.time - t <= s.maxDelay
    ensures var r := ProcessLate(c, Add(c, s, e, t));
            Grown(s.windows, r.windows) &&
            (forall sp :: sp in r.windows && sp.Contains(t) ==> e in r.windows[sp].elements) &&
            (forall sp :: sp in s.windows && !sp.Contains(t) ==> r.windows[sp] == s.windows[sp])
  {
    var s1 := Add(c, s, e, t);
    assert s1 == s.(late := map[t := [e]], lateOrder := [t]) by {
      AddLate(c, s, e, t);
      assert SetAdd([], e) == [e];
    }
    var R := ReplayBucket(c, s1, t, [e]);
    assert ProcessLate(c, s1).windows == R.windows by {
      assert [t][..0] == [];
      assert Bucket(s1.late, t) == [e];
      assert Replay(c, s1, [t], s1.late) == ReplayBucket(c, Replay(c, s1, [], s1.late), t, [e]);
    }
    ReplayBucketLands(c, s1, t, [e]);
  }

  // ---------------------------------------------------------------- no output

  /** In a reachable state this snapshot never emits: `add`, `update_watermark` and
      `process_late_elements` all leave the output as it was. */
  lemma NoOutput<Q>(c: Config, s: State<Q>, e: Q, t: int)
    requires Inv(c, s)
    ensures Add(c, s, e, t).out == s.out
    ensures UpdateWatermark(c, s, t).out == s.out
    ensures ProcessLate(c, s).out == s.out
  {
    if s.time > t {
      AddLate(c, s, e, t);
    } else {
      AddInOrder(c, s, e, t);
    }
    UpdateWatermarkInv(c, s, t);
    ProcessLateInv(c, s);
  }

  /** The scenario `should trigger on window change` (width 10, slide 5, max_delay 2,
      OnWindowClose): after `add(q, 1)`, `set_current_time(11)` and
      `update_watermark(23)` nothing has been emitted, where one emission of {q} is
      expected. */
  lemma TriggerScenarioSilent<Q>(q: Q)
    ensures var c := Config(10, 5, 0, OnWindowClose, TimeDriven);
            var s1 := Add(c, Initial<Q>(0, 2), q, 1);
            UpdateWatermark(c, s1.(time := 11), 23).out == []
  {
    var c := Config(10, 5, 0, OnWindowClose, TimeDriven);
    var s0 := Initial<Q>(0, 2);
    InitialInv<Q>(c, 0, 2);
    var s1 := Add(c, s0, q, 1);
    NoOutput(c, s0, q, 1);
    AddInv(c, s0, q, 1);
    NoOutput(c, s1.(time := 11), q, 23);
  }
}
