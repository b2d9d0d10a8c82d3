/**
 * The value semantics of the later snapshot of the window operator
 * (dist/operators/s2r.js), on span-keyed state.  The class in DistEngine
 * refines every function here; the lemmas state what the operator promises.
 */
module DistModel {
  import opened WindowCore
  import opened WindowMaps
  import opened Sorting

  /** The operator's state seen as a value.  `out` is the sequence of element sets
      delivered on the RStream channel, oldest first. */
  datatype State<Q> = State(
    time: int,
    watermark: int,
    maxDelay: int,
    windows: map<Span, Win<Q>>,
    pending: seq<Inst>,
    late: map<int, seq<Q>>,
    out: seq<set<Q>>)

  /** No span is pending twice: each instance's span differs from those before it. */
  predicate PendingSpansUnique(ps: seq<Inst>)
    decreases |ps|
  {
    ps == [] || (PendingSpansUnique(ps[..|ps| - 1]) && !HasSpan(ps[..|ps| - 1], ps[|ps| - 1].span))
  }

  /** Appending an instance whose span is absent keeps the spans unique. */
  lemma UniqueSnoc(ps: seq<Inst>, x: Inst)
    requires PendingSpansUnique(ps) && !HasSpan(ps, x.span)
    ensures PendingSpansUnique(ps + [x])
  {
    assert (ps + [x])[..|ps|] == ps;
  }

  /** A unique sequence: the prefix before any position is unique and lacks its span. */
  lemma {:induction false} UniqueAt(ps: seq<Inst>, i: int)
    requires PendingSpansUnique(ps) && 0 <= i < |ps|
    ensures PendingSpansUnique(ps[..i]) && !HasSpan(ps[..i], ps[i].span)
    decreases |ps|
  {
    var init := ps[..|ps| - 1];
    if i < |ps| - 1 {
      UniqueAt(init, i);
      assert init[..i] == ps[..i];
    }
  }

  /** Deleting one instance keeps the spans unique. */
  lemma UniqueRemove(ps: seq<Inst>, k: int)
    requires PendingSpansUnique(ps) && 0 <= k < |ps|
    ensures PendingSpansUnique(ps[..k] + ps[k + 1..])
  {
    var r := ps[..k] + ps[k + 1..];
    UniqueIff(ps);
    UniqueIff(r);
    forall i, j | 0 <= i < j < |r| ensures r[i].span != r[j].span {
      var i' := if i < k then i else i + 1;
      var j' := if j < k then j else j + 1;
      assert r[i] == ps[i'] && r[j] == ps[j'];
    }
  }

  /** The recursive definition says that spans are pairwise different. */
  lemma UniqueIff(ps: seq<Inst>)
    ensures PendingSpansUnique(ps) <==> forall i, j :: 0 <= i < j < |ps| ==> ps[i].span != ps[j].span
    decreases |ps|
  {
    if ps != [] {
      var init := ps[..|ps| - 1];
      UniqueIff(init);
      if PendingSpansUnique(ps) {
        forall i, j | 0 <= i < j < |ps| ensures ps[i].span != ps[j].span {
          UniqueAt(ps, j);
          assert ps[..j][i] == ps[i];
        }
      }
      if forall i, j :: 0 <= i < j < |ps| ==> ps[i].span != ps[j].span {
        assert forall i, j :: 0 <= i < j < |init| ==> init[i].span != init[j].span by {
          forall i, j | 0 <= i < j < |init| ensures init[i].span != init[j].span {
            assert init[i] == ps[i] && init[j] == ps[j];
          }
        }
      }
    }
  }

  /** What every reachable state satisfies. */
  predicate Inv<Q(==)>(c: Config, s: State<Q>)
  {
    c.Valid() && WidthInv(s.windows, c.width) && PendingSpansUnique(s.pending) &&
    forall ts :: ts in s.late ==> NoDup(s.late[ts])
  }

  /** The constructor's state: cursor and watermark at the start time, all collections empty. */
  function Initial<Q>(startTime: int, maxDelay: int): State<Q>
  {
    State(startTime, startTime, maxDelay, map[], [], map[], [])
  }

  // ---------------------------------------------------------------- emission

  /** `get_quads_from_active_windows`: the content of the window whose open, close and
      `has_triggered` all equal the instance's. */
  function Lookup<Q>(W: map<Span, Win<Q>>, p: Inst): Option<set<Q>>
  {
    if p.span in W && W[p.span].triggered == p.triggered then Some(W[p.span].elements) else None
  }

  /** The instance leaves the pending set: content found and non-empty, and the
      report policy asks for emission. */
  predicate Released<Q>(c: Config, W: map<Span, Win<Q>>, p: Inst, t: int)
  {
    Lookup(W, p).Some? && |Lookup(W, p).value| > 0 && ShouldEmit(c.report, p.span.close, t)
  }

  /** The instance is emitted: released and not triggered before. */
  predicate Fires<Q>(c: Config, W: map<Span, Win<Q>>, p: Inst, t: int)
  {
    Released(c, W, p, t) && !p.triggered
  }

  /** The pending instances that stay, in their order. */
  function Kept<Q>(c: Config, W: map<Span, Win<Q>>, ps: seq<Inst>, t: int): seq<Inst>
  {
    if ps == [] then []
    else
      var last := ps[|ps| - 1];
      Kept(c, W, ps[..|ps| - 1], t) + (if Released(c, W, last, t) then [] else [last])
  }

  /** The contents emitted, in the order of the pending set. */
  function Fired<Q>(c: Config, W: map<Span, Win<Q>>, ps: seq<Inst>, t: int): seq<set<Q>>
  {
    if ps == [] then []
    else
      var last := ps[|ps| - 1];
      Fired(c, W, ps[..|ps| - 1], t) + (if Fires(c, W, last, t) then [Lookup(W, last).value] else [])
  }

  /** Visiting one more pending instance. */
  lemma EmitStep<Q>(c: Config, W: map<Span, Win<Q>>, ps: seq<Inst>, i: nat, t: int)
    requires i < |ps|
    ensures Kept(c, W, ps[..i + 1], t) ==
            Kept(c, W, ps[..i], t) + (if Released(c, W, ps[i], t) then [] else [ps[i]])
    ensures Fired(c, W, ps[..i + 1], t) ==
            Fired(c, W, ps[..i], t) + (if Fires(c, W, ps[i], t) then [Lookup(W, ps[i]).value] else [])
  {
    assert ps[..i + 1][..i] == ps[..i];
  }

  /** Visiting the instance at position i of the original pending sequence, while the
      earlier ones have been filtered: it sits right after those that stayed, and
      deleting it there (when released) or passing it (when not) filters one more. */
  lemma EmitVisit<Q>(c: Config, W: map<Span, Win<Q>>, P0: seq<Inst>, i: nat, pend: seq<Inst>, t: int)
    requires i < |P0| && pend == Kept(c, W, P0[..i], t) + P0[i..]
    ensures var k := |Kept(c, W, P0[..i], t)|;
            k < |pend| && pend[k] == P0[i] &&
            (if Released(c, W, P0[i], t) then pend[..k] + pend[k + 1..] else pend) ==
              Kept(c, W, P0[..i + 1], t) + P0[i + 1..] &&
            |Kept(c, W, P0[..i + 1], t)| == if Released(c, W, P0[i], t) then k else k + 1
    ensures Fired(c, W, P0[..i + 1], t) ==
            Fired(c, W, P0[..i], t) + (if Fires(c, W, P0[i], t) then [Lookup(W, P0[i]).value] else [])
  {
    var K := Kept(c, W, P0[..i], t);
    var k := |K|;
    EmitStep(c, W, P0, i, t);
    assert P0[i..] == [P0[i]] + P0[i + 1..];
    assert pend == K + [P0[i]] + P0[i + 1..];
    assert pend[..k] == K && pend[k + 1..] == P0[i + 1..];
  }

  /** The instances that stay are among those that were pending. */
  lemma {:induction false} KeptIn<Q>(c: Config, W: map<Span, Win<Q>>, ps: seq<Inst>, t: int)
    ensures forall x :: x in Kept(c, W, ps, t) ==> x in ps
  {
    if ps != [] {
      KeptIn(c, W, ps[..|ps| - 1], t);
    }
  }

  /** Emission keeps the pending spans unique. */
  lemma {:induction false} KeptUnique<Q>(c: Config, W: map<Span, Win<Q>>, ps: seq<Inst>, t: int)
    requires PendingSpansUnique(ps)
    ensures PendingSpansUnique(Kept(c, W, ps, t))
  {
    if ps != [] {
      var init := ps[..|ps| - 1];
      var last := ps[|ps| - 1];
      KeptUnique(c, W, init, t);
      KeptIn(c, W, init, t);
      var k := Kept(c, W, init, t);
      assert Kept(c, W, ps, t) == k + (if Released(c, W, last, t) then [] else [last]);
      if !Released(c, W, last, t) {
        forall j | 0 <= j < |k| ensures k[j].span != last.span {
          assert k[j] in init;
        }
        var k' := k + [last];
        assert k'[..|k'| - 1] == k && k'[|k'| - 1] == last;
        assert PendingSpansUnique(k');
      } else {
        assert k + [] == k;
      }
    }
  }

  /** `emit_on_trigger(t)`. */
  function EmitOnTrigger<Q>(c: Config, s: State<Q>, t: int): State<Q>
  {
    s.(pending := Kept(c, s.windows, s.pending, t), out := s.out + Fired(c, s.windows, s.pending, t))
  }

  /** `evict_and_trigger_on_watermark`: the eviction set is fixed first, emission runs on
      the windows before eviction, and the set is deleted afterwards. */
  function EvictAndTrigger<Q>(c: Config, s: State<Q>): State<Q>
  {
    var evict := Evictable(s.windows, s.watermark - s.maxDelay);
    var s1 := EmitOnTrigger(c, s, s.watermark);
    s1.(windows := s1.windows - evict)
  }

  /** The three parts `evict_and_trigger_on_watermark` changes, given separately. */
  lemma EvictAndTriggerIs<Q>(c: Config, s: State<Q>, W: map<Span, Win<Q>>, P: seq<Inst>, O: seq<set<Q>>)
    requires W == s.windows - Evictable(s.windows, s.watermark - s.maxDelay)
    requires P == Kept(c, s.windows, s.pending, s.watermark)
    requires O == s.out + Fired(c, s.windows, s.pending, s.watermark)
    ensures EvictAndTrigger(c, s) == s.(windows := W, pending := P, out := O)
  {
  }

  /** `update_watermark(t)`: only a strictly larger value moves the watermark. */
  function UpdateWatermark<Q>(c: Config, s: State<Q>, t: int): State<Q>
  {
    if t > s.watermark then EvictAndTrigger(c, s.(watermark := t)) else s
  }

  // ---------------------------------------------------------------- admission

  /** `hasWindowInstance`: some pending instance has the span. */
  predicate HasSpan(ps: seq<Inst>, sp: Span)
  {
    exists i | 0 <= i < |ps| :: ps[i].span == sp
  }

  /** `add_window_instance_to_pending_triggers(t)`: de-duplicated by span. */
  function AddPending<Q>(c: Config, s: State<Q>, t: int): State<Q>
    requires c.Valid()
  {
    var sp := c.InstanceSpan(t);
    if HasSpan(s.pending, sp) then s else s.(pending := s.pending + [Inst(sp, false)])
  }

  /** `scope(t)`: a while loop, so nothing is created when the first open bound exceeds t. */
  function Scope<Q>(c: Config, s: State<Q>, t: int): State<Q>
    requires c.Valid()
  {
    s.(windows := ScopeFrom(s.windows, c.FirstOpen(t), t, c.width, c.slide))
  }

  /** `process_event(e, t)`: scope, insert, collect expired windows, update the
      watermark, record the pending instance; the expired spans are returned. */
  function ProcessEvent<Q>(c: Config, s: State<Q>, e: Q, t: int): (State<Q>, set<Span>)
    requires c.Valid()
  {
    var s1 := Scope(c, s, t);
    var evict := Evictable(s1.windows, t);
    var s2 := s1.(windows := Insert(s1.windows, e, t));
    (AddPending(c, UpdateWatermark(c, s2, t), t), evict)
  }

  /** `ProcessEvent` from its intermediate states: after scoping and insertion, after
      the watermark update, and after the pending instance is recorded. */
  lemma ProcessEventIs<Q>(c: Config, s: State<Q>, e: Q, t: int, s2: State<Q>, s3: State<Q>, s4: State<Q>)
    requires c.Valid()
    requires s2 == Scope(c, s, t).(windows := Insert(Scope(c, s, t).windows, e, t))
    requires s3 == UpdateWatermark(c, s2, t) && s4 == AddPending(c, s3, t)
    ensures ProcessEvent(c, s, e, t) == (s4, Evictable(Scope(c, s, t).windows, t))
  {
  }

  /** The bucket of the late buffer at a timestamp (`undefined` read as empty). */
  function Bucket<Q>(late: map<int, seq<Q>>, ts: int): seq<Q>
  {
    if ts in late then late[ts] else []
  }

  /** `buffer_late_event(e, ts)`: dropped when `time - ts > max_delay`, else filed under ts. */
  function BufferLate<Q(==)>(s: State<Q>, e: Q, ts: int): State<Q>
  {
    if s.time - ts > s.maxDelay then s
    else s.(late := s.late[ts := SetAdd(Bucket(s.late, ts), e)])
  }

  /** `add(e, t)`: the lateness test runs against the cursor before it moves; a late
      event is buffered under the cursor itself; otherwise the event is processed, the
      cursor raised, and the expired windows deleted. */
  function Add<Q(==)>(c: Config, s: State<Q>, e: Q, t: int): State<Q>
    requires c.Valid()
  {
    if s.time > t then BufferLate(s, e, s.time)
    else
      var (s1, evict) := ProcessEvent(c, s, e, t);
      s1.(time := if t > s1.time then t else s1.time, windows := s1.windows - evict)
  }

  /** Processing an event only removes windows after scoping, so deleting the expired
      spans it returns is deleting every remaining window with `close <= t`. */
  lemma ProcessEventEvict<Q>(c: Config, s: State<Q>, e: Q, t: int)
    requires c.Valid()
    ensures var r := ProcessEvent(c, s, e, t);
            r.0.windows - r.1 == r.0.windows - Evictable(r.0.windows, t)
  {
    var s1 := Scope(c, s, t);
    var W2 := Insert(s1.windows, e, t);
    var s3 := UpdateWatermark(c, s1.(windows := W2), t);
    assert W2.Keys == s1.windows.Keys;
    assert s3.windows.Keys <= W2.Keys;
    var W := AddPending(c, s3, t).windows;
    assert W == s3.windows;
    var ev := Evictable(s1.windows, t);
    var A := W - ev;
    var B := W - Evictable(W, t);
    assert A.Keys == B.Keys by {
      forall sp | sp in W ensures sp in ev <==> sp in Evictable(W, t) {
        assert sp in s1.windows;
      }
    }
    assert A == B;
  }

  /** The not-late branch of `add` with its three effects given separately. */
  lemma AddIs<Q>(c: Config, s: State<Q>, e: Q, t: int, r: State<Q>, W: map<Span, Win<Q>>, time: int)
    requires c.Valid() && !(s.time > t) && r == ProcessEvent(c, s, e, t).0
    requires W == r.windows - Evictable(r.windows, t) && time == (if t > r.time then t else r.time)
    ensures Add(c, s, e, t) == r.(time := time, windows := W)
  {
    ProcessEventEvict(c, s, e, t);
  }

  // ---------------------------------------------------------------- late replay

  /** Replays one bucket through `process_event`, discarding the expired sets. */
  function ReplayBucket<Q>(c: Config, s: State<Q>, ts: int, els: seq<Q>): State<Q>
    requires c.Valid()
  {
    if els == [] then s
    else ProcessEvent(c, ReplayBucket(c, s, ts, els[..|els| - 1]), els[|els| - 1], ts).0
  }

  /** One more event of a bucket replayed. */
  lemma ReplayBucketStep<Q>(c: Config, s: State<Q>, ts: int, els: seq<Q>, i: int)
    requires c.Valid() && 0 <= i < |els|
    ensures ReplayBucket(c, s, ts, els[..i + 1]) == ProcessEvent(c, ReplayBucket(c, s, ts, els[..i]), els[i], ts).0
  {
    assert els[..i + 1][..i] == els[..i];
  }

  /** Replays the buckets of `late` in the order of `keys`. */
  function Replay<Q>(c: Config, s: State<Q>, keys: seq<int>, late: map<int, seq<Q>>): State<Q>
    requires c.Valid()
    requires forall i :: 0 <= i < |keys| ==> keys[i] in late
  {
    if keys == [] then s
    else
      var ts := keys[|keys| - 1];
      ReplayBucket(c, Replay(c, s, keys[..|keys| - 1], late), ts, late[ts])
  }

  /** `process_late_elements`: a no-op on an empty buffer; otherwise every bucket is
      replayed in ascending timestamp order through `process_event`, then the buffer
      is cleared. */
  ghost function ProcessLate<Q>(c: Config, s: State<Q>): State<Q>
    requires c.Valid()
  {
    if |s.late| == 0 then s
    else Replay(c, s, SortedKeys(s.late.Keys), s.late).(late := map[])
  }

  /** One more bucket replayed. */
  lemma ReplayStep<Q>(c: Config, s: State<Q>, keys: seq<int>, late: map<int, seq<Q>>, i: int)
    requires c.Valid() && 0 <= i < |keys| && forall j :: 0 <= j < |keys| ==> keys[j] in late
    ensures Replay(c, s, keys[..i + 1], late) == ReplayBucket(c, Replay(c, s, keys[..i], late), keys[i], late[keys[i]])
  {
    assert keys[..i + 1][..i] == keys[..i];
  }

  /** The non-empty case of `ProcessLate` from the result of its replay. */
  lemma ProcessLateIs<Q>(c: Config, s: State<Q>, keys: seq<int>, R: State<Q>)
    requires c.Valid() && |s.late| != 0 && keys == SortedKeys(s.late.Keys)
    requires R == Replay(c, s, keys, s.late)
    ensures ProcessLate(c, s) == R.(late := map[])
  {
  }
}
