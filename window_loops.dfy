/**
 * The search and update loops both snapshots run over the active-window map,
 * written once over the map value: eviction-set collection, the insertion loop
 * of `process_event`, deletion of a set of keys, and the `getContent` search.
 * Each loop's contract is heap-pointwise, so the engines re-read their views in
 * one step.
 */
module WindowLoops {
  import opened WindowCore
  import opened WindowMaps
  import opened WindowRefs

  /** The loop `for (const w of map.keys())` of `process_event`: every container whose
      key covers `t` (close exclusive) receives the event with change timestamp `t`;
      every other key with `t >= close` is collected. */
  method InsertLoop<Q(==)>(m: map<WindowInstance, QuadContainer<Q>>, e: Q, t: int)
    returns (toEvict: set<WindowInstance>)
    requires ContainersDistinct(m)
    modifies m.Values
    ensures forall k :: k in m ==>
              if k.SpanOf().Contains(t)
              then m[k].elements == old(m[k].elements) + {e} && m[k].lastTimeStampChanged == t
              else m[k].elements == old(m[k].elements) && m[k].lastTimeStampChanged == old(m[k].lastTimeStampChanged)
    ensures forall k :: k in toEvict <==> k in m && k.close <= t
  {
    toEvict := {};
    var keys := m.Keys;
    while keys != {}
      invariant keys <= m.Keys
      invariant forall k :: k in m ==>
                  if k !in keys && k.SpanOf().Contains(t)
                  then m[k].elements == old(m[k].elements) + {e} && m[k].lastTimeStampChanged == t
                  else m[k].elements == old(m[k].elements) && m[k].lastTimeStampChanged == old(m[k].lastTimeStampChanged)
      invariant forall k :: k in toEvict <==> k in m && k !in keys && k.close <= t
      decreases |keys|
    {
      if forall z :: z !in keys { assert false; }
      var w :| w in keys;
      if w.open <= t && t < w.close {
        var c := m[w];
        c.Add(e, t);
      } else if t >= w.close {
        toEvict := toEvict + {w};
      }
      keys := keys - {w};
    }
  }

  /** The `forEach` that collects the eviction set of `evict_and_trigger_on_watermark`:
      the keys with `close <= bound`. */
  method CollectEvictable<Q>(m: map<WindowInstance, QuadContainer<Q>>, bound: int)
    returns (toEvict: set<WindowInstance>)
    ensures forall k :: k in toEvict <==> k in m && k.close <= bound
  {
    toEvict := {};
    var keys := m.Keys;
    while keys != {}
      invariant keys <= m.Keys
      invariant forall k :: k in toEvict <==> k in m && k !in keys && k.close <= bound
      decreases |keys|
    {
      if forall z :: z !in keys { assert false; }
      var w :| w in keys;
      if w.close <= bound {
        toEvict := toEvict + {w};
      }
      keys := keys - {w};
    }
  }

  /** The deletion loop `for (const w of toEvict) map.delete(w)`. */
  method RemoveAll<Q>(m: map<WindowInstance, QuadContainer<Q>>, toEvict: set<WindowInstance>)
    returns (r: map<WindowInstance, QuadContainer<Q>>)
    ensures r == m - toEvict
  {
    var rest := toEvict;
    r := m;
    while rest != {}
      invariant rest <= toEvict
      invariant r == m - (toEvict - rest)
      decreases |rest|
    {
      if forall z :: z !in rest { assert false; }
      var w :| w in rest;
      r := r - {w};
      rest := rest - {w};
      assert r == m - (toEvict - rest);
    }
  }

  /** The `forEach` search of `getContent(timestamp)`: among the keys with
      `open <= timestamp <= close` the first with the smallest close (the initial bound
      is `Number.MAX_SAFE_INTEGER`), or none. */
  method SmallestCover<Q>(m: map<WindowInstance, QuadContainer<Q>>, timestamp: int)
    returns (best: Option<WindowInstance>)
    ensures best.None? ==> forall w :: w in m ==> !Covers(w.SpanOf(), timestamp)
    ensures best.Some? ==> best.value in m && Covers(best.value.SpanOf(), timestamp) &&
                           forall w :: w in m && Covers(w.SpanOf(), timestamp) ==> best.value.close <= w.close
  {
    best := None;
    var maxTime := MaxSafeInteger;
    var keys := m.Keys;
    while keys != {}
      invariant keys <= m.Keys
      invariant best.None? ==>
                  maxTime == MaxSafeInteger &&
                  forall w :: w in m && w !in keys ==> !Covers(w.SpanOf(), timestamp)
      invariant best.Some? ==>
                  best.value in m && best.value.close == maxTime && Covers(best.value.SpanOf(), timestamp)
      invariant forall w :: w in m && w !in keys && Covers(w.SpanOf(), timestamp) ==> maxTime <= w.close
      decreases |keys|
    {
      if forall z :: z !in keys { assert false; }
      var w :| w in keys;
      if w.open <= timestamp && timestamp <= w.close {
        if w.close < maxTime {
          maxTime := w.close;
          best := Some(w);
        }
      }
      keys := keys - {w};
    }
  }

  /** The search read through the view: the key found has the content span. */
  lemma ContentOfCover<Q>(m: map<WindowInstance, QuadContainer<Q>>, W: map<Span, Win<Q>>, timestamp: int,
                          best: Option<WindowInstance>)
    requires Coupled(m, W)
    requires best.None? ==> forall w :: w in m ==> !Covers(w.SpanOf(), timestamp)
    requires best.Some? ==> best.value in m && Covers(best.value.SpanOf(), timestamp) &&
                            forall w :: w in m && Covers(w.SpanOf(), timestamp) ==> best.value.close <= w.close
    ensures best.None? <==> forall sp :: sp in W ==> !Covers(sp, timestamp)
    ensures best.Some? ==> IsContentSpan(W, timestamp, best.value.SpanOf())
  {
    if best.Some? {
      forall x | x in W && Covers(x, timestamp) ensures best.value.close <= x.close {
        var k :| k in m && k.SpanOf() == x;
      }
    } else {
      forall x | x in W ensures !Covers(x, timestamp) {
        var k :| k in m && k.SpanOf() == x;
      }
    }
  }
}
