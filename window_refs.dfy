/**
 * The heap side of both snapshots: the operator keeps its active windows in a
 * map from `WindowInstance` objects to `QuadContainer` objects, and its
 * pending triggers as an insertion-ordered set of `WindowInstance` objects.
 * This module reads those structures back as the span-keyed values of
 * WindowMaps, and proves how the reading changes when the map or the
 * containers are updated.
 */
module WindowRefs {
  import opened WindowCore
  import opened WindowMaps

  /** A key of the map with the span, when there is one. */
  ghost function KeyOf<Q>(m: map<WindowInstance, QuadContainer<Q>>, sp: Span): (k: WindowInstance)
    requires HasKeySpan(m, sp)
    ensures k in m && k.SpanOf() == sp
  {
    var k :| k in m && k.SpanOf() == sp; k
  }

  /** A key of the map holding the container, when there is one. */
  ghost function OwnerOf<Q>(m: map<WindowInstance, QuadContainer<Q>>, c: QuadContainer<Q>): (k: WindowInstance)
    requires exists k :: k in m && m[k] == c
    ensures k in m && m[k] == c
  {
    var k :| k in m && m[k] == c; k
  }

  /** No two keys of the map have the same bounds: each key is the one its span
      leads back to. */
  ghost predicate SpansUnique<Q>(m: map<WindowInstance, QuadContainer<Q>>)
  {
    forall a :: a in m ==> KeyOf(m, a.SpanOf()) == a
  }

  /** No container is shared by two keys. */
  ghost predicate ContainersDistinct<Q>(m: map<WindowInstance, QuadContainer<Q>>)
  {
    forall a :: a in m ==> OwnerOf(m, m[a]) == a
  }

  /** Some key of the map has the span. */
  predicate HasKeySpan<Q>(m: map<WindowInstance, QuadContainer<Q>>, sp: Span)
  {
    exists w :: w in m && w.SpanOf() == sp
  }

  /** The span-keyed value `W` is what a reader of the heap map `m` sees: every key's
      bounds lead to its container's elements and change timestamp and the key's own
      flag, and every span of `W` belongs to some key. */
  ghost predicate Coupled<Q>(m: map<WindowInstance, QuadContainer<Q>>, W: map<Span, Win<Q>>)
    reads m.Keys, m.Values
  {
    (forall w :: w in m ==>
       w.SpanOf() in W && W[w.SpanOf()] == Win(m[w].elements, m[w].lastTimeStampChanged, w.hasTriggered)) &&
    (forall sp :: sp in W ==> HasKeySpan(m, sp))
  }

  /** The value sequence `P` lists the bounds and flags of the pending instances `ps`. */
  ghost predicate PendingCoupled(ps: seq<WindowInstance>, P: seq<Inst>)
    reads ps
    decreases |ps|
  {
    |P| == |ps| &&
    (ps == [] ||
     (PendingCoupled(ps[..|ps| - 1], P[..|P| - 1]) &&
      P[|P| - 1] == Inst(ps[|ps| - 1].SpanOf(), ps[|ps| - 1].hasTriggered)))
  }

  /** The recursive coupling says, position by position, that `P` lists the bounds and
      flags of `ps`. */
  lemma {:induction false} PendingCoupledIff(ps: seq<WindowInstance>, P: seq<Inst>)
    ensures PendingCoupled(ps, P) <==>
            |P| == |ps| && forall i :: 0 <= i < |ps| ==> P[i] == Inst(ps[i].SpanOf(), ps[i].hasTriggered)
    decreases |ps|
  {
    if ps != [] && |P| == |ps| {
      var n := |ps| - 1;
      PendingCoupledIff(ps[..n], P[..n]);
    }
  }

  /** None of the instances is a key of the map. */
  predicate NoneKeyed<Q>(ps: seq<WindowInstance>, m: map<WindowInstance, QuadContainer<Q>>)
    decreases |ps|
  {
    ps == [] || (NoneKeyed(ps[..|ps| - 1], m) && ps[|ps| - 1] !in m)
  }

  lemma {:induction false} NoneKeyedIff<Q>(ps: seq<WindowInstance>, m: map<WindowInstance, QuadContainer<Q>>)
    ensures NoneKeyed(ps, m) <==> forall i :: 0 <= i < |ps| ==> ps[i] !in m
    decreases |ps|
  {
    if ps != [] {
      NoneKeyedIff(ps[..|ps| - 1], m);
    }
  }

  /** Putting a key whose bounds are absent, with a container no key holds, keeps the
      map well formed and adds its span to the view. */
  lemma CoupledPut<Q>(m: map<WindowInstance, QuadContainer<Q>>, W: map<Span, Win<Q>>,
                      w: WindowInstance, c: QuadContainer<Q>)
    requires SpansUnique(m) && ContainersDistinct(m) && Coupled(m, W)
    requires !HasKeySpan(m, w.SpanOf())
    requires forall k :: k in m ==> m[k] != c
    ensures SpansUnique(m[w := c]) && ContainersDistinct(m[w := c])
    ensures Coupled(m[w := c], W[w.SpanOf() := Win(c.elements, c.lastTimeStampChanged, w.hasTriggered)])
  {
    var m' := m[w := c];
    var W' := W[w.SpanOf() := Win(c.elements, c.lastTimeStampChanged, w.hasTriggered)];
    assert w !in m;
    forall k | k in m'
      ensures k.SpanOf() in W' &&
              W'[k.SpanOf()] == Win(m'[k].elements, m'[k].lastTimeStampChanged, k.hasTriggered)
    {
      if k != w { assert k in m; }
    }
    forall sp | sp in W' ensures HasKeySpan(m', sp) {
      if sp != w.SpanOf() {
        var k :| k in m && k.SpanOf() == sp;
        assert k in m';
      }
    }
  }

  /** The bounds of a set of instances. */
  function Spans(S: set<WindowInstance>): set<Span>
  {
    set w | w in S :: w.SpanOf()
  }

  /** The spans of the keys are the keys of the view. */
  lemma CoupledKeys<Q>(m: map<WindowInstance, QuadContainer<Q>>, W: map<Span, Win<Q>>)
    requires Coupled(m, W)
    ensures Spans(m.Keys) == W.Keys
  {
    forall sp | sp in W ensures sp in Spans(m.Keys) {
      var k :| k in m && k.SpanOf() == sp;
    }
  }

  /** Selecting the keys by their close bound selects their spans in the view. */
  lemma SelectedSpans<Q>(m: map<WindowInstance, QuadContainer<Q>>, W: map<Span, Win<Q>>,
                         T: set<WindowInstance>, bound: int)
    requires Coupled(m, W)
    requires forall k :: k in T <==> k in m && k.close <= bound
    ensures Spans(T) == Evictable(W, bound)
  {
    forall sp | sp in Evictable(W, bound) ensures sp in Spans(T) {
      var k :| k in m && k.SpanOf() == sp;
      assert k in T;
    }
  }

  /** Deleting a key deletes its span from the view and keeps the map well formed. */
  lemma CoupledRemove<Q>(m: map<WindowInstance, QuadContainer<Q>>, W: map<Span, Win<Q>>,
                         w: WindowInstance)
    requires SpansUnique(m) && ContainersDistinct(m) && Coupled(m, W)
    requires w in m
    ensures SpansUnique(m - {w}) && ContainersDistinct(m - {w})
    ensures Coupled(m - {w}, W - {w.SpanOf()})
  {
    var m' := m - {w};
    var W' := W - {w.SpanOf()};
    forall sp | sp in W' ensures HasKeySpan(m', sp) {
      var k :| k in m && k.SpanOf() == sp;
      assert k in m';
    }
  }

  /** Deleting a set of keys deletes the spans of those that were present and keeps
      the map well formed. */
  lemma CoupledRemoveAll<Q>(m: map<WindowInstance, QuadContainer<Q>>, W: map<Span, Win<Q>>,
                            T: set<WindowInstance>)
    requires SpansUnique(m) && ContainersDistinct(m) && Coupled(m, W)
    ensures SpansUnique(m - T) && ContainersDistinct(m - T)
    ensures Coupled(m - T, W - Spans(T * m.Keys))
  {
    var m' := m - T;
    var W' := W - Spans(T * m.Keys);
    forall a | a in m' ensures KeyOf(m', a.SpanOf()) == a {
      var k := KeyOf(m', a.SpanOf());
      assert KeyOf(m, k.SpanOf()) == k;
    }
    forall a | a in m' ensures OwnerOf(m', m'[a]) == a {
      var k := OwnerOf(m', m'[a]);
      assert OwnerOf(m, m[k]) == k;
    }
    forall sp | sp in W' ensures HasKeySpan(m', sp) {
      var k :| k in m && k.SpanOf() == sp;
      assert k !in T;
      assert k in m';
    }
  }

  /** Deleting the keys selected by their close bound deletes the matching spans of the
      view and keeps the map well formed. */
  lemma EvictView<Q>(m: map<WindowInstance, QuadContainer<Q>>, W: map<Span, Win<Q>>,
                     T: set<WindowInstance>, bound: int)
    requires SpansUnique(m) && ContainersDistinct(m) && Coupled(m, W)
    requires forall k :: k in m ==> (k in T <==> k.close <= bound)
    ensures SpansUnique(m - T) && ContainersDistinct(m - T)
    ensures Coupled(m - T, W - Evictable(W, bound))
  {
    CoupledRemoveAll(m, W, T);
    SelectedSpans(m, W, T * m.Keys, bound);
  }
}
