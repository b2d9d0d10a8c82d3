/** Ascending enumerations of finite sets of timestamps. */
module Sorting {

  predicate StrictlyIncreasing(r: seq<int>)
  {
    forall i, j :: 0 <= i < j < |r| ==> r[i] < r[j]
  }

  /** The least element of a non-empty finite set. */
  ghost function Min(S: set<int>): (m: int)
    requires S != {}
    ensures m in S
    ensures forall x :: x in S ==> m <= x
    decreases |S|
  {
    if forall z :: z !in S then assert false; 0
    else
    var y :| y in S;
    var rest := S - {y};
    if rest == {} then
      assert forall x :: x in S ==> x == y by {
        forall x | x in S ensures x == y {
          assert x == y || x in rest;
        }
      }
      y
    else
      var m := Min(rest);
      var r := if y < m then y else m;
      assert forall x :: x in S ==> r <= x by {
        forall x | x in S ensures r <= x {
          if x != y { assert x in rest; }
        }
      }
      r
  }

  /** The timestamps of a set in ascending order. */
  ghost function SortedKeys(S: set<int>): (r: seq<int>)
    ensures forall x :: x in r <==> x in S
    ensures StrictlyIncreasing(r)
    decreases |S|
  {
    if S == {} then []
    else
      var m := Min(S);
      var rest := SortedKeys(S - {m});
      assert forall i :: 0 <= i < |rest| ==> m < rest[i] by {
        forall i | 0 <= i < |rest| ensures m < rest[i] {
          assert rest[i] in rest;
          assert rest[i] in S - {m};
        }
      }
      ConsElements(m, rest, S);
      ConsIncreasing(m, rest);
      [m] + rest
  }

  lemma ConsIncreasing(m: int, rest: seq<int>)
    requires StrictlyIncreasing(rest) && forall i :: 0 <= i < |rest| ==> m < rest[i]
    ensures StrictlyIncreasing([m] + rest)
  {
    var r := [m] + rest;
    forall i, j | 0 <= i < j < |r| ensures r[i] < r[j] {
      assert r[j] == rest[j - 1];
      if i > 0 { assert r[i] == rest[i - 1]; }
    }
  }

  lemma HeadIn(a: seq<int>)
    ensures a != [] ==> a[0] in a
  {
  }

  lemma ConsElements(m: int, rest: seq<int>, S: set<int>)
    requires m in S
    requires forall x :: x in rest <==> x in S - {m}
    ensures forall x :: x in [m] + rest <==> x in S
  {
    forall x ensures x in [m] + rest <==> x in S {
      assert x in [m] + rest <==> x == m || x in rest;
    }
  }

  /** The first element of an ascending sequence is its least. */
  lemma HeadLeast(a: seq<int>, x: int)
    requires StrictlyIncreasing(a) && a != [] && x in a
    ensures a[0] <= x
  {
    var i :| 0 <= i < |a| && a[i] == x;
    if i > 0 { assert a[0] < a[i]; }
  }

  /** An ascending enumeration of a set is unique: sorting by timestamp leaves no choice. */
  lemma {:induction false} SortedUnique(a: seq<int>, b: seq<int>)
    requires StrictlyIncreasing(a) && StrictlyIncreasing(b)
    requires forall x :: x in a <==> x in b
    ensures a == b
    decreases |a|
  {
    if a == [] || b == [] {
      HeadIn(a);
      HeadIn(b);
    } else {
      assert a[0] in a && b[0] in b;
      HeadLeast(a, b[0]);
      HeadLeast(b, a[0]);
      var a', b' := a[1..], b[1..];
      assert forall x :: x in a' <==> x in b' by {
        forall x ensures x in a' <==> x in b' {
          if x in a' {
            var i :| 0 <= i < |a'| && a'[i] == x;
            assert a[i + 1] == x && a[0] < a[i + 1];
            assert x in b;
            var j :| 0 <= j < |b| && b[j] == x;
            assert j != 0;
            assert b'[j - 1] == x;
          }
          if x in b' {
            var i :| 0 <= i < |b'| && b'[i] == x;
            assert b[i + 1] == x && b[0] < b[i + 1];
            assert x in a;
            var j :| 0 <= j < |a| && a[j] == x;
            assert j != 0;
            assert a'[j - 1] == x;
          }
        }
      }
      SortedUnique(a', b');
      assert a == [a[0]] + a' && b == [b[0]] + b';
    }
  }

  /** Inserts a new timestamp into an ascending sequence at its place. */
  method InsertSorted(r: seq<int>, x: int) returns (r': seq<int>)
    requires StrictlyIncreasing(r) && x !in r
    ensures StrictlyIncreasing(r')
    ensures forall y :: y in r' <==> y in r || y == x
  {
    var i := 0;
    while i < |r| && r[i] < x
      invariant 0 <= i <= |r|
      invariant forall j :: 0 <= j < i ==> r[j] < x
    {
      i := i + 1;
    }
    r' := r[..i] + [x] + r[i..];
    forall a, b | 0 <= a < b < |r'| ensures r'[a] < r'[b] {
      if b < i {
        assert r'[a] == r[a] && r'[b] == r[b];
      } else if b == i {
        assert r'[a] == r[a];
      } else if a < i {
        assert r'[a] == r[a] && r'[b] == r[b - 1];
        assert r[a] < r[i];
      } else if a == i {
        assert r'[b] == r[b - 1] && x < r[i];
        assert i == b - 1 || r[i] < r[b - 1];
      } else {
        assert r'[a] == r[a - 1] && r'[b] == r[b - 1];
      }
    }
    assert r == r[..i] + r[i..];
    forall y ensures y in r' <==> y in r || y == x {
      assert y in r' <==> y in r[..i] || y == x || y in r[i..];
      assert y in r <==> y in r[..i] || y in r[i..];
    }
  }

  /** The sort of `process_late_elements`: the buffered timestamps, ascending.  The
      entries the source sorts have pairwise different keys, so sorting them by key
      leaves one possible order, the one `SortedKeys` describes. */
  method SortTimestamps(S: set<int>) returns (r: seq<int>)
    ensures StrictlyIncreasing(r) && forall y :: y in r <==> y in S
    ensures r == SortedKeys(S)
  {
    r := [];
    var rest := S;
    while rest != {}
      invariant rest <= S
      invariant StrictlyIncreasing(r)
      invariant forall y :: y in r <==> y in S && y !in rest
      decreases |rest|
    {
      if forall z :: z !in rest { assert false; }
      var x :| x in rest;
      r := InsertSorted(r, x);
      rest := rest - {x};
    }
    SortedUnique(r, SortedKeys(S));
  }
}
