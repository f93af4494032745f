/** Sequences of positions and of tuples shared by the combinatorial
    generators. Each of them fills a buffer with a prefix of the tuple it is
    building, recurses for the rest, and yields copies of the buffer, so what a
    call yields is a list of tuples behind a common prefix. */
module Tuples {

  /** The positions 0..n-1 in order: `Array.from(range(0, n))`. */
  function Iota(n: nat): (s: seq<nat>)
    ensures |s| == n && forall k :: 0 <= k < n ==> s[k] == k
  {
    seq(n, k => k)
  }

  /** The pool read at the given positions: `idx.map(i => pool[i])`. */
  function Select<T>(pool: seq<T>, idx: seq<nat>): (s: seq<T>)
    requires forall k :: 0 <= k < |idx| ==> idx[k] < |pool|
    ensures |s| == |idx| && forall k :: 0 <= k < |idx| ==> s[k] == pool[idx[k]]
  {
    if idx == [] then [] else [pool[idx[0]]] + Select(pool, idx[1..])
  }

  /** Every tuple of `ts` behind the prefix `p`. */
  function Prefixed<T>(p: seq<T>, ts: seq<seq<T>>): (r: seq<seq<T>>)
    ensures |r| == |ts|
  {
    if ts == [] then [] else [p + ts[0]] + Prefixed(p, ts[1..])
  }

  lemma {:induction false} PrefixedAt<T>(p: seq<T>, ts: seq<seq<T>>)
    ensures forall j :: 0 <= j < |ts| ==> Prefixed(p, ts)[j] == p + ts[j]
  {
    if ts != [] {
      PrefixedAt(p, ts[1..]);
      var r := Prefixed(p, ts);
      forall j | 0 <= j < |ts|
        ensures r[j] == p + ts[j]
      {
        if j > 0 {
          assert r[j] == Prefixed(p, ts[1..])[j - 1];
        }
      }
    }
  }

  /** Yielding two lists behind one prefix yields them one after the other. */
  lemma {:induction false} PrefixedAppend<T>(p: seq<T>, a: seq<seq<T>>, b: seq<seq<T>>)
    ensures Prefixed(p, a + b) == Prefixed(p, a) + Prefixed(p, b)
  {
    if a == [] {
      assert a + b == b;
    } else {
      assert (a + b)[1..] == a[1..] + b;
      PrefixedAppend(p, a[1..], b);
    }
  }

  /** A prefix behind a prefix is their concatenation. */
  lemma {:induction false} PrefixedTwice<T>(p: seq<T>, q: seq<T>, ts: seq<seq<T>>)
    ensures Prefixed(p, Prefixed(q, ts)) == Prefixed(p + q, ts)
  {
    if ts != [] {
      PrefixedTwice(p, q, ts[1..]);
      assert p + (q + ts[0]) == (p + q) + ts[0];
    }
  }

  lemma {:induction false} PrefixedEmpty<T>(ts: seq<seq<T>>)
    ensures Prefixed([], ts) == ts
  {
    if ts != [] {
      PrefixedEmpty(ts[1..]);
      assert [] + ts[0] == ts[0];
      assert [ts[0]] + ts[1..] == ts;
    }
  }

  /** A tuple behind the prefix p is in the list exactly when its rest is. */
  lemma {:induction false} PrefixedMember<T>(p: seq<T>, ts: seq<seq<T>>, t: seq<T>)
    ensures p + t in Prefixed(p, ts) <==> t in ts
  {
    if ts != [] {
      PrefixedMember(p, ts[1..], t);
      assert p + t == p + ts[0] <==> t == ts[0] by {
        if p + t == p + ts[0] {
          assert t == (p + t)[|p|..];
          assert ts[0] == (p + ts[0])[|p|..];
        }
      }
      assert ts == [ts[0]] + ts[1..];
    }
  }

  /** Every tuple in the list starts with p. */
  lemma {:induction false} PrefixedStarts<T>(p: seq<T>, ts: seq<seq<T>>, u: seq<T>)
    requires u in Prefixed(p, ts)
    ensures |u| >= |p| && u[..|p|] == p && u[|p|..] in ts
  {
    PrefixedAt(p, ts);
    var j :| 0 <= j < |ts| && Prefixed(p, ts)[j] == u;
    assert u == p + ts[j];
    assert u[|p|..] == ts[j];
  }

  /** Every position tuple of ts is a position list into a pool of n items. */
  predicate Within(ts: seq<seq<nat>>, n: nat)
  {
    forall j, k :: 0 <= j < |ts| && 0 <= k < |ts[j]| ==> ts[j][k] < n
  }

  /** The pool read at each position tuple. */
  function SelectAll<T>(pool: seq<T>, ts: seq<seq<nat>>): (vs: seq<seq<T>>)
    requires Within(ts, |pool|)
    ensures |vs| == |ts| && forall j :: 0 <= j < |ts| ==> vs[j] == Select(pool, ts[j])
  {
    seq(|ts|, j requires 0 <= j < |ts| => Select(pool, ts[j]))
  }

  lemma SelectCons<T>(pool: seq<T>, x: nat, a: seq<nat>)
    requires x < |pool| && forall k :: 0 <= k < |a| ==> a[k] < |pool|
    ensures Select(pool, [x] + a) == [pool[x]] + Select(pool, a)
  {
    assert ([x] + a)[1..] == a;
  }

  /** Reading the pool at every position in order gives the pool back. */
  lemma SelectIota<T>(pool: seq<T>)
    ensures Select(pool, Iota(|pool|)) == pool
  {
  }
}
