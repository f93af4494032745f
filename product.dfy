/** `product` of the ES6 library: the cartesian product of a list of pools.
    The generator fills place idx of a shared buffer with each item of pool
    idx in turn and recurses for the places after it, so the rightmost pool
    varies fastest. */
module Producting {
  import opened Arith
  import opened Tuples
  import opened Pull
  import Combining

  /** Every tuple behind each item of `pool` from position j on, in pool
      order: one block per item, each block listing `rest`. */
  function Branches<T>(pool: seq<T>, j: nat, rest: seq<seq<T>>): seq<seq<T>>
    requires j <= |pool|
    decreases |pool| - j
  {
    if j == |pool| then [] else Prefixed([pool[j]], rest) + Branches(pool, j + 1, rest)
  }

  /** The product of pools idx.., in generator order. No pools left gives the
      single empty tuple. */
  function TuplesFrom<T>(pools: seq<seq<T>>, idx: nat): seq<seq<T>>
    requires idx <= |pools|
    decreases |pools| - idx
  {
    if idx == |pools| then [[]] else Branches(pools[idx], 0, TuplesFrom(pools, idx + 1))
  }

  /** `product(...pools)` as a list. */
  function Product<T>(pools: seq<seq<T>>): seq<seq<T>>
  {
    TuplesFrom(pools, 0)
  }

  /** The product of the sizes of pools idx.. */
  function Sizes<T>(pools: seq<seq<T>>, idx: nat): nat
    requires idx <= |pools|
    decreases |pools| - idx
  {
    if idx == |pools| then 1 else |pools[idx]| * Sizes(pools, idx + 1)
  }

  lemma {:induction false} BranchesCount<T>(pool: seq<T>, j: nat, rest: seq<seq<T>>)
    requires j <= |pool|
    ensures |Branches(pool, j, rest)| == (|pool| - j) * |rest|
    decreases |pool| - j
  {
    if j < |pool| {
      BranchesCount(pool, j + 1, rest);
      MulDistrib(1, |pool| - j - 1, |rest|);
    }
  }

  /** There are as many tuples as the product of the pool sizes. */
  lemma {:induction false} ProductCount<T>(pools: seq<seq<T>>, idx: nat)
    requires idx <= |pools|
    ensures |TuplesFrom(pools, idx)| == Sizes(pools, idx)
    decreases |pools| - idx
  {
    if idx < |pools| {
      ProductCount(pools, idx + 1);
      BranchesCount(pools[idx], 0, TuplesFrom(pools, idx + 1));
    }
  }

  lemma {:induction false} BranchesOfNone<T>(pool: seq<T>, j: nat)
    requires j <= |pool|
    ensures Branches(pool, j, []) == []
    decreases |pool| - j
  {
    if j < |pool| {
      BranchesOfNone(pool, j + 1);
    }
  }

  /** An empty pool anywhere leaves no tuples at all. */
  lemma {:induction false} ProductOfEmpty<T>(pools: seq<seq<T>>, idx: nat, e: nat)
    requires idx <= e < |pools| && pools[e] == []
    ensures TuplesFrom(pools, idx) == []
    decreases |pools| - idx
  {
    if idx < e {
      ProductOfEmpty(pools, idx + 1, e);
      BranchesOfNone(pools[idx], 0);
    }
  }

  /** Block layout: the tuple at i * |rest| + j of the blocks from position s
      is item i of the pool in front of tuple j of the rest. */
  lemma {:induction false} BranchesAt<T>(pool: seq<T>, s: nat, rest: seq<seq<T>>, i: nat, j: nat)
    requires s <= i < |pool| && j < |rest|
    ensures (i - s) * |rest| + j < |Branches(pool, s, rest)|
    ensures Branches(pool, s, rest)[(i - s) * |rest| + j] == [pool[i]] + rest[j]
    decreases i - s
  {
    var front := Prefixed([pool[s]], rest);
    assert Branches(pool, s, rest) == front + Branches(pool, s + 1, rest);
    if i == s {
      PrefixedAt([pool[s]], rest);
      assert (i - s) * |rest| + j == j;
    } else {
      BranchesAt(pool, s + 1, rest, i, j);
      MulDistrib(1, i - (s + 1), |rest|);
      assert 1 + (i - (s + 1)) == i - s;
      assert (i - s) * |rest| + j == |rest| + ((i - (s + 1)) * |rest| + j);
    }
  }

  /** The rightmost pool varies fastest: tuple i * |rest| + j is item i of
      the first pool in front of tuple j of the product of the others. */
  lemma ProductAt<T>(pools: seq<seq<T>>, i: nat, j: nat)
    requires |pools| > 0 && i < |pools[0]| && j < |TuplesFrom(pools, 1)|
    ensures i * |TuplesFrom(pools, 1)| + j < |Product(pools)|
    ensures Product(pools)[i * |TuplesFrom(pools, 1)| + j] == [pools[0][i]] + TuplesFrom(pools, 1)[j]
  {
    BranchesAt(pools[0], 0, TuplesFrom(pools, 1), i, j);
  }

  /** Every tuple takes one item from each pool, in order. */
  lemma {:induction false} ProductItems<T>(pools: seq<seq<T>>, idx: nat, t: seq<T>)
    requires idx <= |pools| && t in TuplesFrom(pools, idx)
    ensures |t| == |pools| - idx && forall k :: 0 <= k < |t| ==> t[k] in pools[idx + k]
    decreases |pools| - idx
  {
    if idx < |pools| {
      var rest := TuplesFrom(pools, idx + 1);
      var i := BranchOf(pools[idx], 0, rest, t);
      var u := t[1..];
      ProductItems(pools, idx + 1, u);
      forall k | 0 <= k < |t|
        ensures t[k] in pools[idx + k]
      {
        if k > 0 {
          assert t[k] == u[k - 1];
        }
      }
    }
  }

  /** A tuple of the blocks is an item of the pool in front of a tuple of the
      rest; returns the position of that item. */
  lemma {:induction false} BranchOf<T>(pool: seq<T>, s: nat, rest: seq<seq<T>>, t: seq<T>) returns (i: nat)
    requires s <= |pool| && t in Branches(pool, s, rest)
    ensures s <= i < |pool| && t != [] && t[0] == pool[i] && t[1..] in rest
    decreases |pool| - s
  {
    if t in Prefixed([pool[s]], rest) {
      PrefixedStarts([pool[s]], rest, t);
      assert t[1..] in rest;
      i := s;
    } else {
      i := BranchOf(pool, s + 1, rest, t);
    }
  }

  /** Every such tuple is yielded. */
  lemma {:induction false} ProductComplete<T>(pools: seq<seq<T>>, idx: nat, t: seq<T>)
    requires idx <= |pools| && |t| == |pools| - idx
    requires forall k :: 0 <= k < |t| ==> t[k] in pools[idx + k]
    ensures t in TuplesFrom(pools, idx)
    decreases |pools| - idx
  {
    if idx < |pools| {
      var rest := TuplesFrom(pools, idx + 1);
      var u := t[1..];
      forall k | 0 <= k < |u|
        ensures u[k] in pools[idx + 1 + k]
      {
        assert u[k] == t[k + 1];
      }
      ProductComplete(pools, idx + 1, u);
      assert t[0] in pools[idx];
      var i :| 0 <= i < |pools[idx]| && pools[idx][i] == t[0];
      BranchesHas(pools[idx], 0, rest, i, u);
      assert t == [pools[idx][i]] + u;
    }
  }

  lemma {:induction false} BranchesHas<T>(pool: seq<T>, s: nat, rest: seq<seq<T>>, i: nat, u: seq<T>)
    requires s <= i < |pool| && u in rest
    ensures [pool[i]] + u in Branches(pool, s, rest)
    decreases i - s
  {
    if i == s {
      PrefixedMember([pool[s]], rest, u);
    } else {
      BranchesHas(pool, s + 1, rest, i, u);
    }
  }

  /** The loop invariant of `gen` survives one turn. */
  lemma GenStep<T>(pool: seq<T>, j: nat, rest: seq<seq<T>>, p: seq<T>, out: seq<seq<T>>,
                   sub: seq<seq<T>>, goal: seq<seq<T>>)
    requires j < |pool|
    requires out + Prefixed(p, Branches(pool, j, rest)) == goal
    requires sub == Prefixed(p + [pool[j]], rest)
    ensures (out + sub) + Prefixed(p, Branches(pool, j + 1, rest)) == goal
  {
    PrefixedAppend(p, Prefixed([pool[j]], rest), Branches(pool, j + 1, rest));
    PrefixedTwice(p, [pool[j]], rest);
    AppendAssoc(out, sub, Prefixed(p, Branches(pool, j + 1, rest)));
  }

  /** `gen(idx)` of `product`: places idx.. of the shared buffer `res` take one
      item from each of pools idx.. in turn; the first idx places are left as
      they were, and the buffer never grows past the number of pools. */
  method Gen<T>(pools: seq<seq<T>>, buf: Combining.Buffer<T>, idx: nat) returns (out: seq<seq<T>>)
    requires idx <= |buf.items| <= |pools|
    modifies buf
    ensures idx <= |buf.items| <= |pools| && buf.items[..idx] == old(buf.items[..idx])
    ensures out == Prefixed(old(buf.items[..idx]), TuplesFrom(pools, idx))
    decreases |pools| - idx, 1
  {
    ghost var p := buf.items[..idx];
    if idx >= |pools| {
      assert buf.items == p + [];
      return [buf.items];
    }
    var pool := pools[idx];
    ghost var rest := TuplesFrom(pools, idx + 1);
    ghost var goal := Prefixed(p, Branches(pool, 0, rest));
    out := [];
    var j := 0;
    while j < |pool|
      invariant j <= |pool|
      invariant idx <= |buf.items| <= |pools| && buf.items[..idx] == p
      invariant out + Prefixed(p, Branches(pool, j, rest)) == goal
    {
      var sub := Place(pools, buf, idx, pool[j], p);
      GenStep(pool, j, rest, p, out, sub, goal);
      out := out + sub;
      j := j + 1;
    }
  }

  /** One turn of the loop in `gen`: `res[idx] = v`, then the tuples the
      nested `gen(idx + 1)` yields. */
  method Place<T>(pools: seq<seq<T>>, buf: Combining.Buffer<T>, idx: nat, v: T, ghost p: seq<T>)
    returns (sub: seq<seq<T>>)
    requires idx < |pools| && idx <= |buf.items| <= |pools| && buf.items[..idx] == p
    modifies buf
    ensures idx <= |buf.items| <= |pools| && buf.items[..idx] == p
    ensures sub == Prefixed(p + [v], TuplesFrom(pools, idx + 1))
    decreases |pools| - idx, 0
  {
    buf.Store(idx, v);
    assert buf.items[..idx + 1] == p + [v];
    sub := Gen(pools, buf, idx + 1);
    assert buf.items[..idx] == buf.items[..idx + 1][..idx];
  }

  /** `product(...pools)`, in generator order. */
  method ProductOf<T>(pools: seq<seq<T>>) returns (out: seq<seq<T>>)
    ensures out == Product(pools)
  {
    var res := new Combining.Buffer();
    out := Gen(pools, res, 0);
    PrefixedEmpty(Product(pools));
  }
}
