/** `combinations` and `combinationsWithReplacement` of the ES6 library. Both
    put one pool item into a shared buffer, recurse for the places after it and
    yield a copy of the buffer once it holds r items. `combinations` moves on
    to the next pool position for the next place; `combinationsWithReplacement`
    may take the same position again. */
module Combining {
  import opened Pull
  import opened Tuples

  /** The r-item subsequences of xs in the order the generator yields them:
      those that take xs[0], then those that skip it. */
  function Choose<T>(xs: seq<T>, r: nat): seq<seq<T>>
    decreases |xs|
  {
    if r == 0 then [[]]
    else if xs == [] then []
    else Prefixed([xs[0]], Choose(xs[1..], r - 1)) + Choose(xs[1..], r)
  }

  /** The r-item selections from xs that may repeat an item, each listed in the
      order of xs: those that start with xs[0], then those without it. */
  function ChooseRep<T>(xs: seq<T>, r: nat): seq<seq<T>>
    decreases |xs|, r
  {
    if r == 0 then [[]]
    else if xs == [] then []
    else Prefixed([xs[0]], ChooseRep(xs, r - 1)) + ChooseRep(xs[1..], r)
  }

  /** The binomial coefficient, by Pascal's rule. */
  function Binom(n: nat, r: nat): nat
  {
    if r == 0 then 1 else if n == 0 then 0 else Binom(n - 1, r - 1) + Binom(n - 1, r)
  }

  lemma {:induction false} BinomAbove(n: nat, r: nat)
    requires r > n
    ensures Binom(n, r) == 0
  {
    if n > 0 {
      BinomAbove(n - 1, r - 1);
      BinomAbove(n - 1, r);
    }
  }

  /** There are C(n, r) combinations of n items. */
  lemma {:induction false} ChooseCount<T>(xs: seq<T>, r: nat)
    ensures |Choose(xs, r)| == Binom(|xs|, r)
    decreases |xs|
  {
    if r > 0 && xs != [] {
      ChooseCount(xs[1..], r - 1);
      ChooseCount(xs[1..], r);
    }
  }

  /** There are C(n + r - 1, r) selections with repetition from n > 0 items,
      and none from no items unless r is 0. */
  lemma {:induction false} ChooseRepCount<T>(xs: seq<T>, r: nat)
    ensures xs != [] ==> |ChooseRep(xs, r)| == Binom(|xs| + r - 1, r)
    ensures xs == [] ==> |ChooseRep(xs, r)| == if r == 0 then 1 else 0
    decreases |xs|, r
  {
    if r > 0 && xs != [] {
      ChooseRepCount(xs, r - 1);
      ChooseRepCount(xs[1..], r);
      if |xs| == 1 {
        BinomAbove(r - 1, r);
      }
    }
  }

  /** Every tuple has r items, each an item of xs. */
  lemma {:induction false} ChooseItems<T>(xs: seq<T>, r: nat, t: seq<T>)
    requires t in Choose(xs, r)
    ensures |t| == r && forall k :: 0 <= k < |t| ==> t[k] in xs
    decreases |xs|
  {
    if r > 0 && xs != [] {
      assert xs == [xs[0]] + xs[1..];
      if t in Choose(xs[1..], r) {
        ChooseItems(xs[1..], r, t);
      } else {
        var rest := Choose(xs[1..], r - 1);
        assert t in Prefixed([xs[0]], rest);
        PrefixedStarts([xs[0]], rest, t);
        assert t[1..] in rest;
        ChooseItems(xs[1..], r - 1, t[1..]);
        forall k | 0 <= k < |t|
          ensures t[k] in xs
        {
          if k > 0 {
            assert t[k] == t[1..][k - 1];
          }
        }
      }
    }
  }

  lemma {:induction false} ChooseRepItems<T>(xs: seq<T>, r: nat, t: seq<T>)
    requires t in ChooseRep(xs, r)
    ensures |t| == r && forall k :: 0 <= k < |t| ==> t[k] in xs
    decreases |xs|, r
  {
    if r > 0 && xs != [] {
      assert xs == [xs[0]] + xs[1..];
      if t in ChooseRep(xs[1..], r) {
        ChooseRepItems(xs[1..], r, t);
      } else {
        var rest := ChooseRep(xs, r - 1);
        assert t in Prefixed([xs[0]], rest);
        PrefixedStarts([xs[0]], rest, t);
        assert t[1..] in rest;
        ChooseRepItems(xs, r - 1, t[1..]);
        forall k | 0 <= k < |t|
          ensures t[k] in xs
        {
          if k > 0 {
            assert t[k] == t[1..][k - 1];
          }
        }
      }
    }
  }

  /** Position tuples: strictly increasing for `combinations`. */
  predicate Increasing(s: seq<nat>)
  {
    forall p, q :: 0 <= p < q < |s| ==> s[p] < s[q]
  }

  /** Position tuples: non-decreasing for `combinationsWithReplacement`. */
  predicate NonDecreasing(s: seq<nat>)
  {
    forall p, q :: 0 <= p < q < |s| ==> s[p] <= s[q]
  }

  /** `a` comes before `b` in lexicographic order. */
  predicate LexLess(a: seq<nat>, b: seq<nat>)
  {
    a != [] && b != [] && (a[0] < b[0] || (a[0] == b[0] && LexLess(a[1..], b[1..])))
  }

  /** The tuples come in strictly increasing lexicographic order. */
  predicate LexSorted(ts: seq<seq<nat>>)
  {
    forall j, k :: 0 <= j < k < |ts| ==> LexLess(ts[j], ts[k])
  }

  /** In an increasing sequence every later item is above the first. */
  lemma TailAbove(xs: seq<nat>, x: nat)
    requires Increasing(xs) && xs != [] && x in xs[1..]
    ensures xs[0] < x
  {
    var j :| 0 <= j < |xs[1..]| && xs[1..][j] == x;
    assert xs[j + 1] == x;
  }

  /** An item of xs other than its first is an item of its tail. */
  lemma InTail<T>(xs: seq<T>, x: T)
    requires x in xs && x != xs[0]
    ensures x in xs[1..]
  {
    assert xs == [xs[0]] + xs[1..];
  }

  lemma IncreasingTail(xs: seq<nat>)
    requires Increasing(xs) && xs != []
    ensures Increasing(xs[1..])
  {
    forall p, q | 0 <= p < q < |xs[1..]|
      ensures xs[1..][p] < xs[1..][q]
    {
      assert xs[1..][p] == xs[p + 1] && xs[1..][q] == xs[q + 1];
    }
  }

  /** Put x in front of an increasing tuple whose items are all above x. */
  lemma IncreasingCons(x: nat, u: seq<nat>)
    requires Increasing(u) && forall k :: 0 <= k < |u| ==> x < u[k]
    ensures Increasing([x] + u)
  {
    var t := [x] + u;
    forall p, q | 0 <= p < q < |t|
      ensures t[p] < t[q]
    {
      assert t[q] == u[q - 1];
      if p > 0 {
        assert t[p] == u[p - 1];
      }
    }
  }

  /** From an increasing pool, `combinations` yields increasing tuples. */
  lemma {:induction false} ChooseIncreasing(xs: seq<nat>, r: nat, t: seq<nat>)
    requires Increasing(xs) && t in Choose(xs, r)
    ensures Increasing(t)
    decreases |xs|
  {
    if r > 0 && xs != [] {
      IncreasingTail(xs);
      if t in Choose(xs[1..], r) {
        ChooseIncreasing(xs[1..], r, t);
      } else {
        var rest := Choose(xs[1..], r - 1);
        assert t in Prefixed([xs[0]], rest);
        PrefixedStarts([xs[0]], rest, t);
        var u := t[1..];
        assert u in rest;
        ChooseIncreasing(xs[1..], r - 1, u);
        ChooseItems(xs[1..], r - 1, u);
        forall k | 0 <= k < |u|
          ensures xs[0] < u[k]
        {
          TailAbove(xs, u[k]);
        }
        IncreasingCons(xs[0], u);
        assert t == [xs[0]] + u;
      }
    }
  }

  /** Every increasing r-tuple of items of an increasing pool is yielded. */
  lemma {:induction false} ChooseComplete(xs: seq<nat>, r: nat, t: seq<nat>)
    requires Increasing(xs) && Increasing(t) && |t| == r
    requires forall k :: 0 <= k < |t| ==> t[k] in xs
    ensures t in Choose(xs, r)
    decreases |xs|
  {
    if r == 0 {
      assert t == [];
    } else {
      assert t[0] in xs;
      if t[0] == xs[0] {
        var u := t[1..];
        forall k | 0 <= k < |u|
          ensures u[k] in xs[1..]
        {
          assert u[k] == t[k + 1];
          InTail(xs, u[k]);
        }
        IncreasingTail(xs);
        IncreasingTail(t);
        ChooseComplete(xs[1..], r - 1, u);
        PrefixedMember([xs[0]], Choose(xs[1..], r - 1), u);
        assert t == [xs[0]] + u;
      } else {
        InTail(xs, t[0]);
        TailAbove(xs, t[0]);
        forall k | 0 <= k < |t|
          ensures t[k] in xs[1..]
        {
          InTail(xs, t[k]);
        }
        IncreasingTail(xs);
        ChooseComplete(xs[1..], r, t);
      }
    }
  }

  lemma NonDecreasingTail(xs: seq<nat>)
    requires NonDecreasing(xs) && xs != []
    ensures NonDecreasing(xs[1..])
  {
    forall p, q | 0 <= p < q < |xs[1..]|
      ensures xs[1..][p] <= xs[1..][q]
    {
      assert xs[1..][p] == xs[p + 1] && xs[1..][q] == xs[q + 1];
    }
  }

  lemma NonDecreasingCons(x: nat, u: seq<nat>)
    requires NonDecreasing(u) && forall k :: 0 <= k < |u| ==> x <= u[k]
    ensures NonDecreasing([x] + u)
  {
    var t := [x] + u;
    forall p, q | 0 <= p < q < |t|
      ensures t[p] <= t[q]
    {
      assert t[q] == u[q - 1];
      if p > 0 {
        assert t[p] == u[p - 1];
      }
    }
  }

  /** No item of an increasing sequence is below its first. */
  lemma AtLeastFirst(xs: seq<nat>, x: nat)
    requires Increasing(xs) && x in xs
    ensures xs[0] <= x
  {
    if x != xs[0] {
      InTail(xs, x);
      TailAbove(xs, x);
    }
  }

  /** From an increasing pool, `combinationsWithReplacement` yields
      non-decreasing tuples. */
  lemma {:induction false} ChooseRepNonDecreasing(xs: seq<nat>, r: nat, t: seq<nat>)
    requires Increasing(xs) && t in ChooseRep(xs, r)
    ensures NonDecreasing(t)
    decreases |xs|, r
  {
    if r > 0 && xs != [] {
      if t in ChooseRep(xs[1..], r) {
        IncreasingTail(xs);
        ChooseRepNonDecreasing(xs[1..], r, t);
      } else {
        var rest := ChooseRep(xs, r - 1);
        assert t in Prefixed([xs[0]], rest);
        PrefixedStarts([xs[0]], rest, t);
        var u := t[1..];
        assert u in rest;
        ChooseRepNonDecreasing(xs, r - 1, u);
        ChooseRepItems(xs, r - 1, u);
        forall k | 0 <= k < |u|
          ensures xs[0] <= u[k]
        {
          AtLeastFirst(xs, u[k]);
        }
        NonDecreasingCons(xs[0], u);
        assert t == [xs[0]] + u;
      }
    }
  }

  /** Every non-decreasing r-tuple of items of an increasing pool is yielded. */
  lemma {:induction false} ChooseRepComplete(xs: seq<nat>, r: nat, t: seq<nat>)
    requires Increasing(xs) && NonDecreasing(t) && |t| == r
    requires forall k :: 0 <= k < |t| ==> t[k] in xs
    ensures t in ChooseRep(xs, r)
    decreases |xs|, r
  {
    if r == 0 {
      assert t == [];
    } else {
      assert t[0] in xs;
      if t[0] == xs[0] {
        var u := t[1..];
        forall k | 0 <= k < |u|
          ensures u[k] in xs
        {
          assert u[k] == t[k + 1];
        }
        NonDecreasingTail(t);
        ChooseRepComplete(xs, r - 1, u);
        PrefixedMember([xs[0]], ChooseRep(xs, r - 1), u);
        assert t == [xs[0]] + u;
      } else {
        InTail(xs, t[0]);
        TailAbove(xs, t[0]);
        forall k | 0 <= k < |t|
          ensures t[k] in xs[1..]
        {
          InTail(xs, t[k]);
        }
        IncreasingTail(xs);
        ChooseRepComplete(xs[1..], r, t);
      }
    }
  }

  lemma LexSortedPrefixed(x: nat, ts: seq<seq<nat>>)
    requires LexSorted(ts)
    ensures LexSorted(Prefixed([x], ts))
  {
    var ps := Prefixed([x], ts);
    PrefixedAt([x], ts);
    forall j, k | 0 <= j < k < |ps|
      ensures LexLess(ps[j], ps[k])
    {
      assert ps[j][1..] == ts[j] && ps[k][1..] == ts[k];
    }
  }

  lemma LexSortedAppend(a: seq<seq<nat>>, b: seq<seq<nat>>)
    requires LexSorted(a) && LexSorted(b)
    requires forall i, j :: 0 <= i < |a| && 0 <= j < |b| ==> LexLess(a[i], b[j])
    ensures LexSorted(a + b)
  {
    var ab := a + b;
    forall j, k | 0 <= j < k < |ab|
      ensures LexLess(ab[j], ab[k])
    {
      if k < |a| {
        assert ab[j] == a[j] && ab[k] == a[k];
      } else if j < |a| {
        assert ab[j] == a[j] && ab[k] == b[k - |a|];
      } else {
        assert ab[j] == b[j - |a|] && ab[k] == b[k - |a|];
      }
    }
  }

  /** Tuples behind `x` come before r-tuples whose first item is above `x`. */
  lemma LexBefore(x: nat, a: seq<seq<nat>>, b: seq<seq<nat>>)
    requires forall j :: 0 <= j < |b| ==> b[j] != [] && x < b[j][0]
    ensures forall i, j :: 0 <= i < |a| && 0 <= j < |b| ==> LexLess(Prefixed([x], a)[i], b[j])
  {
    PrefixedAt([x], a);
  }

  /** From an increasing pool, `combinations` comes in lexicographic order. */
  lemma {:induction false} ChooseSorted(xs: seq<nat>, r: nat)
    requires Increasing(xs)
    ensures LexSorted(Choose(xs, r))
    decreases |xs|
  {
    if r > 0 && xs != [] {
      IncreasingTail(xs);
      var a := Choose(xs[1..], r - 1);
      var b := Choose(xs[1..], r);
      ChooseSorted(xs[1..], r - 1);
      ChooseSorted(xs[1..], r);
      LexSortedPrefixed(xs[0], a);
      forall j | 0 <= j < |b|
        ensures b[j] != [] && xs[0] < b[j][0]
      {
        ChooseItems(xs[1..], r, b[j]);
        TailAbove(xs, b[j][0]);
      }
      LexBefore(xs[0], a, b);
      LexSortedAppend(Prefixed([xs[0]], a), b);
    }
  }

  /** From an increasing pool, `combinationsWithReplacement` comes in
      lexicographic order. */
  lemma {:induction false} ChooseRepSorted(xs: seq<nat>, r: nat)
    requires Increasing(xs)
    ensures LexSorted(ChooseRep(xs, r))
    decreases |xs|, r
  {
    if r > 0 && xs != [] {
      IncreasingTail(xs);
      var a := ChooseRep(xs, r - 1);
      var b := ChooseRep(xs[1..], r);
      ChooseRepSorted(xs, r - 1);
      ChooseRepSorted(xs[1..], r);
      LexSortedPrefixed(xs[0], a);
      forall j | 0 <= j < |b|
        ensures b[j] != [] && xs[0] < b[j][0]
      {
        ChooseRepItems(xs[1..], r, b[j]);
        TailAbove(xs, b[j][0]);
      }
      LexBefore(xs[0], a, b);
      LexSortedAppend(Prefixed([xs[0]], a), b);
    }
  }

  lemma ChooseWithin(xs: seq<nat>, r: nat, n: nat)
    requires forall k :: 0 <= k < |xs| ==> xs[k] < n
    ensures Within(Choose(xs, r), n)
  {
    var ts := Choose(xs, r);
    forall j | 0 <= j < |ts|
      ensures forall k :: 0 <= k < |ts[j]| ==> ts[j][k] < n
    {
      ChooseItems(xs, r, ts[j]);
    }
  }

  lemma ChooseRepWithin(xs: seq<nat>, r: nat, n: nat)
    requires forall k :: 0 <= k < |xs| ==> xs[k] < n
    ensures Within(ChooseRep(xs, r), n)
  {
    var ts := ChooseRep(xs, r);
    forall j | 0 <= j < |ts|
      ensures forall k :: 0 <= k < |ts[j]| ==> ts[j][k] < n
    {
      ChooseRepItems(xs, r, ts[j]);
    }
  }

  lemma WithinSplit(n: nat, x: nat, a: seq<seq<nat>>, b: seq<seq<nat>>)
    requires x < n && Within(a, n) && Within(b, n)
    ensures Within(Prefixed([x], a) + b, n)
  {
    var ts := Prefixed([x], a) + b;
    PrefixedAt([x], a);
    forall j, k | 0 <= j < |ts| && 0 <= k < |ts[j]|
      ensures ts[j][k] < n
    {
      if j < |a| {
        if k > 0 {
          assert ts[j][k] == a[j][k - 1];
        }
      } else {
        assert ts[j] == b[j - |a|];
      }
    }
  }

  /** Reading the pool at the tuples behind position x, then at the others. */
  lemma SelectAllSplit<T>(pool: seq<T>, x: nat, a: seq<seq<nat>>, b: seq<seq<nat>>)
    requires x < |pool| && Within(a, |pool|) && Within(b, |pool|)
    ensures Within(Prefixed([x], a) + b, |pool|)
    ensures SelectAll(pool, Prefixed([x], a) + b)
      == Prefixed([pool[x]], SelectAll(pool, a)) + SelectAll(pool, b)
  {
    WithinSplit(|pool|, x, a, b);
    var ts := Prefixed([x], a) + b;
    var sa := SelectAll(pool, a);
    var lhs := Prefixed([pool[x]], sa) + SelectAll(pool, b);
    PrefixedAt([pool[x]], sa);
    PrefixedAt([x], a);
    forall j | 0 <= j < |ts|
      ensures lhs[j] == Select(pool, ts[j])
    {
      if j < |a| {
        SelectCons(pool, x, a[j]);
      } else {
        assert ts[j] == b[j - |a|];
      }
    }
  }

  /** Choosing among the items at some positions is reading the pool at the
      chosen positions. */
  lemma {:induction false} ChooseSelect<T>(pool: seq<T>, xs: seq<nat>, r: nat)
    requires forall k :: 0 <= k < |xs| ==> xs[k] < |pool|
    ensures Within(Choose(xs, r), |pool|)
    ensures Choose(Select(pool, xs), r) == SelectAll(pool, Choose(xs, r))
    decreases |xs|
  {
    ChooseWithin(xs, r, |pool|);
    if r > 0 && xs != [] {
      var ys := Select(pool, xs);
      assert ys[1..] == Select(pool, xs[1..]);
      ChooseSelect(pool, xs[1..], r - 1);
      ChooseSelect(pool, xs[1..], r);
      SelectAllSplit(pool, xs[0], Choose(xs[1..], r - 1), Choose(xs[1..], r));
    }
  }

  lemma {:induction false} ChooseRepSelect<T>(pool: seq<T>, xs: seq<nat>, r: nat)
    requires forall k :: 0 <= k < |xs| ==> xs[k] < |pool|
    ensures Within(ChooseRep(xs, r), |pool|)
    ensures ChooseRep(Select(pool, xs), r) == SelectAll(pool, ChooseRep(xs, r))
    decreases |xs|, r
  {
    ChooseRepWithin(xs, r, |pool|);
    if r > 0 && xs != [] {
      var ys := Select(pool, xs);
      assert ys[1..] == Select(pool, xs[1..]);
      ChooseRepSelect(pool, xs, r - 1);
      ChooseRepSelect(pool, xs[1..], r);
      SelectAllSplit(pool, xs[0], ChooseRep(xs, r - 1), ChooseRep(xs[1..], r));
    }
  }

  lemma IotaIncreasing(n: nat)
    ensures Increasing(Iota(n))
  {
  }

  /** `combinations(pool, r)` is the pool read at position tuples taken in
      lexicographic order; `ChooseIndexMember` says which tuples those are. */
  lemma ChoosePositions<T>(pool: seq<T>, r: nat)
    ensures Within(Choose(Iota(|pool|), r), |pool|)
    ensures Choose(pool, r) == SelectAll(pool, Choose(Iota(|pool|), r))
    ensures LexSorted(Choose(Iota(|pool|), r))
  {
    SelectIota(pool);
    IotaIncreasing(|pool|);
    ChooseSelect(pool, Iota(|pool|), r);
    ChooseSorted(Iota(|pool|), r);
  }

  /** The position tuples are exactly the increasing r-tuples below n. */
  lemma ChooseIndexMember(n: nat, r: nat, t: seq<nat>)
    ensures t in Choose(Iota(n), r) <==>
      |t| == r && Increasing(t) && forall k :: 0 <= k < r ==> t[k] < n
  {
    IotaIncreasing(n);
    if t in Choose(Iota(n), r) {
      ChooseItems(Iota(n), r, t);
      ChooseIncreasing(Iota(n), r, t);
    }
    if |t| == r && Increasing(t) && forall k :: 0 <= k < r ==> t[k] < n {
      assert forall k :: 0 <= k < r ==> t[k] == Iota(n)[t[k]];
      ChooseComplete(Iota(n), r, t);
    }
  }

  /** `combinationsWithReplacement(pool, r)` is the pool read at position
      tuples taken in lexicographic order. */
  lemma ChooseRepPositions<T>(pool: seq<T>, r: nat)
    ensures Within(ChooseRep(Iota(|pool|), r), |pool|)
    ensures ChooseRep(pool, r) == SelectAll(pool, ChooseRep(Iota(|pool|), r))
    ensures LexSorted(ChooseRep(Iota(|pool|), r))
  {
    SelectIota(pool);
    IotaIncreasing(|pool|);
    ChooseRepSelect(pool, Iota(|pool|), r);
    ChooseRepSorted(Iota(|pool|), r);
  }

  /** Those position tuples are exactly the non-decreasing r-tuples below n. */
  lemma ChooseRepIndexMember(n: nat, r: nat, t: seq<nat>)
    ensures t in ChooseRep(Iota(n), r) <==>
      |t| == r && NonDecreasing(t) && forall k :: 0 <= k < r ==> t[k] < n
  {
    IotaIncreasing(n);
    if t in ChooseRep(Iota(n), r) {
      ChooseRepItems(Iota(n), r, t);
      ChooseRepNonDecreasing(Iota(n), r, t);
    }
    if |t| == r && NonDecreasing(t) && forall k :: 0 <= k < r ==> t[k] < n {
      assert forall k :: 0 <= k < r ==> t[k] == Iota(n)[t[k]];
      ChooseRepComplete(Iota(n), r, t);
    }
  }

  /** `Choose(pool[i..], r)`, indexed by the position the generator loop starts from. */
  function ChooseFrom<T>(pool: seq<T>, i: nat, r: nat): seq<seq<T>>
    requires i <= |pool|
    decreases |pool| - i
  {
    if r == 0 then [[]]
    else if i == |pool| then []
    else Prefixed([pool[i]], ChooseFrom(pool, i + 1, r - 1)) + ChooseFrom(pool, i + 1, r)
  }

  lemma {:induction false} ChooseFromSlice<T>(pool: seq<T>, i: nat, r: nat)
    requires i <= |pool|
    ensures ChooseFrom(pool, i, r) == Choose(pool[i..], r)
    decreases |pool| - i
  {
    if r > 0 && i < |pool| {
      assert pool[i..][1..] == pool[i + 1..];
      ChooseFromSlice(pool, i + 1, r - 1);
      ChooseFromSlice(pool, i + 1, r);
    }
  }

  /** One turn of the generator loop at position i: the tuples that put
      pool[i] in the next place, then those that start further on. */
  lemma ChooseStep<T>(pool: seq<T>, p: seq<T>, i: nat, rem: nat)
    requires i < |pool| && rem > 0
    ensures Prefixed(p, ChooseFrom(pool, i, rem))
      == Prefixed(p + [pool[i]], ChooseFrom(pool, i + 1, rem - 1)) + Prefixed(p, ChooseFrom(pool, i + 1, rem))
  {
    PrefixedAppend(p, Prefixed([pool[i]], ChooseFrom(pool, i + 1, rem - 1)), ChooseFrom(pool, i + 1, rem));
    PrefixedTwice(p, [pool[i]], ChooseFrom(pool, i + 1, rem - 1));
  }

  /** The loop invariant of `gen` survives one turn. */
  lemma GenStep<T>(pool: seq<T>, p: seq<T>, i: nat, rem: nat, out: seq<seq<T>>, sub: seq<seq<T>>,
                   goal: seq<seq<T>>)
    requires i < |pool| && rem > 0
    requires out + Prefixed(p, ChooseFrom(pool, i, rem)) == goal
    requires sub == Prefixed(p + [pool[i]], ChooseFrom(pool, i + 1, rem - 1))
    ensures (out + sub) + Prefixed(p, ChooseFrom(pool, i + 1, rem)) == goal
  {
    ChooseStep(pool, p, i, rem);
    AppendAssoc(out, sub, Prefixed(p, ChooseFrom(pool, i + 1, rem)));
  }

  /** A growable JS array used as the generators' shared `result` buffer. */
  class Buffer<T> {
    var items: seq<T>

    constructor ()
      ensures items == []
    {
      items := [];
    }

    /** `result[idx] = x`: overwrites place idx, or appends when idx is the
        current length. */
    method Store(idx: nat, x: T)
      requires idx <= |items|
      modifies this
      ensures idx < |old(items)| ==> items == old(items)[idx := x]
      ensures idx == |old(items)| ==> items == old(items) + [x]
    {
      if idx < |items| {
        items := items[idx := x];
      } else {
        items := items + [x];
      }
    }

    /** `result.push(x)`. */
    method Push(x: T)
      modifies this
      ensures items == old(items) + [x]
    {
      items := items + [x];
    }

    /** `result.pop()`, on a non-empty buffer. */
    method Pop()
      requires items != []
      modifies this
      ensures items == old(items)[..|old(items)| - 1]
    {
      items := items[..|items| - 1];
    }
  }

  /** `gen(idx, start)` of `combinations(pool, r)`: places idx.. of the shared
      buffer are filled from pool positions start.. onwards; the first idx
      places are left as they were, and the buffer never grows past r. */
  method Gen<T>(pool: seq<T>, r: nat, buf: Buffer<T>, idx: nat, start: nat) returns (out: seq<seq<T>>)
    requires idx <= |buf.items| <= r && start <= |pool|
    modifies buf
    ensures idx <= |buf.items| <= r && buf.items[..idx] == old(buf.items[..idx])
    ensures out == Prefixed(old(buf.items[..idx]), ChooseFrom(pool, start, r - idx))
    decreases r - idx, 1
  {
    ghost var p := buf.items[..idx];
    if idx >= r {
      assert buf.items == p + [];
      return [buf.items];
    }
    var rem := r - idx;
    out := [];
    var i := start;
    while i < |pool|
      invariant start <= i <= |pool|
      invariant idx <= |buf.items| <= r && buf.items[..idx] == p
      invariant out + Prefixed(p, ChooseFrom(pool, i, rem)) == Prefixed(p, ChooseFrom(pool, start, rem))
      decreases |pool| - i
    {
      var sub := Place(pool, r, buf, idx, i, p, rem);
      GenStep(pool, p, i, rem, out, sub, Prefixed(p, ChooseFrom(pool, start, rem)));
      out := out + sub;
      i := i + 1;
    }
  }

  /** One turn of the loop in `gen`: `result[idx] = pool[i]`, then the
      tuples the nested `gen(idx + 1, i + 1)` yields. */
  method Place<T>(pool: seq<T>, r: nat, buf: Buffer<T>, idx: nat, i: nat, ghost p: seq<T>, ghost rem: nat)
    returns (sub: seq<seq<T>>)
    requires idx < r && idx <= |buf.items| <= r && i < |pool| && buf.items[..idx] == p && rem == r - idx
    modifies buf
    ensures idx <= |buf.items| <= r && buf.items[..idx] == p
    ensures sub == Prefixed(p + [pool[i]], ChooseFrom(pool, i + 1, rem - 1))
    decreases r - idx, 0
  {
    buf.Store(idx, pool[i]);
    assert buf.items[..idx + 1] == p + [pool[i]];
    sub := Gen(pool, r, buf, idx + 1, i + 1);
    assert buf.items[..idx] == buf.items[..idx + 1][..idx];
  }

  /** `combinations(pool, r)`: no generator at all when r exceeds the pool,
      otherwise the r-item subsequences in generator order. */
  method Combinations<T>(pool: seq<T>, r: nat) returns (out: Option<seq<seq<T>>>)
    ensures r > |pool| <==> out == None
    ensures r <= |pool| ==> out == Some(Choose(pool, r))
  {
    if r > |pool| {
      return None;
    }
    var result := new Buffer();
    var all := Gen(pool, r, result, 0, 0);
    assert pool[0..] == pool;
    ChooseFromSlice(pool, 0, r);
    PrefixedEmpty(Choose(pool, r));
    return Some(all);
  }

  /** `ChooseRep(pool[i..], r)`, indexed by the position the generator loop
      starts from. */
  function ChooseRepFrom<T>(pool: seq<T>, i: nat, r: nat): seq<seq<T>>
    requires i <= |pool|
    decreases |pool| - i, r
  {
    if r == 0 then [[]]
    else if i == |pool| then []
    else Prefixed([pool[i]], ChooseRepFrom(pool, i, r - 1)) + ChooseRepFrom(pool, i + 1, r)
  }

  lemma {:induction false} ChooseRepFromSlice<T>(pool: seq<T>, i: nat, r: nat)
    requires i <= |pool|
    ensures ChooseRepFrom(pool, i, r) == ChooseRep(pool[i..], r)
    decreases |pool| - i, r
  {
    if r > 0 && i < |pool| {
      assert pool[i..][1..] == pool[i + 1..];
      ChooseRepFromSlice(pool, i, r - 1);
      ChooseRepFromSlice(pool, i + 1, r);
    }
  }

  /** The loop invariant of the `combinationsWithReplacement` generator
      survives one turn. */
  lemma GenRepStep<T>(pool: seq<T>, p: seq<T>, i: nat, rem: nat, out: seq<seq<T>>, sub: seq<seq<T>>,
                      goal: seq<seq<T>>)
    requires i < |pool| && rem > 0
    requires out + Prefixed(p, ChooseRepFrom(pool, i, rem)) == goal
    requires sub == Prefixed(p + [pool[i]], ChooseRepFrom(pool, i, rem - 1))
    ensures (out + sub) + Prefixed(p, ChooseRepFrom(pool, i + 1, rem)) == goal
  {
    PrefixedAppend(p, Prefixed([pool[i]], ChooseRepFrom(pool, i, rem - 1)), ChooseRepFrom(pool, i + 1, rem));
    PrefixedTwice(p, [pool[i]], ChooseRepFrom(pool, i, rem - 1));
    AppendAssoc(out, sub, Prefixed(p, ChooseRepFrom(pool, i + 1, rem)));
  }

  /** `gen(pos)` of `combinationsWithReplacement(pool, r)`: extends the buffer
      with items from pool position pos onwards, and leaves it as it found it. */
  method GenRep<T>(pool: seq<T>, r: nat, buf: Buffer<T>, pos: nat) returns (out: seq<seq<T>>)
    requires |buf.items| <= r && pos <= |pool|
    modifies buf
    ensures buf.items == old(buf.items)
    ensures out == Prefixed(old(buf.items), ChooseRepFrom(pool, pos, r - |old(buf.items)|))
    decreases r - |buf.items|, 1
  {
    ghost var p := buf.items;
    if |buf.items| == r {
      assert buf.items == p + [];
      return [buf.items];
    }
    ghost var rem := r - |buf.items|;
    ghost var goal := Prefixed(p, ChooseRepFrom(pool, pos, rem));
    out := [];
    var i := pos;
    while i < |pool|
      invariant pos <= i <= |pool|
      invariant buf.items == p
      invariant out + Prefixed(p, ChooseRepFrom(pool, i, rem)) == goal
      decreases |pool| - i
    {
      var sub := PlaceRep(pool, r, buf, i, p, rem);
      GenRepStep(pool, p, i, rem, out, sub, goal);
      out := out + sub;
      i := i + 1;
    }
  }

  /** One turn of the loop: `result.push(pool[i])`, the tuples of the nested
      `gen(i)`, then `result.pop()`. */
  method PlaceRep<T>(pool: seq<T>, r: nat, buf: Buffer<T>, i: nat, ghost p: seq<T>, ghost rem: nat)
    returns (sub: seq<seq<T>>)
    requires |buf.items| < r && i < |pool| && buf.items == p && rem == r - |p|
    modifies buf
    ensures buf.items == p
    ensures sub == Prefixed(p + [pool[i]], ChooseRepFrom(pool, i, rem - 1))
    decreases r - |buf.items|, 0
  {
    buf.Push(pool[i]);
    sub := GenRep(pool, r, buf, i);
    buf.Pop();
  }

  /** `combinationsWithReplacement(pool, r)`, in generator order. */
  method CombinationsWithReplacement<T>(pool: seq<T>, r: nat) returns (out: seq<seq<T>>)
    ensures out == ChooseRep(pool, r)
  {
    var buf := new Buffer();
    out := GenRep(pool, r, buf, 0);
    assert pool[0..] == pool;
    ChooseRepFromSlice(pool, 0, r);
    PrefixedEmpty(ChooseRep(pool, r));
  }
}
