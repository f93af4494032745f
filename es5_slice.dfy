/** `slice` and `take` of the ES5 library. The target positions come from an
    ES5 `range` iterator whose first value is pulled when the slice is built;
    every pull then counts source values upward from -1, passes on the one at
    the current target, pulls and discards the others, and stops once the
    count has reached `stop - 1`. */
module Es5Slicing {
  import opened Pull
  import opened Ranges
  import opened Es5Iterators
  import opened Es5Ranging
  import opened Combinators

  /** How far the count can get in a source of n values: it stops at
      `stop - 1`, which it meets only when `stop` is not negative. */
  function Reach(stop: int, n: nat): (r: nat)
    ensures r <= n
    ensures stop >= 0 ==> r <= stop
  {
    if 0 <= stop < n then stop else n
  }

  /** Nothing is selected once the count is past the reach. */
  lemma MatchedBeyond(ts: seq<int>, from: int, n: int)
    requires from >= n
    ensures Matched(ts, from, n) == []
  {
  }

  /** A position that is not the current target is passed over. */
  lemma MatchedSkip(ts: seq<int>, from: int, n: int)
    requires ts == [] || ts[0] != from
    ensures Matched(ts, from, n) == Matched(ts, from + 1, n)
  {
  }

  /** The current target reached inside the source is selected. */
  lemma MatchedHit(ts: seq<int>, from: int, n: int)
    requires ts != [] && ts[0] == from && 0 <= from < n
    ensures Matched(ts, from, n) == [from] + Matched(ts[1..], from + 1, n)
  {
  }

  lemma PickCons<T>(src: seq<T>, p: int, m: seq<int>)
    requires 0 <= p < |src| && forall k :: 0 <= k < |m| ==> 0 <= m[k] < |src|
    ensures Pick(src, [p] + m) == [src[p]] + Pick(src, m)
  {
  }

  class SliceIterator<T> {
    const up: ArrayIterator<T>
    const it: RangeIterator
    var nexti: int
    var count: int
    const stop: int
    /** The values of the source, in order. */
    ghost const src: seq<T>
    /** Targets not yet reached; empty once `it` has thrown `StopIteration`. */
    ghost var targets: seq<int>

    /** Source position of the next upstream pull. */
    ghost function Pos(): nat
      reads this
    {
      if 0 <= count + 1 <= |src| then count + 1 else |src|
    }

    ghost predicate Valid()
      reads this, up, it
    {
      up.Valid() && it.Valid() && -1 <= count && (stop >= 0 ==> count <= stop - 1) &&
      Pos() <= |src| && up.Remaining() == src[Pos()..] &&
      (targets == [] ==> nexti <= count) &&
      (targets != [] ==> targets[0] == nexti && targets[1..] == it.Remaining())
    }

    ghost function Remaining(): seq<T>
      reads this, up, it
      requires Valid()
    {
      Pick(src, Matched(targets, count + 1, Reach(stop, |src|)))
    }

    /** The iterator over the source and the target range with its first
        target already pulled. */
    constructor (up: ArrayIterator<T>, it: RangeIterator, first: int, stop: int, ghost targets: seq<int>)
      requires up.Valid() && it.Valid()
      requires targets != [] && targets[0] == first && targets[1..] == it.Remaining()
      ensures Valid() && this.up == up && this.it == it && this.stop == stop
      ensures src == old(up.Remaining()) && this.targets == targets && count == -1
    {
      this.up, this.it, nexti, count, this.stop := up, it, first, -1, stop;
      src := up.Remaining();
      this.targets := targets;
      new;
      assert src[0..] == src;
    }

    /** One pull: the body of `next` runs until it returns or throws. */
    method Next() returns (r: Step<T>)
      requires Valid()
      modifies this, up, it
      ensures Valid()
      ensures r == Head(old(Remaining())) && Remaining() == Tail(old(Remaining()))
    {
      var again := true;
      r := Done;
      while again
        invariant Valid()
        invariant again ==> Remaining() == old(Remaining())
        invariant !again ==> r == Head(old(Remaining())) && Remaining() == Tail(old(Remaining()))
        decreases again, |up.Remaining()|
      {
        r, again := Attempt();
      }
    }

    /** One turn of the loop in `next`: Done at the stop, the source value at
        the current target, or a discarded source value (`again`). */
    method Attempt() returns (r: Step<T>, again: bool)
      requires Valid()
      modifies this, up, it
      ensures Valid()
      ensures again ==> Remaining() == old(Remaining()) && |up.Remaining()| < old(|up.Remaining()|)
      ensures !again ==> r == Head(old(Remaining())) && Remaining() == Tail(old(Remaining()))
    {
      var L := Reach(stop, |src|);
      again := false;
      if count == stop - 1 {
        MatchedBeyond(targets, count + 1, L);
        return Done, false;
      }
      count := count + 1;
      if count == nexti {
        r := Hit(L);
        return;
      }
      MatchedSkip(targets, count, L);
      r := up.Next();
      if r.Done? {
        MatchedBeyond(targets, count + 1, L);
        return;
      }
      again := true;
    }

    /** `toArray` on the slice: pulls until `StopIteration`. */
    method Drain() returns (vs: seq<T>)
      requires Valid()
      modifies this, up, it
      ensures Valid() && vs == old(Remaining()) && Remaining() == []
    {
      vs := [];
      while true
        invariant Valid() && vs + Remaining() == old(Remaining())
        decreases |Remaining()|
      {
        ghost var before := Remaining();
        var r := Next();
        if r.Done? {
          return;
        }
        DrainStep(vs, before, r, Remaining());
        vs := vs + [r.value];
      }
    }

    /** The count has just reached the current target: the next target is
        pulled (its `StopIteration` swallowed) and the source value returned. */
    method Hit(ghost L: nat) returns (r: Step<T>)
      requires L == Reach(stop, |src|)
      requires up.Valid() && it.Valid() && 0 <= count == nexti && (stop >= 0 ==> count < stop)
      requires Pos() <= |src| && up.Remaining() == src[if count <= |src| then count else |src|..]
      requires targets != [] && targets[0] == nexti && targets[1..] == it.Remaining()
      modifies this, up, it
      ensures Valid()
      ensures r == Head(Pick(src, Matched(old(targets), old(count), L)))
      ensures Remaining() == Tail(Pick(src, Matched(old(targets), old(count), L)))
    {
      ghost var ts := targets;
      ghost var rest := up.Remaining();
      var t := it.Next();
      if t.Yield? {
        nexti := t.value;
      }
      targets := targets[1..];
      r := up.Next();
      HitStep(src, ts, count, L, rest, r, up.Remaining());
    }
  }

  /** The selection and the source move on together when the count meets
      the current target. */
  lemma HitStep<T>(src: seq<T>, ts: seq<int>, c: int, L: nat, rest: seq<T>, r: Step<T>, after: seq<T>)
    requires L <= |src| && 0 <= c && ts != [] && ts[0] == c && (c < |src| ==> c < L)
    requires rest == src[if c <= |src| then c else |src|..]
    requires r == Head(rest) && after == Tail(rest)
    ensures after == src[if c + 1 <= |src| then c + 1 else |src|..]
    ensures r == Head(Pick(src, Matched(ts, c, L)))
    ensures Pick(src, Matched(ts[1..], c + 1, L)) == Tail(Pick(src, Matched(ts, c, L)))
  {
    if c < L {
      MatchedHit(ts, c, L);
      PickCons(src, c, Matched(ts[1..], c + 1, L));
      assert src[c..] == [src[c]] + src[c + 1..];
    } else {
      MatchedBeyond(ts, c, L);
      MatchedBeyond(ts[1..], c + 1, L);
    }
  }

  /** `slice(arr, start, stop, step)`: None when building it throws, that is
      when the target range is empty; otherwise what draining it gives. */
  method SliceValues<T>(arr: seq<Option<T>>, start: int, stop: int, step: int) returns (out: Option<seq<T>>)
    ensures out.None? <==> Range(start, stop, CoerceStep(Some(step))) == []
    ensures out.Some? ==>
      out.value == Pick(Present(arr), Matched(Range(start, stop, CoerceStep(Some(step))), 0, Reach(stop, |Present(arr)|)))
  {
    var up := new ArrayIterator(arr);
    var it := new RangeIterator(start, stop, Some(step));
    ghost var ts := it.Remaining();
    var first := it.Next();
    if first.Done? {
      return None;
    }
    var s := new SliceIterator(up, it, first.value, stop, ts);
    var vs := s.Drain();
    return Some(vs);
  }

  /** With a positive step the ES5 slice selects the same positions as the
      ES6 generator, which counts through the whole source. */
  lemma SlicePositive(start: int, stop: int, step: int, n: nat)
    requires step > 0
    ensures Matched(Range(start, stop, step), 0, Reach(stop, n)) == Matched(Range(start, stop, step), 0, n)
  {
    if start < 0 {
      var ts := Range(start, stop, step);
      if ts != [] {
        RangeTail(start, stop, step);
      }
    } else {
      MatchedRegular(start, stop, step, 0, n);
      MatchedRegular(start, stop, step, 0, Reach(stop, n));
      assert Min(stop, Reach(stop, n)) == Min(stop, n);
    }
  }

  /** With a negative step and a non-negative stop the count stops below
      `start`, so nothing is selected, where the ES6 generator selects the
      value at `start`: slicing three values with start 2, stop 0, step -1. */
  lemma SliceNegative()
    ensures Matched(Range(2, 0, -1), 0, Reach(0, 3)) == []
    ensures Matched(Range(2, 0, -1), 0, 3) == [2]
  {
    assert Range(2, 0, -1) == [2, 1] by {
      assert Range(0, 0, -1) == [];
      assert Range(1, 0, -1) == [1];
    }
  }

  /** `take(arr, n)`, i.e. `slice(arr, n)`: None when n is not positive (the
      empty range throws), otherwise the first n values. */
  method TakeValues<T>(arr: seq<Option<T>>, n: int) returns (out: Option<seq<T>>)
    ensures n <= 0 <==> out == None
    ensures n > 0 ==> out == Some(Present(arr)[..Min(n, |Present(arr)|)])
  {
    out := SliceValues(arr, 0, n, 1);
    var src := Present(arr);
    RangeEmpty(0, n, 1);
    if n > 0 {
      var m := Matched(Range(0, n, 1), 0, Reach(n, |src|));
      SlicePositive(0, n, 1, |src|);
      MatchedRegular(0, n, 1, 0, |src|);
      var len := Min(n, |src|);
      RangeValues(0, len, 1);
      RangeLengthFormula(0, len, 1);
      assert |m| == len;
      assert forall k :: 0 <= k < len ==> m[k] == k;
      assert out.value == src[..len];
    }
  }
}
