/** Arithmetic progressions: the recursive `range` generator of the ES6 library. */
module Ranges {
  import opened Arith

  /** `range(start, end, step)`: yields `start` unless the progression has already
      reached `end` in the direction of `step`, then the range from `start + step`.
      A zero step never stops in the source; it is not part of this model. */
  function Range(start: int, end: int, step: int): seq<int>
    requires step != 0
    decreases if step > 0 then end - start else start - end
  {
    if step > 0 && start >= end then []
    else if step < 0 && start <= end then []
    else [start] + Range(start + step, end, step)
  }

  /** The one-argument form `range(end)` counts from 0 with step 1: the
      integers `0, 1, …, end - 1`, none when `end` is not positive. */
  function RangeTo(end: int): (r: seq<int>)
    ensures |r| == (if end > 0 then end else 0)
    ensures forall k :: 0 <= k < |r| ==> r[k] == k
  {
    RangeValues(0, end, 1);
    RangeLengthFormula(0, end, 1);
    Range(0, end, 1)
  }

  /** Number of values of the progression strictly before `end`. */
  function RangeLength(start: int, end: int, step: int): nat
    requires step != 0
  {
    if step > 0 then
      (if start >= end then 0 else (end - start + step - 1) / step)
    else
      (if start <= end then 0 else (start - end + (-step) - 1) / (-step))
  }

  /** The range is empty exactly in the two cases the generator returns at once. */
  lemma RangeEmpty(start: int, end: int, step: int)
    requires step != 0
    ensures Range(start, end, step) == [] <==> (step > 0 && start >= end) || (step < 0 && start <= end)
  {
  }

  /** The k-th value is `start + k * step`. */
  lemma {:induction false} RangeAt(start: int, end: int, step: int, k: nat)
    requires step != 0 && k < |Range(start, end, step)|
    ensures Range(start, end, step)[k] == start + k * step
    decreases k
  {
    if k > 0 {
      RangeAt(start + step, end, step, k - 1);
      assert (k - 1) * step + step == k * step;
    }
  }

  /** Every value lies strictly before `end`, and the value after the last
      would not. */
  lemma {:induction false} RangeBounds(start: int, end: int, step: int)
    requires step != 0
    ensures var r := Range(start, end, step);
      (forall k :: 0 <= k < |r| ==> if step > 0 then r[k] < end else r[k] > end) &&
      (if step > 0 then start + |r| * step >= end else start + |r| * step <= end)
    decreases if step > 0 then end - start else start - end
  {
    var r := Range(start, end, step);
    if r != [] {
      RangeBounds(start + step, end, step);
      var t := Range(start + step, end, step);
      assert r == [start] + t;
      assert start + |r| * step == start + step + |t| * step;
    }
  }

  /** The k-th value is `start + k * step`, every value lies strictly before
      `end`, and the next value of the progression would not. */
  lemma RangeValues(start: int, end: int, step: int)
    requires step != 0
    ensures var r := Range(start, end, step);
      (forall k :: 0 <= k < |r| ==> r[k] == start + k * step) &&
      (forall k :: 0 <= k < |r| ==> if step > 0 then r[k] < end else r[k] > end) &&
      (if step > 0 then start + |r| * step >= end else start + |r| * step <= end)
  {
    var r := Range(start, end, step);
    forall k | 0 <= k < |r|
      ensures r[k] == start + k * step
    {
      RangeAt(start, end, step, k);
    }
    RangeBounds(start, end, step);
  }

  /** The length agrees with the closed form. */
  lemma {:induction false} RangeLengthFormula(start: int, end: int, step: int)
    requires step != 0
    ensures |Range(start, end, step)| == RangeLength(start, end, step)
  {
    var r := Range(start, end, step);
    RangeValues(start, end, step);
    var n := |r|;
    if step > 0 {
      if start < end {
        assert n > 0;
        assert r[n - 1] == start + (n - 1) * step < end;
        assert start + n * step >= end;
        DivBounds(end - start, step, n);
      }
    } else {
      if start > end {
        assert n > 0;
        assert r[n - 1] == start + (n - 1) * step > end;
        assert start + n * step <= end;
        assert (n - 1) * (-step) < start - end <= n * (-step);
        DivBounds(start - end, -step, n);
      }
    }
  }

  /** Membership: a number is in the range iff it is reachable from `start` by
      whole steps and lies on the near side of `end`. */
  lemma RangeMembers(start: int, end: int, step: int, x: int)
    requires step != 0
    ensures x in Range(start, end, step) <==>
      exists k: nat :: x == start + k * step && (if step > 0 then x < end else x > end)
  {
    var r := Range(start, end, step);
    RangeValues(start, end, step);
    if x in r {
      var k :| 0 <= k < |r| && r[k] == x;
      assert x == start + k * step;
    }
    if exists k: nat :: x == start + k * step && (if step > 0 then x < end else x > end) {
      var k: nat :| x == start + k * step && (if step > 0 then x < end else x > end);
      RangeMembersBack(start, end, step, r, k);
      assert r[k] == x;
    }
  }

  lemma RangeMembersBack(start: int, end: int, step: int, r: seq<int>, k: nat)
    requires step != 0
    requires if step > 0 then start + |r| * step >= end else start + |r| * step <= end
    requires var x := start + k * step; if step > 0 then x < end else x > end
    ensures k < |r|
  {
    if k >= |r| {
      if step > 0 {
        MulMonotone(|r|, k, step);
      } else {
        MulMonotone(|r|, k, -step);
      }
    }
  }

  /** With a positive step the values strictly increase, with a negative step
      they strictly decrease. */
  lemma RangeMonotone(start: int, end: int, step: int)
    requires step != 0
    ensures var r := Range(start, end, step);
      forall i, j :: 0 <= i < j < |r| ==> (if step > 0 then r[i] < r[j] else r[i] > r[j])
  {
    var r := Range(start, end, step);
    RangeValues(start, end, step);
    forall i, j | 0 <= i < j < |r|
      ensures if step > 0 then r[i] < r[j] else r[i] > r[j]
    {
      MulStrict(i, j, step);
    }
  }

  /** Dropping the first value leaves the range from the next value. */
  lemma RangeTail(start: int, end: int, step: int)
    requires step != 0
    requires Range(start, end, step) != []
    ensures Range(start, end, step)[0] == start
    ensures Range(start, end, step)[1..] == Range(start + step, end, step)
  {
  }

  /** `range(0, 5)` and `range(5, 0, -1)` as the library's tests expect. */
  lemma RangeExamples()
    ensures Range(0, 5, 1) == [0, 1, 2, 3, 4]
    ensures Range(5, 0, -1) == [5, 4, 3, 2, 1]
  {
  }
}
