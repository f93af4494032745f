/** `permutations(pool, r)` of the ES6 library. The generator keeps an array
    `indices`, always an arrangement of the positions 0..n-1, and an array
    `cycles` of r counters; it yields the pool read at `indices[..r]`, then scans
    the counters from the last one, rotating the tail of `indices` for every
    counter that runs out and swapping two positions at the first that does not.

    The model reads the counters as the digits of a mixed-radix number
    (digit k is `n - k - cycles[k]` and has radix n - k): every scan adds one to
    that number, and `indices` is always the arrangement `Dec` spells from the
    digits. */
module Permuting {
  import opened Arith
  import opened Tuples
  import Ranges

  /** n (n-1) ... (n-k+1): the number of k-tuples of distinct positions out of n. */
  function Falling(n: nat, k: nat): (f: nat)
    ensures k <= n ==> f > 0
  {
    if k == 0 then 1 else if n == 0 then 0 else n * Falling(n - 1, k - 1)
  }

  function Fact(n: nat): nat
  {
    if n == 0 then 1 else n * Fact(n - 1)
  }

  /** Falling(n, r) is n! / (n-r)!. */
  lemma {:induction false} FallingFact(n: nat, k: nat)
    requires k <= n
    ensures Falling(n, k) * Fact(n - k) == Fact(n)
  {
    if k > 0 {
      FallingFact(n - 1, k - 1);
      assert (n - 1) - (k - 1) == n - k;
      MulAssoc(n, Falling(n - 1, k - 1), Fact(n - k));
    }
  }

  /** An arrangement of 0..n-1 holds only positions below n. */
  lemma IotaMembers(n: nat, s: seq<nat>)
    requires multiset(s) == multiset(Iota(n))
    ensures forall q :: 0 <= q < |s| ==> s[q] < n
  {
    forall q | 0 <= q < |s|
      ensures s[q] < n
    {
      assert s[q] in multiset(s);
      assert s[q] in Iota(n);
    }
  }

  predicate Distinct<T(==)>(s: seq<T>)
  {
    forall p, q :: 0 <= p < q < |s| ==> s[p] != s[q]
  }

  /** `s` without its element at `k`. */
  function Remove<T>(s: seq<T>, k: nat): (r: seq<T>)
    requires k < |s|
    ensures |r| == |s| - 1
  {
    s[..k] + s[k + 1..]
  }

  lemma RemoveAt<T>(s: seq<T>, k: nat)
    requires k < |s|
    ensures forall q :: 0 <= q < |s| - 1 ==> Remove(s, k)[q] == if q < k then s[q] else s[q + 1]
  {
    var r := Remove(s, k);
    forall q | 0 <= q < |s| - 1
      ensures r[q] == if q < k then s[q] else s[q + 1]
    {
      if q < k {
        assert r[q] == s[..k][q];
      } else {
        assert r[q] == s[k + 1..][q - k];
      }
    }
  }

  /** A digit vector for m items: digit k is below m - k. */
  predicate Digits(t: seq<nat>, m: nat)
  {
    |t| <= m && forall k :: 0 <= k < |t| ==> t[k] < m - k
  }

  /** The arrangement of `b` that digit vector `t` spells: the first item is
      `b[t[0]]`, the rest is spelled by `t[1..]` from what is left of `b`, and
      the items no digit chose follow in their order in `b`. */
  function Dec<T>(b: seq<T>, t: seq<nat>): (s: seq<T>)
    requires Digits(t, |b|)
    ensures |s| == |b|
    decreases |t|
  {
    if t == [] then b else [b[t[0]]] + Dec(Remove(b, t[0]), t[1..])
  }

  /** The arrangement holds the same items as `b`, as many times each. */
  lemma {:induction false} DecPerm<T>(b: seq<T>, t: seq<nat>)
    requires Digits(t, |b|)
    ensures multiset(Dec(b, t)) == multiset(b)
    decreases |t|
  {
    if t != [] {
      var d := t[0];
      var rest := Remove(b, d);
      DecPerm(rest, t[1..]);
      assert Dec(b, t) == [b[d]] + Dec(rest, t[1..]);
      assert multiset(rest) == multiset(b[..d]) + multiset(b[d + 1..]);
      assert b == b[..d] + [b[d]] + b[d + 1..];
      assert multiset(b) == multiset(b[..d]) + multiset([b[d]]) + multiset(b[d + 1..]);
    }
  }

  /** The number a digit vector stands for: digit k has radix m - k and the last
      digit varies fastest. */
  function Value(t: seq<nat>, m: nat): nat
  {
    if t == [] || m == 0 then 0 else t[0] * Falling(m - 1, |t| - 1) + Value(t[1..], m - 1)
  }

  /** The digit vector of length `len` that stands for `v`. */
  function ToDigits(v: nat, m: nat, len: nat): (t: seq<nat>)
    requires len <= m
    ensures |t| == len
  {
    if len == 0 then []
    else
      var w := Falling(m - 1, len - 1);
      [v / w] + ToDigits(v % w, m - 1, len - 1)
  }

  /** A digit vector of length L stands for a number below Falling(m, L). */
  lemma {:induction false} ValueBound(t: seq<nat>, m: nat)
    requires Digits(t, m)
    ensures Value(t, m) < Falling(m, |t|)
  {
    if t != [] {
      ValueBound(t[1..], m - 1);
      var w := Falling(m - 1, |t| - 1);
      assert Value(t, m) == t[0] * w + Value(t[1..], m - 1);
      assert Falling(m, |t|) == m * w;
      MulMonotone(t[0], m - 1, w);
      assert (m - 1) * w + w == m * w;
    }
  }

  /** Reading the number back gives the digits: digit vectors and numbers below
      Falling(m, L) correspond one to one. */
  lemma {:induction false} DigitsRoundTrip(t: seq<nat>, m: nat)
    requires Digits(t, m)
    ensures ToDigits(Value(t, m), m, |t|) == t
  {
    if t != [] {
      var w := Falling(m - 1, |t| - 1);
      ValueBound(t[1..], m - 1);
      DivModOf(Value(t, m), w, t[0], Value(t[1..], m - 1));
      DigitsRoundTrip(t[1..], m - 1);
    }
  }

  lemma {:induction false} ToDigitsValue(v: nat, m: nat, len: nat)
    requires len <= m && v < Falling(m, len)
    ensures Digits(ToDigits(v, m, len), m) && Value(ToDigits(v, m, len), m) == v
  {
    if len > 0 {
      var w := Falling(m - 1, len - 1);
      assert Falling(m, len) == m * w;
      DivBelow(v, m, w);
      ToDigitsValue(v % w, m - 1, len - 1);
      var t := ToDigits(v, m, len);
      assert t[1..] == ToDigits(v % w, m - 1, len - 1);
    }
  }

  /** Changing digit k from t[k] to x trades t[k] for x times the weight of
      digit k. */
  lemma {:induction false} ValueUpdate(t: seq<nat>, m: nat, k: nat, x: nat)
    requires k < |t| <= m
    ensures Value(t[k := x], m) + t[k] * Falling(m - k - 1, |t| - k - 1) ==
      Value(t, m) + x * Falling(m - k - 1, |t| - k - 1)
  {
    if k > 0 {
      assert t[k := x][1..] == t[1..][k - 1 := x];
      ValueUpdate(t[1..], m - 1, k - 1, x);
    } else {
      assert t[k := x][1..] == t[1..];
    }
  }

  /** Stepping digit k up by one adds the weight of position k. */
  lemma ValueIncrement(t: seq<nat>, m: nat, k: nat)
    requires k < |t| <= m
    ensures Value(t[k := t[k] + 1], m) == Value(t, m) + Falling(m - k - 1, |t| - k - 1)
  {
    ValueUpdate(t, m, k, t[k] + 1);
    MulDistrib(t[k], 1, Falling(m - k - 1, |t| - k - 1));
  }

  /** Rolling digit k over from its largest value to 0 takes away all but one
      of the m - k weights of position k. */
  lemma ValueRollOver(t: seq<nat>, m: nat, k: nat)
    requires k < |t| <= m && t[k] + 1 == m - k
    ensures Value(t[k := 0], m) + Falling(m - k, |t| - k) == Value(t, m) + Falling(m - k - 1, |t| - k - 1)
  {
    var w := Falling(m - k - 1, |t| - k - 1);
    ValueUpdate(t, m, k, 0);
    assert Falling(m - k, |t| - k) == (t[k] + 1) * w;
    MulDistrib(t[k], 1, w);
  }

  /** The all-zero digit vector stands for 0. */
  lemma {:induction false} ValueZero(t: seq<nat>, m: nat)
    requires forall k :: 0 <= k < |t| ==> t[k] == 0
    ensures Value(t, m) == 0
  {
    if t != [] && m > 0 {
      ValueZero(t[1..], m - 1);
    }
  }

  /** All-zero digits spell `b` itself. */
  lemma {:induction false} DecZeros<T>(b: seq<T>, t: seq<nat>)
    requires Digits(t, |b|) && forall k :: 0 <= k < |t| ==> t[k] == 0
    ensures Dec(b, t) == b
  {
    if t != [] {
      DecZeros(Remove(b, 0), t[1..]);
      assert [b[0]] + Remove(b, 0) == b;
    }
  }

  /** Swaps the items at positions i and p of s. */
  function Swap<T>(s: seq<T>, i: nat, p: nat): (r: seq<T>)
    requires i < |s| && p < |s|
    ensures |r| == |s|
  {
    s[i := s[p]][p := s[i]]
  }

  /** Choosing item d + 1 instead of item d swaps the first position with
      position d + 1. */
  lemma SwapFirst<T>(b: seq<T>, d: nat)
    requires d + 1 < |b|
    ensures [b[d + 1]] + Remove(b, d + 1) == Swap([b[d]] + Remove(b, d), 0, d + 1)
  {
    var s, s' := [b[d]] + Remove(b, d), [b[d + 1]] + Remove(b, d + 1);
    RemoveAt(b, d);
    RemoveAt(b, d + 1);
    forall q | 0 <= q < |b|
      ensures s'[q] == Swap(s, 0, d + 1)[q]
    {
    }
  }

  /** `SwapStep` for the first digit, all later digits being zero. */
  lemma SwapFirstDigit<T>(b: seq<T>, t: seq<nat>)
    requires Digits(t, |b|) && 0 < |t| && t[0] + 1 < |b|
    requires forall k :: 0 < k < |t| ==> t[k] == 0
    ensures Dec(b, t[0 := t[0] + 1]) == Swap(Dec(b, t), 0, t[0] + 1)
  {
    var t' := t[0 := t[0] + 1];
    var d := t[0];
    assert t'[0] == d + 1 && t'[1..] == t[1..];
    DecZeros(Remove(b, d), t[1..]);
    DecZeros(Remove(b, d + 1), t'[1..]);
    assert Dec(b, t) == [b[d]] + Remove(b, d);
    assert Dec(b, t') == [b[d + 1]] + Remove(b, d + 1);
    SwapFirst(b, d);
  }

  /** A swap behind a common first item. */
  lemma SwapBehind<T>(x: T, s: seq<T>, i: nat, p: nat)
    requires i < |s| && p < |s|
    ensures [x] + Swap(s, i, p) == Swap([x] + s, i + 1, p + 1)
  {
    var l, r := [x] + Swap(s, i, p), Swap([x] + s, i + 1, p + 1);
    forall q | 0 <= q < |l|
      ensures l[q] == r[q]
    {
    }
  }

  /** Digit i going up by one, with the later digits zero, swaps position i with
      position i + t[i] + 1 of the arrangement. */
  lemma {:induction false} SwapStep<T>(b: seq<T>, t: seq<nat>, i: nat)
    requires Digits(t, |b|) && i < |t| && t[i] + 1 < |b| - i
    requires forall k :: i < k < |t| ==> t[k] == 0
    ensures i + t[i] + 1 < |b| && Dec(b, t[i := t[i] + 1]) == Swap(Dec(b, t), i, i + t[i] + 1)
  {
    var t' := t[i := t[i] + 1];
    var d := t[0];
    if i == 0 {
      SwapFirstDigit(b, t);
    } else {
      var rest := Remove(b, d);
      var u := t[1..];
      assert u[i - 1] == t[i];
      assert t'[0] == d && t'[1..] == u[i - 1 := u[i - 1] + 1];
      SwapStep(rest, u, i - 1);
      SwapBehind(b[d], Dec(rest, u), i - 1, i + t[i]);
    }
  }

  /** Moves the item at position i of s to the end. */
  function Rotate<T>(s: seq<T>, i: nat): (r: seq<T>)
    requires i < |s|
    ensures |r| == |s|
  {
    s[..i] + s[i + 1..] + [s[i]]
  }

  /** `RotateStep` for the first digit, all later digits being zero. */
  lemma RotateFirstDigit<T>(b: seq<T>, t: seq<nat>)
    requires Digits(t, |b|) && 0 < |t| && t[0] + 1 == |b|
    requires forall k :: 0 < k < |t| ==> t[k] == 0
    ensures Dec(b, t[0 := 0]) == Rotate(Dec(b, t), 0)
  {
    var d := t[0];
    DecZeros(Remove(b, d), t[1..]);
    DecZeros(b, t[0 := 0]);
    assert Remove(b, d) == b[..d];
    var s := Dec(b, t);
    assert s == [b[d]] + b[..d];
    assert Rotate(s, 0) == b[..d] + [b[d]];
    assert b[..d] + [b[d]] == b;
  }

  /** A rotation behind a common first item. */
  lemma RotateBehind<T>(x: T, s: seq<T>, i: nat)
    requires i < |s|
    ensures [x] + Rotate(s, i) == Rotate([x] + s, i + 1)
  {
    var l, r := [x] + Rotate(s, i), Rotate([x] + s, i + 1);
    forall q | 0 <= q < |l|
      ensures l[q] == r[q]
    {
    }
  }

  /** Digit i wrapping from its largest value to zero, with the later digits
      zero, moves the item at position i to the end of the arrangement. */
  lemma {:induction false} RotateStep<T>(b: seq<T>, t: seq<nat>, i: nat)
    requires Digits(t, |b|) && i < |t| && t[i] + 1 == |b| - i
    requires forall k :: i < k < |t| ==> t[k] == 0
    ensures Dec(b, t[i := 0]) == Rotate(Dec(b, t), i)
  {
    if i == 0 {
      RotateFirstDigit(b, t);
    } else {
      var d := t[0];
      var rest := Remove(b, d);
      var u := t[1..];
      assert t[i := 0][0] == d && t[i := 0][1..] == u[i - 1 := 0];
      RotateStep(rest, u, i - 1);
      RotateBehind(b[d], Dec(rest, u), i - 1);
    }
  }

  /** Removing an item keeps the others distinct, and the removed item is
      not among them. */
  lemma RemoveDistinct<T>(b: seq<T>, d: nat)
    requires d < |b| && Distinct(b)
    ensures Distinct(Remove(b, d)) && b[d] !in Remove(b, d)
  {
    RemoveAt(b, d);
  }

  /** An arrangement of distinct items has distinct items. */
  lemma {:induction false} DecDistinct<T>(b: seq<T>, t: seq<nat>)
    requires Digits(t, |b|) && Distinct(b)
    ensures Distinct(Dec(b, t))
    decreases |t|
  {
    if t != [] {
      var d := t[0];
      var rest := Remove(b, d);
      RemoveDistinct(b, d);
      DecDistinct(rest, t[1..]);
      DecPerm(rest, t[1..]);
      var s1 := Dec(rest, t[1..]);
      forall q | 0 <= q < |s1|
        ensures s1[q] != b[d]
      {
        assert s1[q] in multiset(s1);
      }
      assert Dec(b, t) == [b[d]] + s1;
    }
  }

  /** Different digit vectors of the same length choose different leading items
      from an arrangement of distinct items. */
  lemma {:induction false} DecInjective<T>(b: seq<T>, t1: seq<nat>, t2: seq<nat>)
    requires Digits(t1, |b|) && Digits(t2, |b|) && Distinct(b)
    requires |t1| == |t2| && t1 != t2
    ensures Dec(b, t1)[..|t1|] != Dec(b, t2)[..|t2|]
    decreases |t1|
  {
    if t1[0] != t2[0] {
      assert Dec(b, t1)[0] != Dec(b, t2)[0];
    } else {
      var rest := Remove(b, t1[0]);
      RemoveDistinct(b, t1[0]);
      assert t1[1..] != t2[1..] by {
        assert t1 == [t1[0]] + t1[1..] && t2 == [t2[0]] + t2[1..];
      }
      DecInjective(rest, t1[1..], t2[1..]);
      var l1, l2 := Dec(b, t1)[..|t1|], Dec(b, t2)[..|t2|];
      assert l1[1..] == Dec(rest, t1[1..])[..|t1| - 1];
      assert l2[1..] == Dec(rest, t2[1..])[..|t2| - 1];
      assert l1[1..] != l2[1..];
    }
  }

  /** The positions of the k-th tuple `permutations(pool, r)` yields: r
      positions of the pool. */
  function PermIndex(n: nat, r: nat, k: nat): (p: seq<nat>)
    requires r <= n && k < Falling(n, r)
    ensures |p| == r && forall q :: 0 <= q < r ==> p[q] < n
  {
    ToDigitsValue(k, n, r);
    var t := ToDigits(k, n, r);
    DecPerm(Iota(n), t);
    IotaMembers(n, Dec(Iota(n), t));
    Dec(Iota(n), t)[..r]
  }

  /** No tuple repeats a position. */
  lemma PermIndexDistinct(n: nat, r: nat, k: nat)
    requires r <= n && k < Falling(n, r)
    ensures Distinct(PermIndex(n, r, k))
  {
    ToDigitsValue(k, n, r);
    DecDistinct(Iota(n), ToDigits(k, n, r));
  }

  /** Different tuples of the enumeration use different position tuples: there
      are Falling(n, r) = n!/(n-r)! of them and no repeats. */
  lemma PermIndexInjective(n: nat, r: nat, k1: nat, k2: nat)
    requires r <= n && k1 < Falling(n, r) && k2 < Falling(n, r) && k1 != k2
    ensures PermIndex(n, r, k1) != PermIndex(n, r, k2)
  {
    ToDigitsValue(k1, n, r);
    ToDigitsValue(k2, n, r);
    DecInjective(Iota(n), ToDigits(k1, n, r), ToDigits(k2, n, r));
  }

  /** The first tuple reads the first r pool items in order. */
  lemma PermIndexFirst(n: nat, r: nat)
    requires r <= n
    ensures PermIndex(n, r, 0) == Iota(n)[..r]
  {
    var t := ToDigits(0, n, r);
    ToDigitsValue(0, n, r);
    DigitsRoundTrip(seq(r, _ => 0), n);
    ValueZero(seq(r, _ => 0), n);
    DecZeros(Iota(n), seq(r, _ => 0));
  }

  /** The digits t, read as a number, index the permutation they decode to. */
  lemma PermIndexOf(t: seq<nat>, n: nat)
    requires Digits(t, n)
    ensures Value(t, n) < Falling(n, |t|)
    ensures PermIndex(n, |t|, Value(t, n)) == Dec(Iota(n), t)[..|t|]
  {
    ValueBound(t, n);
    DigitsRoundTrip(t, n);
  }

  /** What the generator keeps between two yields: `indices` is the pool order
      decoded from the digits `t`, and `cycles[k]` counts down the choices
      left for position k. */
  ghost predicate Odometer(indices: seq<nat>, cycles: seq<int>, t: seq<nat>, n: nat, r: nat)
  {
    |t| == r && Digits(t, n) && |cycles| == r &&
    (forall k :: 0 <= k < r ==> cycles[k] == n - k - t[k]) &&
    indices == Dec(Iota(n), t)
  }

  /** Between yields `indices` is an arrangement of 0..n-1 and every counter
      `cycles[k]` is between 1 and n - k. */
  lemma OdometerBounds(indices: seq<nat>, cycles: seq<int>, t: seq<nat>, n: nat, r: nat)
    requires Odometer(indices, cycles, t, n, r)
    ensures multiset(indices) == multiset(Iota(n))
    ensures forall k :: 0 <= k < r ==> 1 <= cycles[k] <= n - k
  {
    DecPerm(Iota(n), t);
  }

  /** The generator's set-up: `indices` is 0..n-1 in order and `cycles[k]` is
      n - k, which is the all-zero digit vector. */
  method Start(n: nat, r: nat) returns (indices: array<nat>, cycles: array<int>, ghost t: seq<nat>)
    requires r <= n
    ensures fresh(indices) && fresh(cycles)
    ensures Odometer(indices[..], cycles[..], t, n, r)
    ensures indices[..] == Iota(n) && Value(t, n) == 0
  {
    indices := new nat[n](k => k);
    cycles := new int[r](k requires 0 <= k < r => n - k);
    t := seq(r, _ => 0);
    assert indices[..] == Iota(n);
    DecZeros(Iota(n), t);
    ValueZero(t, n);
  }

  /** The set-up reads its arrays off `range`: `indices` is
      `Array.from(range(0, n))` and `cycles` is `Array.from(range(n, n - r, -1))`. */
  lemma StartRanges(n: nat, r: nat)
    requires r <= n
    ensures Iota(n) == Ranges.RangeTo(n)
    ensures seq(r, k requires 0 <= k < r => n - k) == Ranges.Range(n, n - r, -1)
  {
    var c := Ranges.Range(n, n - r, -1);
    Ranges.RangeValues(n, n - r, -1);
    Ranges.RangeLengthFormula(n, n - r, -1);
    assert |c| == r;
  }

  /** The state in the middle of a scan round at position i: `cycles[i]` has
      been counted down and the digits do not yet say so. */
  ghost predicate Counted(indices: seq<nat>, cycles: seq<int>, t: seq<nat>, n: nat, r: nat, i: nat)
  {
    |t| == r && Digits(t, n) && |cycles| == r && i < r &&
    (forall k :: 0 <= k < r && k != i ==> cycles[k] == n - k - t[k]) &&
    cycles[i] == n - i - t[i] - 1 &&
    (forall k :: i < k < r ==> t[k] == 0) &&
    indices == Dec(Iota(n), t)
  }

  /** The counter of position i ran out: the i-th index moves to the end of
      `indices` and the counter starts again at n - i. */
  method RollOver(indices: array<nat>, cycles: array<int>, ghost t: seq<nat>, n: nat, r: nat, i: nat)
    returns (next: array<nat>, ghost t': seq<nat>)
    requires Counted(indices[..], cycles[..], t, n, r, i) && cycles[i] == 0
    modifies cycles
    ensures fresh(next) && t' == t[i := 0]
    ensures Odometer(next[..], cycles[..], t', n, r)
  {
    t' := t[i := 0];
    RotateStep(Iota(n), t, i);
    var s := Rotate(indices[..], i);
    next := new nat[n](k requires 0 <= k < n => s[k]);
    assert next[..] == s;
    cycles[i] := n - i;
  }

  /** The counter of position i has j > 0 choices left: the i-th index swaps
      with the one j places from the end. */
  method StepUp(indices: array<nat>, cycles: array<int>, ghost t: seq<nat>, n: nat, r: nat, i: nat)
    returns (ghost t': seq<nat>)
    requires Counted(indices[..], cycles[..], t, n, r, i) && cycles[i] > 0
    modifies indices
    ensures t' == t[i := t[i] + 1]
    ensures Odometer(indices[..], cycles[..], t', n, r)
  {
    var j := cycles[i];
    t' := t[i := t[i] + 1];
    SwapStep(Iota(n), t, i);
    indices[i], indices[n - j] := indices[n - j], indices[i];
  }

  /** One round of the scan, at position i (all later digits are 0): count
      down `cycles[i]`; when it reaches 0, rotate the i-th index to the end
      and reset the counter (the digit rolls over), otherwise swap the i-th
      index with the one `cycles[i]` places from the end (the digit steps up). */
  method ScanStep(indices: array<nat>, cycles: array<int>, ghost t: seq<nat>, n: nat, r: nat, i: nat)
    returns (next: array<nat>, stepped: bool, ghost t': seq<nat>)
    requires Odometer(indices[..], cycles[..], t, n, r)
    requires i < r && forall k :: i < k < r ==> t[k] == 0
    modifies indices, cycles
    ensures next == indices || fresh(next)
    ensures Odometer(next[..], cycles[..], t', n, r)
    ensures stepped ==> Value(t', n) == Value(t, n) + Falling(n - i - 1, r - i - 1)
    ensures !stepped ==> forall k :: i <= k < r ==> t'[k] == 0
    ensures !stepped ==>
      Value(t', n) + Falling(n - i, r - i) == Value(t, n) + Falling(n - i - 1, r - i - 1)
  {
    cycles[i] := cycles[i] - 1;
    if cycles[i] == 0 {
      ValueRollOver(t, n, i);
      next, t' := RollOver(indices, cycles, t, n, r, i);
      stepped := false;
    } else {
      ValueIncrement(t, n, i);
      t' := StepUp(indices, cycles, t, n, r, i);
      next, stepped := indices, true;
    }
  }

  /** The body of the generator's outer loop up to its next yield: the scan from
      the last position down. It either advances the digits by one (a swap, then
      the caller yields) or, when every position rolls over, restores the first
      order and reports that the last tuple has been produced. */
  method Advance(indices: array<nat>, cycles: array<int>, ghost t: seq<nat>, n: nat, r: nat)
    returns (next: array<nat>, found: bool, ghost t': seq<nat>)
    requires Odometer(indices[..], cycles[..], t, n, r)
    modifies indices, cycles
    ensures next == indices || fresh(next)
    ensures Odometer(next[..], cycles[..], t', n, r)
    ensures found ==> Value(t', n) == Value(t, n) + 1
    ensures !found ==> Value(t, n) + 1 == Falling(n, r)
  {
    ghost var v0 := Value(t, n);
    next, t' := indices, t;
    var i := r;
    while i > 0
      invariant 0 <= i <= r
      invariant next == indices || fresh(next)
      invariant Odometer(next[..], cycles[..], t', n, r)
      invariant forall k :: i <= k < r ==> t'[k] == 0
      invariant Value(t', n) + Falling(n - i, r - i) == v0 + 1
    {
      i := i - 1;
      var stepped;
      next, stepped, t' := ScanStep(next, cycles, t', n, r, i);
      if stepped {
        return next, true, t';
      }
    }
    ValueZero(t', n);
    found := false;
  }

  /** The first m tuples of `permutations(pool, r)`, in order. */
  function PermsPrefix<T>(pool: seq<T>, r: nat, m: nat): (ps: seq<seq<T>>)
    requires r <= |pool| && m <= Falling(|pool|, r)
    ensures |ps| == m
  {
    if m == 0 then [] else PermsPrefix(pool, r, m - 1) + [Select(pool, PermIndex(|pool|, r, m - 1))]
  }

  /** Tuple k of the listing is the pool read at `PermIndex(n, r, k)`. */
  lemma {:induction false} PermsPrefixAt<T>(pool: seq<T>, r: nat, m: nat)
    requires r <= |pool| && m <= Falling(|pool|, r)
    ensures forall k :: 0 <= k < m ==> PermsPrefix(pool, r, m)[k] == Select(pool, PermIndex(|pool|, r, k))
  {
    if m > 0 {
      var ps, prev := PermsPrefix(pool, r, m), PermsPrefix(pool, r, m - 1);
      PermsPrefixAt(pool, r, m - 1);
      assert ps == prev + [Select(pool, PermIndex(|pool|, r, m - 1))];
      forall k | 0 <= k < m
        ensures ps[k] == Select(pool, PermIndex(|pool|, r, k))
      {
        if k < m - 1 {
          assert ps[k] == prev[k];
        }
      }
    }
  }

  /** Over a pool of distinct items no tuple is yielded twice. */
  lemma PermsPrefixDistinct<T>(pool: seq<T>, r: nat, m: nat)
    requires r <= |pool| && m <= Falling(|pool|, r) && Distinct(pool)
    ensures forall j, k :: 0 <= j < k < m ==> PermsPrefix(pool, r, m)[j] != PermsPrefix(pool, r, m)[k]
  {
    PermsPrefixAt(pool, r, m);
    forall j, k | 0 <= j < k < m
      ensures PermsPrefix(pool, r, m)[j] != PermsPrefix(pool, r, m)[k]
    {
      var p1, p2 := PermIndex(|pool|, r, j), PermIndex(|pool|, r, k);
      PermIndexInjective(|pool|, r, j, k);
      var q :| 0 <= q < r && p1[q] != p2[q];
      assert Select(pool, p1)[q] != Select(pool, p2)[q];
    }
  }

  /** `permutations(pool, r)` run to completion: nothing when r exceeds the
      pool, otherwise Falling(n, r) = n!/(n-r)! tuples, the k-th being the pool
      read at `PermIndex(n, r, k)`. */
  method Permutations<T>(pool: seq<T>, r: nat) returns (out: seq<seq<T>>)
    ensures r > |pool| ==> out == []
    ensures r <= |pool| ==> out == PermsPrefix(pool, r, Falling(|pool|, r))
  {
    var n := |pool|;
    if r > n {
      return [];
    }
    var indices, cycles, t := Start(n, r);
    PermIndexFirst(n, r);
    out := [Select(pool, indices[..r])];
    assert out == PermsPrefix(pool, r, 1);
    while true
      invariant fresh(indices) && fresh(cycles)
      invariant Odometer(indices[..], cycles[..], t, n, r)
      invariant |out| == Value(t, n) + 1 <= Falling(n, r)
      invariant out == PermsPrefix(pool, r, |out|)
      decreases Falling(n, r) - |out|
    {
      var found;
      indices, found, t := Advance(indices, cycles, t, n, r);
      if !found {
        return;
      }
      PermIndexOf(t, n);
      assert out == PermsPrefix(pool, r, |out|);
      assert PermsPrefix(pool, r, |out| + 1) == out + [Select(pool, indices[..r])];
      out := out + [Select(pool, indices[..r])];
    }
  }
}
