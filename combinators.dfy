/** The ES6 pass-through combinators. Each generator is modelled by a method that
    runs it to completion over finite sources (given as their values in pull
    order) and returns what it yields; the infinite generators `count`, `repeat`
    and `weave` are modelled by the bounded prefix `take(…, limit)` would see. */
module Combinators {
  import opened Pull
  import opened Ranges
  import opened Arith

  /** How a generator run ends: it returns, or a pull throws a TypeError. */
  datatype Ending = Finished | TypeError

  /** `chain` as written: the outer loop runs `i <= iters.length`, so after the
      last input it reads `iters[iters.length]`, which is undefined, and the
      `for…of` over it throws. Every value is still yielded first. */
  method ChainAsWritten<T>(iters: seq<seq<T>>) returns (out: seq<T>, ending: Ending)
    ensures out == Concat(iters)
    ensures ending == TypeError
  {
    out := [];
    var i := 0;
    while i <= |iters|
      invariant 0 <= i <= |iters|
      invariant out == Concat(iters[..i])
      decreases |iters| - i
    {
      if i == |iters| {
        // iters[i] is undefined: iterating it throws.
        assert iters[..i] == iters;
        return out, TypeError;
      }
      var j := 0;
      while j < |iters[i]|
        invariant 0 <= j <= |iters[i]|
        invariant out == Concat(iters[..i]) + iters[i][..j]
      {
        out := out + [iters[i][j]];
        j := j + 1;
      }
      assert iters[..i + 1] == iters[..i] + [iters[i]];
      ConcatAppend(iters[..i], iters[i]);
      i := i + 1;
    }
    return out, TypeError;
  }

  /** `chain` with the loop bound the documentation intends (`i < iters.length`):
      all of the first input, then all of the second, and so on, then it returns. */
  method Chain<T>(iters: seq<seq<T>>) returns (out: seq<T>, ending: Ending)
    ensures out == Concat(iters)
    ensures ending == Finished
  {
    out := [];
    var i := 0;
    while i < |iters|
      invariant 0 <= i <= |iters|
      invariant out == Concat(iters[..i])
    {
      var j := 0;
      while j < |iters[i]|
        invariant 0 <= j <= |iters[i]|
        invariant out == Concat(iters[..i]) + iters[i][..j]
      {
        out := out + [iters[i][j]];
        j := j + 1;
      }
      assert iters[..i + 1] == iters[..i] + [iters[i]];
      ConcatAppend(iters[..i], iters[i]);
      i := i + 1;
    }
    assert iters[..i] == iters;
    ending := Finished;
  }

  /** `flatten`: one level of nesting removed, which is `chain` over the inputs. */
  method Flatten<T>(iterables: seq<seq<T>>) returns (out: seq<T>)
    ensures out == Concat(iterables)
    ensures |out| == TotalLength(iterables)
  {
    var ending;
    out, ending := Chain(iterables);
    ConcatLength(iterables);
  }

  /** `map`: one output per input, the function applied to it. */
  method Map<A, B>(src: seq<A>, f: A -> B) returns (out: seq<B>)
    ensures |out| == |src|
    ensures forall k :: 0 <= k < |src| ==> out[k] == f(src[k])
  {
    out := [];
    var i := 0;
    while i < |src|
      invariant 0 <= i <= |src|
      invariant |out| == i
      invariant forall k :: 0 <= k < i ==> out[k] == f(src[k])
    {
      out := out + [f(src[i])];
      i := i + 1;
    }
  }

  /** `starmap`: the function receives the elements of each input tuple as its
      arguments; with tuples as sequences this is `map` of the spread call. */
  method Starmap<A, B>(src: seq<seq<A>>, f: seq<A> -> B) returns (out: seq<B>)
    ensures |out| == |src|
    ensures forall k :: 0 <= k < |src| ==> out[k] == f(src[k])
  {
    out := Map(src, f);
  }

  /** The elements of `s` that satisfy `p`, in order: the reference definition
      of `filter`. */
  function Filtered<T>(s: seq<T>, p: T -> bool): seq<T>
  {
    if s == [] then []
    else Filtered(s[..|s| - 1], p) + (if p(s[|s| - 1]) then [s[|s| - 1]] else [])
  }

  /** Everything `Filtered` keeps satisfies the predicate and comes from the input,
      and everything in the input that satisfies it is kept. */
  lemma {:induction false} FilteredMembers<T>(s: seq<T>, p: T -> bool)
    ensures forall x :: x in Filtered(s, p) <==> x in s && p(x)
  {
    if s != [] {
      FilteredMembers(s[..|s| - 1], p);
      assert s == s[..|s| - 1] + [s[|s| - 1]];
    }
  }

  /** `filter` and `filterfalse` with the same predicate split the input: their
      outputs together hold every input element exactly once. */
  lemma {:induction false} FilterPartition<T>(s: seq<T>, p: T -> bool)
    ensures multiset(Filtered(s, p)) + multiset(Filtered(s, x => !p(x))) == multiset(s)
    ensures |Filtered(s, p)| + |Filtered(s, x => !p(x))| == |s|
  {
    if s != [] {
      FilterPartition(s[..|s| - 1], p);
      assert s == s[..|s| - 1] + [s[|s| - 1]];
    }
  }

  /** `filter`: the inputs for which the predicate holds. */
  method Filter<T>(src: seq<T>, p: T -> bool) returns (out: seq<T>)
    ensures out == Filtered(src, p)
  {
    out := [];
    var i := 0;
    while i < |src|
      invariant 0 <= i <= |src|
      invariant out == Filtered(src[..i], p)
    {
      assert src[..i + 1][..i] == src[..i];
      if p(src[i]) {
        out := out + [src[i]];
      }
      i := i + 1;
    }
    assert src[..i] == src;
  }

  /** `filterfalse`: the inputs for which the predicate fails. */
  method FilterFalse<T>(src: seq<T>, p: T -> bool) returns (out: seq<T>)
    ensures out == Filtered(src, x => !p(x))
  {
    out := [];
    var i := 0;
    while i < |src|
      invariant 0 <= i <= |src|
      invariant out == Filtered(src[..i], x => !p(x))
    {
      assert src[..i + 1][..i] == src[..i];
      if !p(src[i]) {
        out := out + [src[i]];
      }
      i := i + 1;
    }
    assert src[..i] == src;
  }

  /** Length of the longest prefix of `s` whose elements all satisfy `p`. */
  function LeadingRun<T>(s: seq<T>, p: T -> bool): (r: nat)
    ensures r <= |s|
    ensures forall k :: 0 <= k < r ==> p(s[k])
    ensures r < |s| ==> !p(s[r])
  {
    if s == [] || !p(s[0]) then 0 else 1 + LeadingRun(s[1..], p)
  }

  /** `dropwhile`: skips inputs while the predicate holds, then yields the first
      failing input and everything after it, whatever the predicate says. */
  method DropWhile<T>(src: seq<T>, p: T -> bool) returns (out: seq<T>)
    ensures out == src[LeadingRun(src, p)..]
  {
    var i := 0;
    out := [];
    // First loop: look for the first input that fails the predicate.
    while i < |src|
      invariant 0 <= i <= |src|
      invariant forall k :: 0 <= k < i ==> p(src[k])
      invariant out == []
    {
      var x := src[i];
      i := i + 1;
      if !p(x) {
        out := [x];
        break;
      }
    }
    assert out != [] ==> i - 1 == LeadingRun(src, p);
    assert out == [] ==> i == |src| == LeadingRun(src, p);
    // Second loop: pass everything else through.
    while i < |src|
      invariant 0 <= i <= |src|
      invariant out == src[LeadingRun(src, p)..i]
    {
      out := out + [src[i]];
      i := i + 1;
    }
  }

  /** `takewhile`: yields inputs while the predicate holds and stops for good at
      the first input that fails it. */
  method TakeWhile<T>(src: seq<T>, p: T -> bool) returns (out: seq<T>)
    ensures out == src[..LeadingRun(src, p)]
  {
    out := [];
    var i := 0;
    while i < |src|
      invariant 0 <= i <= |src|
      invariant i <= LeadingRun(src, p)
      invariant out == src[..i]
    {
      if p(src[i]) {
        out := out + [src[i]];
      } else {
        return;
      }
      i := i + 1;
    }
  }

  /** `takewhile` and `dropwhile` with one predicate split the input in two: the
      first part passes throughout, and the second is empty or starts with a
      failing input, which fixes where the split falls. */
  method TakeDropSplit<T>(src: seq<T>, p: T -> bool) returns (taken: seq<T>, dropped: seq<T>)
    ensures taken + dropped == src
    ensures forall k :: 0 <= k < |taken| ==> p(taken[k])
    ensures dropped != [] ==> !p(dropped[0])
  {
    taken := TakeWhile(src, p);
    dropped := DropWhile(src, p);
    assert src[..LeadingRun(src, p)] + src[LeadingRun(src, p)..] == src;
  }

  /** What a closed source leaves `dropwhile` with: the first input that fails
      the predicate, if there is one, and nothing after it. */
  function FirstFailing<T>(src: seq<T>, p: T -> bool): (r: seq<T>)
    ensures |r| <= 1
    ensures r == [] <==> LeadingRun(src, p) == |src|
    ensures r != [] ==> r[0] == src[LeadingRun(src, p)] && !p(r[0])
  {
    if LeadingRun(src, p) == |src| then [] else [src[LeadingRun(src, p)]]
  }

  /** `dropwhile` as written. The first loop leaves its `for…of` with `break`,
      which calls the source's `return()`. An array or string iterator has none
      and stays open, so the second loop yields the rest. A generator has one
      and is finished by it (`closesOnBreak`), so the second loop gets `done` at
      once and only the first failing input is yielded. */
  method DropWhileAsWritten<T>(src: seq<T>, p: T -> bool, closesOnBreak: bool) returns (out: seq<T>)
    ensures closesOnBreak ==> out == FirstFailing(src, p)
    ensures !closesOnBreak ==> out == src[LeadingRun(src, p)..]
  {
    var i := 0;
    var open := true;
    out := [];
    while i < |src|
      invariant 0 <= i <= |src|
      invariant forall k :: 0 <= k < i ==> p(src[k])
      invariant out == []
    {
      var x := src[i];
      i := i + 1;
      if !p(x) {
        out := [x];
        open := !closesOnBreak;
        break;
      }
    }
    assert out != [] ==> i - 1 == LeadingRun(src, p);
    assert out == [] ==> i == |src| == LeadingRun(src, p);
    while open && i < |src|
      invariant LeadingRun(src, p) <= i <= |src|
      invariant out == src[LeadingRun(src, p)..i]
      invariant !open ==> closesOnBreak && i == LeadingRun(src, p) + 1
    {
      out := out + [src[i]];
      i := i + 1;
    }
  }

  /** A closed source loses values exactly when more than one input is left
      from the first failing one on. */
  lemma ClosedDropLoses<T>(src: seq<T>, p: T -> bool)
    ensures FirstFailing(src, p) == src[LeadingRun(src, p)..] <==> |src| <= LeadingRun(src, p) + 1
  {
    var n := LeadingRun(src, p);
    if |src| <= n + 1 {
      assert src[n..] == FirstFailing(src, p);
    } else {
      assert |src[n..]| > 1 >= |FirstFailing(src, p)|;
    }
  }

  function Below5(x: int): bool { x < 5 }

  /** `dropwhile(range(0, 10), x => x < 5)` over the generator `range`, whose
      values are those of `RangeTo(10)`: it yields only 5, where every value from
      5 on is meant. */
  lemma DropWhileRangeExample(s: seq<int>)
    requires |s| == 10 && forall k :: 0 <= k < 10 ==> s[k] == k
    ensures s == RangeTo(10)
    ensures FirstFailing(s, Below5) == [5]
    ensures s[LeadingRun(s, Below5)..] == [5, 6, 7, 8, 9]
  {
    var n := LeadingRun(s, Below5);
    assert !Below5(s[5]);
    assert n <= 5;
    assert s[n] == n;
    assert s[5..] == [s[5], s[6], s[7], s[8], s[9]];
  }

  function Min(a: int, b: int): int { if a <= b then a else b }

  /** `zip`: each round pulls one value from each input, first from `a`, then
      from `b`, and stops at the first round in which either is exhausted. The
      value pulled from the longer input in that round is lost, so each input is
      pulled once more than the number of pairs when it has that many values. */
  method Zip<A, B>(a: seq<A>, b: seq<B>) returns (out: seq<(A, B)>, pulledA: nat, pulledB: nat)
    ensures |out| == Min(|a|, |b|)
    ensures forall k :: 0 <= k < |out| ==> out[k] == (a[k], b[k])
    ensures pulledA == Min(|a|, |out| + 1) && pulledB == Min(|b|, |out| + 1)
  {
    out := [];
    pulledA, pulledB := 0, 0;
    while true
      invariant |out| <= |a| && |out| <= |b|
      invariant pulledA == |out| && pulledB == |out|
      invariant forall k :: 0 <= k < |out| ==> out[k] == (a[k], b[k])
      decreases |a| - |out|
    {
      var x: Step<A> := if pulledA < |a| then Yield(a[pulledA]) else Done;
      if pulledA < |a| { pulledA := pulledA + 1; }
      var y: Step<B> := if pulledB < |b| then Yield(b[pulledB]) else Done;
      if pulledB < |b| { pulledB := pulledB + 1; }
      if x.Yield? && y.Yield? {
        out := out + [(x.value, y.value)];
      } else {
        return;
      }
    }
  }

  /** `enumerate`: `zip(count(), iterable)`, so each value is paired with its
      position. */
  method Enumerate<T>(src: seq<T>) returns (out: seq<(int, T)>)
    ensures |out| == |src|
    ensures forall k :: 0 <= k < |out| ==> out[k] == (k, src[k])
  {
    out := [];
    var counter := 0;
    var i := 0;
    while i < |src|
      invariant 0 <= i <= |src|
      invariant |out| == i && counter == i
      invariant forall k :: 0 <= k < i ==> out[k] == (k, src[k])
    {
      out := out + [(counter, src[i])];
      counter := counter + 1;
      i := i + 1;
    }
  }

  /** The first `limit` values of `count(start, step)`. */
  method CountPrefix(start: int, step: int, limit: nat) returns (out: seq<int>)
    ensures |out| == limit
    ensures forall k :: 0 <= k < limit ==> out[k] == start + k * step
  {
    out := [];
    var i := start;
    while |out| < limit
      invariant |out| <= limit
      invariant i == start + |out| * step
      invariant forall k :: 0 <= k < |out| ==> out[k] == start + k * step
    {
      out := out + [i];
      i := i + step;
    }
  }

  /** The first `limit` values of `repeat(x, stop)`: `stop` copies when `stop` is
      positive; otherwise the counter never equals `stop` and it never ends. */
  method RepeatPrefix<T>(x: T, stop: int, limit: nat) returns (out: seq<T>)
    ensures |out| == (if stop > 0 then Min(stop, limit) else limit)
    ensures forall k :: 0 <= k < |out| ==> out[k] == x
  {
    out := [];
    var count := 0;
    while |out| < limit
      invariant |out| <= limit
      invariant count == |out|
      invariant stop > 0 ==> count < stop
      invariant forall k :: 0 <= k < |out| ==> out[k] == x
    {
      out := out + [x];
      count := count + 1;
      if stop == count {
        break;
      }
    }
  }

  /** Value k of `weave` over infinite sources, each given by the function from
      its pull number to its value: the sources take turns, so value k comes from
      source k mod m, as that source's (k div m)-th value. */
  function WeaveAt<T>(sources: seq<nat -> T>, k: nat): T
    requires |sources| > 0
  {
    sources[k % |sources|](k / |sources|)
  }

  /** The first `limit` values of `weave(s0, …, s(m-1))` over infinite sources. */
  method WeavePrefix<T>(sources: seq<nat -> T>, limit: nat) returns (out: seq<T>)
    requires |sources| > 0
    ensures |out| == limit
    ensures forall k :: 0 <= k < limit ==> out[k] == WeaveAt(sources, k)
  {
    var m := |sources|;
    var pulls: seq<nat> := seq(m, _ => 0);
    var round, c := 0, 0;
    out := [];
    while |out| < limit
      invariant |out| <= limit
      invariant 0 <= c < m && |out| == round * m + c
      invariant |pulls| == m
      invariant forall j :: 0 <= j < m ==> pulls[j] == round + (if j < c then 1 else 0)
      invariant forall k :: 0 <= k < |out| ==> out[k] == WeaveAt(sources, k)
    {
      DivModOf(|out|, m, round, c);
      assert sources[c](pulls[c]) == WeaveAt(sources, |out|);
      out := out + [sources[c](pulls[c])];
      pulls := pulls[c := pulls[c] + 1];
      if c + 1 == m {
        assert (round + 1) * m == round * m + m;
        round, c := round + 1, 0;
      } else {
        c := c + 1;
      }
    }
  }

  /** The source positions that `slice` selects from the target indices `ts`
      when the source has `n` values: the count runs upward from `from`, so a
      target is reached only if it lies in `[from, n)`; the first one that does
      not ends the selection. */
  function Matched(ts: seq<int>, from: int, n: int): (r: seq<int>)
    ensures |r| <= |ts|
    ensures forall k :: 0 <= k < |r| ==> from <= r[k] < n
  {
    if ts == [] || ts[0] < from || ts[0] >= n then []
    else [ts[0]] + Matched(ts[1..], ts[0] + 1, n)
  }

  /** The selected positions are a prefix of the targets and strictly increase. */
  lemma {:induction false} MatchedPrefix(ts: seq<int>, from: int, n: int)
    ensures var r := Matched(ts, from, n);
      r == ts[..|r|] && forall i, j :: 0 <= i < j < |r| ==> r[i] < r[j]
  {
    if !(ts == [] || ts[0] < from || ts[0] >= n) {
      MatchedPrefix(ts[1..], ts[0] + 1, n);
    }
  }

  /** The values of `src` at the positions `idx`, in order. */
  function Pick<T>(src: seq<T>, idx: seq<int>): (r: seq<T>)
    requires forall k :: 0 <= k < |idx| ==> 0 <= idx[k] < |src|
    ensures |r| == |idx|
  {
    seq(|idx|, k requires 0 <= k < |idx| => src[idx[k]])
  }

  /** How many source values `slice` consumes: it returns right after the last
      target when every target is reached, and otherwise drains the source. */
  function Consumed(ts: seq<int>, n: int): int
  {
    var m := Matched(ts, 0, n);
    if 0 < |m| == |ts| then m[|m| - 1] + 1 else n
  }

  /** The targets `slice` reads from `range(start, stop, step)`. With step 0
      that range never ends and yields `start` on every pull; `slice` pulls at
      most two of them, so `[start, start]` stands for it. */
  function Targets(start: int, stop: int, step: int): (ts: seq<int>)
    ensures step != 0 ==> ts == Range(start, stop, step)
    ensures step == 0 ==> ts == [start, start]
  {
    if step == 0 then [start, start] else Range(start, stop, step)
  }

  /** `slice(src, start, stop, step)`: pairs the source with the target stream
      `range(start, stop, step)`, yields the source value whose position equals
      the current target, and returns as soon as the targets run out. `pulled`
      is how many source values were consumed. With step 0 the targets never
      run out: the value at `start`, if any, is yielded and the source drained. */
  method Slice<T>(src: seq<T>, start: int, stop: int, step: int) returns (out: seq<T>, pulled: nat)
    ensures out == Pick(src, Matched(Targets(start, stop, step), 0, |src|))
    ensures pulled == Consumed(Targets(start, stop, step), |src|)
    ensures step == 0 ==> out == (if 0 <= start < |src| then [src[start]] else []) && pulled == |src|
  {
    out, pulled := SliceTargets(src, Targets(start, stop, step));
    if step == 0 {
      assert Matched([start], start + 1, |src|) == [];
    }
  }

  /** The loop of `slice` over a given target stream `ts`: the running count of
      source values is compared with the current target. */
  method SliceTargets<T>(src: seq<T>, ts: seq<int>) returns (out: seq<T>, pulled: nat)
    ensures out == Pick(src, Matched(ts, 0, |src|))
    ensures pulled == Consumed(ts, |src|)
  {
    var j := 0;
    var count := -1;
    out, pulled := [], 0;
    ghost var m := Matched(ts, 0, |src|);
    SliceStart(src, ts);
    while pulled < |src|
      invariant SliceState(src, ts, m, j, pulled, out) && count == pulled - 1
    {
      var x := src[pulled];
      SliceAdvance(src, ts, m, j, pulled, out);
      pulled := pulled + 1;
      count := count + 1;
      if j < |ts| && count == ts[j] {
        out := out + [x];
        j := j + 1;
        if j == |ts| {
          return;
        }
      }
    }
    SliceEnd(src, ts, m, j, out);
  }

  lemma SliceStart<T>(src: seq<T>, ts: seq<int>)
    ensures SliceState(src, ts, Matched(ts, 0, |src|), 0, 0, [])
  {
    assert ts[..0] == [] && ts[0..] == ts;
  }

  /** The source is drained before the targets run out. */
  lemma SliceEnd<T>(src: seq<T>, ts: seq<int>, m: seq<int>, j: nat, out: seq<T>)
    requires SliceState(src, ts, m, j, |src|, out)
    ensures out == Pick(src, Matched(ts, 0, |src|)) && |src| == Consumed(ts, |src|)
  {
    SliceDrains(ts, m, j, |src|);
  }

  /** The state of the `slice` loop after `pulled` source values: j targets
      met, and the rest of the selection still ahead. */
  ghost predicate SliceState<T>(src: seq<T>, ts: seq<int>, m: seq<int>, j: nat, pulled: nat, out: seq<T>)
  {
    pulled <= |src| && (j < |ts| || (j == 0 && ts == [])) &&
    m == Matched(ts, 0, |src|) &&
    m == ts[..j] + Matched(ts[j..], pulled, |src|) &&
    (forall k :: 0 <= k < j ==> 0 <= ts[k] < pulled) &&
    out == Pick(src, ts[..j])
  }

  /** One source value pulled at position `pulled`: a miss keeps the state, a
      hit moves to the next target, and a hit on the last target completes
      the selection with `pulled + 1` values consumed. */
  lemma SliceAdvance<T>(src: seq<T>, ts: seq<int>, m: seq<int>, j: nat, pulled: nat, out: seq<T>)
    requires SliceState(src, ts, m, j, pulled, out) && pulled < |src|
    ensures !(j < |ts| && ts[j] == pulled) ==> SliceState(src, ts, m, j, pulled + 1, out)
    ensures j < |ts| && ts[j] == pulled && j + 1 < |ts| ==>
      SliceState(src, ts, m, j + 1, pulled + 1, out + [src[pulled]])
    ensures j < |ts| && ts[j] == pulled && j + 1 == |ts| ==>
      out + [src[pulled]] == Pick(src, Matched(ts, 0, |src|)) && Consumed(ts, |src|) == pulled + 1
  {
    SliceStep(ts, m, j, pulled, |src|);
    if j < |ts| && ts[j] == pulled {
      PickAppend(src, ts, j);
      if j + 1 == |ts| {
        SliceReturns(ts, m, j + 1, pulled + 1, |src|);
      }
    }
  }

  lemma SliceReturns(ts: seq<int>, m: seq<int>, j: nat, pulled: int, n: int)
    requires 0 < j == |ts| && ts[j - 1] == pulled - 1
    requires m == Matched(ts, 0, n)
    requires m == ts[..j] + Matched(ts[j..], pulled, n)
    ensures m == ts && ts[..j] == m && Consumed(ts, n) == pulled
  {
    assert ts[j..] == [];
    assert Matched(ts[j..], pulled, n) == [];
    assert ts[..j] == ts;
    assert m == ts;
  }

  lemma SliceDrains(ts: seq<int>, m: seq<int>, j: nat, n: int)
    requires j < |ts| || (j == 0 && ts == [])
    requires m == Matched(ts, 0, n)
    requires m == ts[..j] + Matched(ts[j..], n, n)
    ensures m == ts[..j] && Consumed(ts, n) == n
  {
  }

  /** One source value pulled at position `p`: either it is the current target
      and the selection moves on, or the selection is unchanged. */
  lemma SliceStep(ts: seq<int>, m: seq<int>, j: nat, p: int, n: int)
    requires 0 <= p < n && j <= |ts|
    requires m == ts[..j] + Matched(ts[j..], p, n)
    ensures j < |ts| && ts[j] == p ==> m == ts[..j + 1] + Matched(ts[j + 1..], p + 1, n)
    ensures !(j < |ts| && ts[j] == p) ==> m == ts[..j] + Matched(ts[j..], p + 1, n)
  {
    if j < |ts| && ts[j] == p {
      assert ts[j..][1..] == ts[j + 1..];
      assert ts[..j + 1] == ts[..j] + [ts[j]];
    }
  }

  lemma PickAppend<T>(src: seq<T>, ts: seq<int>, j: nat)
    requires j < |ts|
    requires forall k :: 0 <= k <= j ==> 0 <= ts[k] < |src|
    ensures ts[..j + 1] == ts[..j] + [ts[j]]
    ensures Pick(src, ts[..j + 1]) == Pick(src, ts[..j]) + [src[ts[j]]]
  {
    assert ts[..j + 1] == ts[..j] + [ts[j]];
  }

  /** With a positive step and a non-negative start, `slice` yields the source
      values at exactly the positions of the range that the source has. */
  lemma {:induction false} MatchedRegular(start: int, stop: int, step: int, from: int, n: int)
    requires step > 0 && 0 <= from <= start
    ensures Matched(Range(start, stop, step), from, n) == Range(start, Min(stop, n), step)
    decreases stop - start
  {
    var ts := Range(start, stop, step);
    if start >= stop || start >= n {
    } else {
      RangeTail(start, stop, step);
      MatchedRegular(start + step, stop, step, start + 1, n);
    }
  }

  /** `take(src, n)` is `slice(src, n)`, i.e. start 0, step 1: the first n values. */
  method Take<T>(src: seq<T>, n: int) returns (out: seq<T>, pulled: nat)
    ensures out == src[..if n <= 0 then 0 else Min(n, |src|)]
    ensures pulled == if n <= 0 then |src| else Min(n, |src|)
  {
    out, pulled := Slice(src, 0, n, 1);
    var ts := Range(0, n, 1);
    var m := Matched(ts, 0, |src|);
    MatchedRegular(0, n, 1, 0, |src|);
    var len := if n <= 0 then 0 else Min(n, |src|);
    RangeValues(0, Min(n, |src|), 1);
    RangeLengthFormula(0, Min(n, |src|), 1);
    RangeLengthFormula(0, n, 1);
    assert |m| == len;
    assert forall k :: 0 <= k < len ==> m[k] == k;
    assert out == src[..len];
  }
}
