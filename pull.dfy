/** The pull protocol shared by every combinator: a pull either yields the next
    value or signals exhaustion, and the two are never confused. */
module Pull {

  /** Outcome of one pull. */
  datatype Step<T> = Yield(value: T) | Done

  datatype Option<T> = None | Some(value: T)

  /** The queue-like view of a pull sequence: pulling from a sequence whose
      remaining values are `rest` yields the first one, or Done when none is left. */
  function Head<T>(rest: seq<T>): (r: Step<T>)
    ensures r.Done? <==> rest == []
    ensures r.Yield? ==> r.value == rest[0]
  {
    if rest == [] then Done else Yield(rest[0])
  }

  /** What is left after one pull from `rest`. */
  function Tail<T>(rest: seq<T>): (r: seq<T>)
    ensures rest != [] ==> [rest[0]] + r == rest
    ensures rest == [] ==> r == []
  {
    if rest == [] then [] else rest[1..]
  }

  /** Concatenation of a sequence of sequences, in order. */
  function Concat<T>(parts: seq<seq<T>>): seq<T>
  {
    if parts == [] then [] else parts[0] + Concat(parts[1..])
  }

  lemma {:induction false} ConcatAppend<T>(parts: seq<seq<T>>, last: seq<T>)
    ensures Concat(parts + [last]) == Concat(parts) + last
  {
    if parts == [] {
      assert parts + [last] == [last];
    } else {
      assert (parts + [last])[1..] == parts[1..] + [last];
      ConcatAppend(parts[1..], last);
    }
  }

  lemma {:induction false} ConcatSplit<T>(a: seq<seq<T>>, b: seq<seq<T>>)
    ensures Concat(a + b) == Concat(a) + Concat(b)
  {
    if a == [] {
      assert a + b == b;
    } else {
      assert (a + b)[1..] == a[1..] + b;
      ConcatSplit(a[1..], b);
    }
  }

  /** The sum of the lengths of the parts. */
  function TotalLength<T>(parts: seq<seq<T>>): nat
  {
    if parts == [] then 0 else |parts[0]| + TotalLength(parts[1..])
  }

  lemma {:induction false} ConcatLength<T>(parts: seq<seq<T>>)
    ensures |Concat(parts)| == TotalLength(parts)
  {
    if parts != [] {
      ConcatLength(parts[1..]);
    }
  }

  lemma AppendAssoc<T>(a: seq<T>, b: seq<T>, c: seq<T>)
    ensures a + (b + c) == (a + b) + c
  {
  }

  /** Draining one value: the collected values followed by what is left
      stay the same when a pull yields. */
  lemma DrainStep<T>(vs: seq<T>, before: seq<T>, r: Step<T>, after: seq<T>)
    requires r.Yield? && r == Head(before) && after == Tail(before)
    ensures (vs + [r.value]) + after == vs + before
  {
    assert before == [r.value] + after;
  }
}
