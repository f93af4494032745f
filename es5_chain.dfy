/** `chain` of the ES5 library: one iterator over its arguments in turn. It
    holds an iterator over the current argument and moves to the next argument
    only when the current one throws `StopIteration`. */
module Es5Chaining {
  import opened Pull
  import opened Es5Iterators

  /** The values of the arguments k.., one after the other. */
  function Following<T>(args: seq<seq<Option<T>>>, k: nat): seq<T>
    decreases |args| - k
  {
    if k >= |args| then [] else Present(args[k]) + Following(args, k + 1)
  }

  /** The same values through `Concat` over the arguments' present elements. */
  lemma {:induction false} FollowingConcat<T>(args: seq<seq<Option<T>>>, k: nat)
    requires k <= |args|
    ensures Following(args, k) == Concat(Presents(args)[k..])
    decreases |args| - k
  {
    if k < |args| {
      FollowingConcat(args, k + 1);
      assert Presents(args)[k..][1..] == Presents(args)[k + 1..];
    }
  }

  function Presents<T>(args: seq<seq<Option<T>>>): (ps: seq<seq<T>>)
    ensures |ps| == |args| && forall k :: 0 <= k < |args| ==> ps[k] == Present(args[k])
  {
    seq(|args|, k requires 0 <= k < |args| => Present(args[k]))
  }

  /** `chain(arg0, arg1, ...)`. There must be at least one argument: the
      iterator over `args[0]` is built at once, and `toIterator(undefined)`
      throws a TypeError. */
  class ChainIterator<T> {
    const args: seq<seq<Option<T>>>
    /** Index of the argument being read; reaches |args| at the end. */
    var i: nat
    var current: ArrayIterator<T>

    ghost predicate Valid()
      reads this, current
    {
      current.Valid() && i <= |args| && (i == |args| ==> current.Remaining() == [])
    }

    ghost function Remaining(): seq<T>
      reads this, current
      requires Valid()
    {
      current.Remaining() + Following(args, i + 1)
    }

    constructor (args: seq<seq<Option<T>>>)
      requires |args| > 0
      ensures Valid() && this.args == args && fresh(current)
      ensures Remaining() == Following(args, 0)
    {
      this.args := args;
      i := 0;
      current := new ArrayIterator(args[0]);
    }

    /** One pull: the current argument's next value; on `StopIteration` the
        next argument, until there is none. The source retries through the
        recursive call `this.next()`; here that is the loop. */
    method Next() returns (r: Step<T>)
      requires Valid()
      modifies this, current
      ensures Valid() && (current == old(current) || fresh(current))
      ensures r == Head(old(Remaining())) && Remaining() == Tail(old(Remaining()))
    {
      var again := true;
      r := Done;
      while again
        invariant Valid() && (current == old(current) || fresh(current))
        invariant again ==> Remaining() == old(Remaining())
        invariant !again ==> r == Head(old(Remaining())) && Remaining() == Tail(old(Remaining()))
        decreases again, |args| - i
      {
        r, again := Attempt();
      }
    }

    /** One pass of the body of `next`: a value or the final `StopIteration`
        (`again` false), or a move to the next argument (`again` true). */
    method Attempt() returns (r: Step<T>, again: bool)
      requires Valid()
      modifies this, current
      ensures Valid() && (current == old(current) || fresh(current))
      ensures !again ==> r == Head(old(Remaining())) && Remaining() == Tail(old(Remaining()))
      ensures again ==> Remaining() == old(Remaining()) && old(i) < i
    {
      ghost var cur := current.Remaining();
      again := false;
      r := current.Next();
      if r.Yield? {
        TailAppend(cur, Following(args, i + 1));
        return;
      }
      if i >= |args| {
        return;
      }
      i := i + 1;
      if i >= |args| {
        return Done, false;
      }
      current := new ArrayIterator(args[i]);
      assert Following(args, i) == Present(args[i]) + Following(args, i + 1);
      again := true;
    }
  }

  lemma TailAppend<T>(a: seq<T>, b: seq<T>)
    requires a != []
    ensures Head(a + b) == Head(a) && Tail(a + b) == Tail(a) + b
  {
    assert (a + b)[1..] == a[1..] + b;
  }

  /** Draining `chain(...args)`: every argument's values, in argument order. */
  method ChainAll<T>(args: seq<seq<Option<T>>>) returns (out: seq<T>)
    requires |args| > 0
    ensures out == Concat(Presents(args))
  {
    var c := new ChainIterator(args);
    out := [];
    while true
      invariant c.Valid() && out + c.Remaining() == Following(args, 0)
      invariant fresh(c) && fresh(c.current)
      decreases |c.Remaining()|
    {
      ghost var before := c.Remaining();
      var r := c.Next();
      if r.Done? {
        break;
      }
      DrainStep(out, before, r, c.Remaining());
      out := out + [r.value];
    }
    FollowingConcat(args, 0);
    assert Presents(args)[0..] == Presents(args);
  }

  /** With arrays without holes the ES5 chain gives the concatenation of the
      arguments, as the ES6 generator does. */
  lemma ChainDense<T>(parts: seq<seq<T>>)
    ensures Concat(Presents(seq(|parts|, k requires 0 <= k < |parts| => Dense(parts[k])))) == Concat(parts)
  {
    var args := seq(|parts|, k requires 0 <= k < |parts| => Dense(parts[k]));
    forall k | 0 <= k < |parts| ensures Presents(args)[k] == parts[k] {
      PresentDense(parts[k]);
    }
    assert Presents(args) == parts;
  }
}
