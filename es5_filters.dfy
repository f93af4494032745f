/** `takewhile` and `dropwhile` of the ES5 library: each keeps one flag,
    `taking` or `dropping`, that starts true and, once false, stays false. */
module Es5Filtering {
  import opened Pull
  import opened Es5Iterators
  import opened Combinators

  lemma LeadingRunTail<T>(s: seq<T>, p: T -> bool)
    requires s != [] && p(s[0])
    ensures LeadingRun(s, p) == 1 + LeadingRun(s[1..], p)
    ensures s[..LeadingRun(s, p)][1..] == s[1..][..LeadingRun(s[1..], p)]
  {
  }

  class TakeWhileIterator<T> {
    const up: ArrayIterator<T>
    const pred: T -> bool
    var taking: bool

    ghost predicate Valid()
      reads this, up
    {
      up.Valid()
    }

    /** The values still to come: the rest of the leading run while taking,
        nothing afterwards. */
    ghost function Remaining(): seq<T>
      reads this, up
      requires Valid()
    {
      if taking then up.Remaining()[..LeadingRun(up.Remaining(), pred)] else []
    }

    constructor (arr: seq<Option<T>>, pred: T -> bool)
      ensures Valid() && taking && this.pred == pred && fresh(up)
      ensures up.Remaining() == Present(arr)
    {
      up := new ArrayIterator(arr);
      this.pred := pred;
      taking := true;
    }

    /** One pull: the next source value if it passes; the first failing value
        is pulled, dropped, and turns `taking` off for good. */
    method Next() returns (r: Step<T>)
      requires Valid()
      modifies this, up
      ensures Valid()
      ensures r == Head(old(Remaining())) && Remaining() == Tail(old(Remaining()))
      ensures !old(taking) ==> !taking && r == Done && up.Remaining() == old(up.Remaining())
      ensures r.Done? ==> !taking || up.Remaining() == []
    {
      if !taking {
        return Done;
      }
      ghost var rest := up.Remaining();
      var v := up.Next();
      if v.Done? {
        return Done;
      }
      if pred(v.value) {
        LeadingRunTail(rest, pred);
        return v;
      }
      taking := false;
      return Done;
    }
  }

  class DropWhileIterator<T> {
    const up: ArrayIterator<T>
    const pred: T -> bool
    var dropping: bool

    ghost predicate Valid()
      reads this, up
    {
      up.Valid()
    }

    /** The values still to come: the source after its leading run while
        dropping, every source value afterwards. */
    ghost function Remaining(): seq<T>
      reads this, up
      requires Valid()
    {
      if dropping then up.Remaining()[LeadingRun(up.Remaining(), pred)..] else up.Remaining()
    }

    constructor (arr: seq<Option<T>>, pred: T -> bool)
      ensures Valid() && dropping && this.pred == pred && fresh(up)
      ensures up.Remaining() == Present(arr)
    {
      up := new ArrayIterator(arr);
      this.pred := pred;
      dropping := true;
    }

    /** One pull: values that pass are skipped while dropping; the first one
        that fails is returned and turns `dropping` off for good, after which
        every value is returned. */
    method Next() returns (r: Step<T>)
      requires Valid()
      modifies this, up
      ensures Valid()
      ensures r == Head(old(Remaining())) && Remaining() == Tail(old(Remaining()))
      ensures !old(dropping) ==> !dropping && r == Head(old(up.Remaining()))
      ensures r.Yield? ==> !dropping
    {
      while true
        invariant Valid() && Remaining() == old(Remaining())
        invariant !old(dropping) ==> !dropping && up.Remaining() == old(up.Remaining())
        decreases |up.Remaining()|
      {
        ghost var rest := up.Remaining();
        r := up.Next();
        if r.Done? {
          return;
        }
        if dropping && pred(r.value) {
          LeadingRunTail(rest, pred);
          assert rest[LeadingRun(rest, pred)..] == rest[1..][LeadingRun(rest[1..], pred)..];
          continue;
        }
        dropping := false;
        return;
      }
    }
  }

  /** Draining `takewhile(pred, arr)`: the leading run of passing values. */
  method TakeWhileAll<T>(arr: seq<Option<T>>, pred: T -> bool) returns (out: seq<T>)
    ensures out == Present(arr)[..LeadingRun(Present(arr), pred)]
    ensures forall k :: 0 <= k < |out| ==> pred(out[k])
  {
    var t := new TakeWhileIterator(arr, pred);
    ghost var goal := t.Remaining();
    out := [];
    while true
      invariant t.Valid() && fresh(t) && fresh(t.up) && out + t.Remaining() == goal
      decreases |t.Remaining()|
    {
      ghost var before := t.Remaining();
      var r := t.Next();
      if r.Done? {
        break;
      }
      DrainStep(out, before, r, t.Remaining());
      out := out + [r.value];
    }
    assert out == goal;
  }

  /** Draining `dropwhile(pred, arr)`: everything after the leading run. */
  method DropWhileAll<T>(arr: seq<Option<T>>, pred: T -> bool) returns (out: seq<T>)
    ensures out == Present(arr)[LeadingRun(Present(arr), pred)..]
    ensures out != [] ==> !pred(out[0])
  {
    var d := new DropWhileIterator(arr, pred);
    ghost var goal := d.Remaining();
    out := [];
    while true
      invariant d.Valid() && fresh(d) && fresh(d.up) && out + d.Remaining() == goal
      decreases |d.Remaining()|
    {
      ghost var before := d.Remaining();
      var r := d.Next();
      if r.Done? {
        break;
      }
      DrainStep(out, before, r, d.Remaining());
      out := out + [r.value];
    }
    assert out == goal;
  }
}
