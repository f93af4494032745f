/** `cycle` of the ES5 library: values are passed on from the source and
    pushed to `cache` as they arrive; once the source throws `StopIteration`
    the cache is replayed through `cacheIndex` for ever. */
module Es5Cycling {
  import opened Pull
  import opened Arith
  import opened Es5Iterators

  class CycleIterator<T> {
    const base: ArrayIterator<T>
    var cache: seq<T>
    var cacheIndex: nat
    var useCache: bool
    /** The values the source yields, in order. */
    ghost const src: seq<T>
    /** Number of values returned so far. */
    ghost var emitted: nat

    ghost predicate Valid()
      reads this, base
    {
      base.Valid() && cache + base.Remaining() == src &&
      (!useCache ==> cacheIndex == 0 && emitted == |cache|) &&
      (useCache ==>
        base.Remaining() == [] && cache == src && |src| > 0 &&
        emitted >= |src| && cacheIndex == emitted % |src| && cacheIndex < |cache|)
    }

    constructor (arr: seq<Option<T>>)
      ensures Valid() && src == Present(arr) && emitted == 0 && fresh(base)
    {
      base := new ArrayIterator(arr);
      cache, cacheIndex, useCache := [], 0, false;
      src := Present(arr);
      emitted := 0;
    }

    /** One pull. On a non-empty source the k-th value is `src[k mod |src|]`;
        an empty source rethrows `StopIteration` on every pull. */
    method Next() returns (r: Step<T>)
      requires Valid()
      modifies this, base
      ensures Valid()
      ensures src == [] ==> r == Done && emitted == old(emitted)
      ensures src != [] ==> r == Yield(src[old(emitted) % |src|]) && emitted == old(emitted) + 1
    {
      if !useCache {
        ghost var rest := base.Remaining();
        var e := base.Next();
        if e.Yield? {
          assert rest == [e.value] + base.Remaining();
          AppendAssoc(cache, [e.value], base.Remaining());
          assert |cache| < |src|;
          DivModOf(emitted, |src|, 0, emitted);
          cache := cache + [e.value];
          emitted := emitted + 1;
          return e;
        }
        assert cache == src;
        if |cache| == 0 {
          return Done;
        }
        DivModOf(emitted, |src|, 1, 0);
        useCache := true;
      }
      r := Yield(cache[cacheIndex]);
      ModSucc(emitted, |src|);
      if cacheIndex + 1 < |cache| {
        DivModOf(cacheIndex + 1, |cache|, 0, cacheIndex + 1);
      } else {
        DivModOf(cacheIndex + 1, |cache|, 1, 0);
      }
      cacheIndex := (cacheIndex + 1) % |cache|;
      emitted := emitted + 1;
      assert cacheIndex == emitted % |src|;
    }
  }

  /** The first `limit` pulls of `cycle(arr)`, stopping early only at
      `StopIteration`, which comes at once when the array holds nothing. */
  method CycleValues<T>(arr: seq<Option<T>>, limit: nat) returns (out: seq<T>)
    ensures Present(arr) == [] ==> out == []
    ensures Present(arr) != [] ==> (|out| == limit &&
      forall k :: 0 <= k < limit ==> out[k] == Present(arr)[k % |Present(arr)|])
  {
    var c := new CycleIterator(arr);
    out := [];
    while |out| < limit
      invariant c.Valid() && c.src == Present(arr) && fresh(c) && fresh(c.base)
      invariant c.emitted == |out| <= limit
      invariant forall k :: 0 <= k < |out| ==> out[k] == c.src[k % |c.src|]
    {
      var r := c.Next();
      if r.Done? {
        return;
      }
      out := out + [r.value];
    }
  }
}
