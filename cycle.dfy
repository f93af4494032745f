/** `cycle` of the ES6 library: the generator yields each source value as it
    pulls it, saving a copy after the yield, and once the source is exhausted it
    replays the saved copy forever. */
module Cycling {
  import opened Pull
  import opened Arith

  /** A suspended `cycle(src)` generator over a finite, non-empty source. */
  class Cycle<T> {
    /** The values the source yields, in pull order. */
    const src: seq<T>
    /** Number of values pulled from the source. */
    var pos: nat
    /** The last pulled value has been yielded but not yet pushed to `saved`:
        the push runs only when the generator is resumed. */
    var pending: bool
    var saved: seq<T>
    /** The first loop is over and the generator replays `saved`. */
    var replaying: bool
    /** Position of the replay loop within `saved`. */
    var j: nat
    /** Number of values yielded so far. */
    ghost var emitted: nat

    ghost predicate Valid()
      reads this
    {
      |src| > 0 && pos <= |src| &&
      (!replaying ==>
        emitted == pos && (pending ==> pos > 0) &&
        saved == src[..if pending then pos - 1 else pos]) &&
      (replaying ==>
        !pending && pos == |src| && saved == src &&
        emitted >= |src| && j == emitted % |src|)
    }

    constructor (src: seq<T>)
      requires |src| > 0
      ensures Valid() && this.src == src && emitted == 0 && pos == 0
    {
      this.src := src;
      pos, pending, saved, replaying, j := 0, false, [], false, 0;
      emitted := 0;
    }

    /** One pull. The k-th value is `src[k mod |src|]`; the first |src| values
        come straight from the source, and from then on `saved` holds all of it. */
    method Next() returns (r: Step<T>)
      requires Valid()
      modifies this
      ensures Valid()
      ensures r == Yield(src[old(emitted) % |src|])
      ensures emitted == old(emitted) + 1
      ensures pos == if old(emitted) < |src| then old(emitted) + 1 else |src|
      ensures old(emitted) >= |src| ==> saved == src
    {
      if !replaying {
        if pending {
          assert src[..pos] == src[..pos - 1] + [src[pos - 1]];
          saved := saved + [src[pos - 1]];
          pending := false;
        }
        if pos < |src| {
          DivModOf(emitted, |src|, 0, emitted);
          var e := src[pos];
          pos := pos + 1;
          pending := true;
          emitted := emitted + 1;
          return Yield(e);
        }
        assert saved == src;
        DivModOf(emitted, |src|, 1, 0);
        replaying, j := true, 0;
      }
      r := Yield(saved[j]);
      ModSucc(emitted, |src|);
      // The for-of loop over `saved` ends and the outer loop starts it again.
      j := if j + 1 == |saved| then 0 else j + 1;
      emitted := emitted + 1;
    }
  }

  /** The first `limit` values of `cycle(src)`, as `take(cycle(src), limit)` sees
      them: value k is `src[k mod |src|]`. */
  method CyclePrefix<T>(src: seq<T>, limit: nat) returns (out: seq<T>)
    requires |src| > 0
    ensures |out| == limit
    ensures forall k :: 0 <= k < limit ==> out[k] == src[k % |src|]
    ensures limit <= |src| ==> out == src[..limit]
  {
    var c := new Cycle(src);
    out := [];
    while |out| < limit
      invariant c.Valid() && c.src == src && c.emitted == |out| <= limit
      invariant forall k :: 0 <= k < |out| ==> out[k] == src[k % |src|]
    {
      var r := c.Next();
      out := out + [r.value];
    }
    if limit <= |src| {
      forall k | 0 <= k < limit
        ensures out[k] == src[k]
      {
        DivModOf(k, |src|, 0, k);
      }
    }
  }
}
