/** The iterator protocol of the ES5 library: an iterator is an object whose
    `next` either returns the next value or throws the `StopIteration`
    sentinel. `toIterator` turns an array into such an object, `toArray`
    drains one back into an array. Arrays may have holes (deleted elements);
    a hole is `None` here. */
module Es5Iterators {
  import opened Pull

  /** The elements an array really holds, in index order, holes skipped. */
  function Present<T>(a: seq<Option<T>>): seq<T>
  {
    if a == [] then [] else (if a[0].Some? then [a[0].value] else []) + Present(a[1..])
  }

  /** An array without holes holding `vs`. */
  function Dense<T>(vs: seq<T>): (a: seq<Option<T>>)
    ensures |a| == |vs| && forall k :: 0 <= k < |a| ==> a[k] == Some(vs[k])
  {
    seq(|vs|, k requires 0 <= k < |vs| => Some(vs[k]))
  }

  /** A value is yielded exactly when the array holds it. */
  lemma {:induction false} PresentMember<T>(a: seq<Option<T>>, x: T)
    ensures x in Present(a) <==> Some(x) in a
  {
    if a != [] {
      PresentMember(a[1..], x);
      assert a == [a[0]] + a[1..];
    }
  }

  /** Holes only shorten the array; an array without holes yields all of it. */
  lemma {:induction false} PresentLength<T>(a: seq<Option<T>>)
    ensures |Present(a)| <= |a|
    ensures |Present(a)| == |a| <==> forall k :: 0 <= k < |a| ==> a[k].Some?
  {
    if a != [] {
      PresentLength(a[1..]);
      if forall k :: 0 <= k < |a| ==> a[k].Some? {
        assert forall k :: 0 <= k < |a[1..]| ==> a[1..][k].Some? by {
          forall k | 0 <= k < |a[1..]| ensures a[1..][k].Some? {
            assert a[1..][k] == a[k + 1];
          }
        }
      } else if a[0].Some? {
        var k :| 0 <= k < |a| && a[k].None?;
        assert a[1..][k - 1] == a[k];
      }
    }
  }

  /** Round trip: iterating over an array built from `vs` gives `vs` back. */
  lemma {:induction false} PresentDense<T>(vs: seq<T>)
    ensures Present(Dense(vs)) == vs
  {
    if vs != [] {
      assert Dense(vs)[1..] == Dense(vs[1..]);
      PresentDense(vs[1..]);
    }
  }

  lemma PresentSkip<T>(a: seq<Option<T>>, i: nat)
    requires i < |a|
    ensures Present(a[i..]) == (if a[i].Some? then [a[i].value] else []) + Present(a[i + 1..])
  {
    assert a[i..][1..] == a[i + 1..];
  }

  /** `toIterator(array)`: a cursor `i` over the array that skips holes and,
      once past the end, throws `StopIteration` on every pull. */
  class ArrayIterator<T> {
    const arr: seq<Option<T>>
    var i: nat

    ghost predicate Valid()
      reads this
    {
      i <= |arr|
    }

    /** The values still to come. */
    ghost function Remaining(): seq<T>
      reads this
      requires Valid()
    {
      Present(arr[i..])
    }

    constructor (arr: seq<Option<T>>)
      ensures Valid() && this.arr == arr && i == 0
      ensures Remaining() == Present(arr)
    {
      this.arr := arr;
      i := 0;
      assert arr[0..] == arr;
    }

    /** One pull: the next present element, or Done for good. */
    method Next() returns (r: Step<T>)
      requires Valid()
      modifies this
      ensures Valid()
      ensures r == Head(old(Remaining())) && Remaining() == Tail(old(Remaining()))
    {
      while true
        invariant Valid() && Remaining() == old(Remaining())
        decreases |arr| - i
      {
        if i >= |arr| {
          return Done;
        }
        PresentSkip(arr, i);
        if arr[i].None? {
          i := i + 1;
          continue;
        }
        r := Yield(arr[i].value);
        i := i + 1;
        return;
      }
    }
  }

  /** Pulls until `StopIteration`, collecting the values in pull order. */
  method Drain<T>(it: ArrayIterator<T>) returns (vs: seq<T>)
    requires it.Valid()
    modifies it
    ensures it.Valid() && vs == old(it.Remaining()) && it.Remaining() == []
  {
    vs := [];
    while true
      invariant it.Valid() && vs + it.Remaining() == old(it.Remaining())
      decreases |it.Remaining()|
    {
      ghost var before := it.Remaining();
      var r := it.Next();
      if r.Done? {
        return;
      }
      DrainStep(vs, before, r, it.Remaining());
      vs := vs + [r.value];
    }
  }

  /** What `toArray` may be given: an array, or an iterator. */
  datatype Iterable<T> = ArrayValue(items: seq<Option<T>>) | IteratorValue(it: ArrayIterator<T>)

  /** `toArray`: an array comes back as it is, holes included; an iterator is
      drained into a fresh array without holes. */
  method ToArray<T>(src: Iterable<T>) returns (r: seq<Option<T>>)
    requires src.IteratorValue? ==> src.it.Valid()
    modifies if src.IteratorValue? then {src.it} else {}
    ensures src.ArrayValue? ==> r == src.items
    ensures src.IteratorValue? ==>
      src.it.Valid() && src.it.Remaining() == [] && r == Dense(old(src.it.Remaining()))
  {
    if src.ArrayValue? {
      return src.items;
    }
    var vs := Drain(src.it);
    r := Dense(vs);
  }

  /** `toArray(toIterator(arr))`: the array's elements with the holes closed up. */
  method Values<T>(arr: seq<Option<T>>) returns (vs: seq<T>)
    ensures vs == Present(arr)
    ensures |vs| <= |arr|
  {
    var it := new ArrayIterator(arr);
    var a := ToArray(IteratorValue(it));
    vs := seq(|a|, k requires 0 <= k < |a| => a[k].value);
    PresentLength(arr);
  }

  /** The list read back to front. */
  function Reversed<T>(s: seq<T>): seq<T>
  {
    if s == [] then [] else Reversed(s[1..]) + [s[0]]
  }

  lemma {:induction false} ReversedAt<T>(s: seq<T>)
    ensures |Reversed(s)| == |s|
    ensures forall k :: 0 <= k < |s| ==> Reversed(s)[k] == s[|s| - 1 - k]
  {
    if s != [] {
      ReversedAt(s[1..]);
    }
  }

  /** Reversing twice gives the list back. */
  lemma {:induction false} ReversedTwice<T>(s: seq<T>)
    ensures Reversed(Reversed(s)) == s
  {
    ReversedAt(s);
    ReversedAt(Reversed(s));
    assert Reversed(Reversed(s)) == s;
  }

  /** The `reverse` helper: pushes the list's elements from the last index down. */
  method Reverse<T>(list: seq<T>) returns (r: seq<T>)
    ensures |r| == |list| && forall k :: 0 <= k < |r| ==> r[k] == list[|list| - 1 - k]
    ensures r == Reversed(list)
  {
    r := [];
    var i := |list| - 1;
    while i >= 0
      invariant -1 <= i < |list|
      invariant |r| == |list| - 1 - i
      invariant forall k :: 0 <= k < |r| ==> r[k] == list[|list| - 1 - k]
    {
      r := r + [list[i]];
      i := i - 1;
    }
    ReversedAt(list);
  }
}
