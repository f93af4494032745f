/** `zip` of the ES5 library: each pull builds a fresh array by pulling every
    argument's iterator in order; the first `StopIteration` ends the pull and
    is passed on, after the iterators before it have each lost a value. */
module Es5Zipping {
  import opened Pull

  /** Position of the first exhausted sequence, or |rems| when none is. */
  function FirstEnded<T>(rems: seq<seq<T>>): (m: nat)
    ensures m <= |rems|
    ensures forall k :: 0 <= k < m ==> rems[k] != []
    ensures m < |rems| ==> rems[m] == []
  {
    if rems == [] || rems[0] == [] then 0 else 1 + FirstEnded(rems[1..])
  }

  /** The first value of each sequence. */
  function Heads<T>(rems: seq<seq<T>>): (hs: seq<T>)
    requires forall k :: 0 <= k < |rems| ==> rems[k] != []
    ensures |hs| == |rems| && forall k :: 0 <= k < |rems| ==> hs[k] == rems[k][0]
  {
    seq(|rems|, k requires 0 <= k < |rems| && rems[k] != [] => rems[k][0])
  }

  /** What is left after a pull that reached sequence m: one value fewer in
      each sequence up to m, the others untouched. */
  function PulledUpTo<T>(rems: seq<seq<T>>, m: int): (after: seq<seq<T>>)
    ensures |after| == |rems|
    ensures forall k :: 0 <= k < |rems| ==> after[k] == if k <= m then Tail(rems[k]) else rems[k]
  {
    seq(|rems|, k requires 0 <= k < |rems| => if k <= m then Tail(rems[k]) else rems[k])
  }

  /** `zip(...args)` over the values each argument's iterator still has to
      give, one sequence per argument. */
  class ZipIterator<T> {
    var rems: seq<seq<T>>

    constructor (rems: seq<seq<T>>)
      ensures this.rems == rems
    {
      this.rems := rems;
    }

    /** One pull: the array of every iterator's next value, or Done at the
        first iterator that is exhausted, the ones before it having each lost
        a value. With no arguments every pull gives the empty array. */
    method Next() returns (r: Step<seq<T>>)
      modifies this
      ensures FirstEnded(old(rems)) == |old(rems)| ==> r == Yield(Heads(old(rems)))
      ensures FirstEnded(old(rems)) < |old(rems)| ==> r == Done
      ensures rems == PulledUpTo(old(rems), FirstEnded(old(rems)))
    {
      ghost var before := rems;
      var result := [];
      var i := 0;
      while i < |rems|
        invariant 0 <= i <= |rems| == |before|
        invariant rems == PulledUpTo(before, i - 1)
        invariant |result| == i && forall k :: 0 <= k < i ==> before[k] != [] && result[k] == before[k][0]
      {
        var v := Head(rems[i]);
        rems := rems[i := Tail(rems[i])];
        if v.Done? {
          FirstEndedAt(before, i);
          assert rems == PulledUpTo(before, i);
          return Done;
        }
        result := result + [v.value];
        i := i + 1;
      }
      FirstEndedAt(before, i);
      assert result == Heads(before);
      assert PulledUpTo(before, i - 1) == PulledUpTo(before, i);
      r := Yield(result);
    }
  }

  /** The first exhausted sequence is the one after a run of non-empty ones. */
  lemma {:induction false} FirstEndedAt<T>(rems: seq<seq<T>>, i: nat)
    requires i <= |rems| && forall k :: 0 <= k < i ==> rems[k] != []
    requires i < |rems| ==> rems[i] == []
    ensures FirstEnded(rems) == i
  {
    if i > 0 {
      FirstEndedAt(rems[1..], i - 1);
    }
  }

  /** The first `limit` pulls of `zip`, each argument given by the values
      its iterator yields, stopping at the first `StopIteration`: row j holds
      value j of every argument, and there are as many rows as the shortest
      argument has values, at most `limit`. */
  method ZipValues<T>(vals: seq<seq<T>>, limit: nat) returns (out: seq<seq<T>>)
    ensures |out| <= limit
    ensures forall k :: 0 <= k < |vals| ==> |out| <= |vals[k]|
    ensures |out| < limit ==> exists k :: 0 <= k < |vals| && |vals[k]| == |out|
    ensures out == Rows(vals, |out|)
  {
    var z := new ZipIterator(vals);
    assert vals == Suffixes(vals, 0);
    out := [];
    while |out| < limit
      invariant |out| <= limit && fresh(z)
      invariant forall k :: 0 <= k < |vals| ==> |out| <= |vals[k]|
      invariant z.rems == Suffixes(vals, |out|)
      invariant out == Rows(vals, |out|)
    {
      ghost var before := z.rems;
      var r := z.Next();
      if r.Done? {
        ZipEnds(vals, |out|);
        return;
      }
      ZipStep(vals, |out|);
      RowsAppend(vals, |out|);
      out := out + [r.value];
    }
  }

  /** Every sequence has a value at position j. */
  ghost predicate Fits<T>(vals: seq<seq<T>>, j: nat)
  {
    forall k :: 0 <= k < |vals| ==> j < |vals[k]|
  }

  /** Value j of every sequence. */
  function Row<T>(vals: seq<seq<T>>, j: nat): (row: seq<T>)
    requires Fits(vals, j)
    ensures |row| == |vals| && forall k :: 0 <= k < |vals| ==> row[k] == vals[k][j]
  {
    seq(|vals|, k requires 0 <= k < |vals| && j < |vals[k]| => vals[k][j])
  }

  /** A pull that reaches an exhausted sequence: some argument has exactly
      as many values as rows were returned. */
  lemma ZipEnds<T>(vals: seq<seq<T>>, n: nat)
    requires forall k :: 0 <= k < |vals| ==> n <= |vals[k]|
    requires FirstEnded(Suffixes(vals, n)) < |vals|
    ensures exists k :: 0 <= k < |vals| && |vals[k]| == n
  {
    var m := FirstEnded(Suffixes(vals, n));
    assert vals[m][n..] == [];
  }

  /** Rows 0 to n - 1. */
  function Rows<T>(vals: seq<seq<T>>, n: nat): (rows: seq<seq<T>>)
    requires forall k :: 0 <= k < |vals| ==> n <= |vals[k]|
    ensures |rows| == n && forall j :: 0 <= j < n ==> Fits(vals, j) && rows[j] == Row(vals, j)
  {
    seq(n, j requires 0 <= j < n && Fits(vals, j) => Row(vals, j))
  }

  lemma RowsAppend<T>(vals: seq<seq<T>>, n: nat)
    requires Fits(vals, n)
    ensures Rows(vals, n + 1) == Rows(vals, n) + [Row(vals, n)]
  {
  }

  /** Every sequence from position j on. */
  function Suffixes<T>(vals: seq<seq<T>>, j: nat): (rest: seq<seq<T>>)
    requires forall k :: 0 <= k < |vals| ==> j <= |vals[k]|
    ensures |rest| == |vals| && forall k :: 0 <= k < |vals| ==> rest[k] == vals[k][j..]
  {
    seq(|vals|, k requires 0 <= k < |vals| && j <= |vals[k]| => vals[k][j..])
  }

  /** A pull that reaches no exhausted sequence yields row j and moves every
      sequence on by one. */
  lemma ZipStep<T>(vals: seq<seq<T>>, j: nat)
    requires forall k :: 0 <= k < |vals| ==> j <= |vals[k]|
    requires FirstEnded(Suffixes(vals, j)) == |vals|
    ensures Fits(vals, j)
    ensures Heads(Suffixes(vals, j)) == Row(vals, j)
    ensures PulledUpTo(Suffixes(vals, j), |vals|) == Suffixes(vals, j + 1)
  {
    var rest := Suffixes(vals, j);
    assert forall k :: 0 <= k < |vals| ==> rest[k] != [];
    assert Fits(vals, j);
    forall k | 0 <= k < |vals| ensures Tail(rest[k]) == vals[k][j + 1..] {
      assert vals[k][j..][1..] == vals[k][j + 1..];
    }
  }
}
