/** `tee` (both library versions): n branches over one shared upstream, each
    with its own FIFO queue. A branch whose queue is empty pulls the upstream
    and appends the value to every queue; then it takes the head of its own. */
module Teeing {
  import opened Pull

  /** The upstream and the queues of `tee(src, n)` shared by its n branches. */
  class TeeBuffer<T> {
    /** The values the upstream yields, in pull order. */
    const src: seq<T>
    /** Number of branches. */
    const n: nat
    /** Number of values pulled from the upstream. */
    var pos: nat
    var queues: seq<seq<T>>
    /** Number of values each branch has yielded. */
    ghost var taken: seq<nat>

    /** Each queue holds exactly the upstream values its branch has not yet
        yielded, in upstream order. */
    ghost predicate Valid()
      reads this
    {
      pos <= |src| && |queues| == n && |taken| == n &&
      forall b :: 0 <= b < n ==> taken[b] <= pos && queues[b] == src[taken[b]..pos]
    }

    constructor (src: seq<T>, n: nat)
      ensures Valid() && this.src == src && this.n == n
      ensures pos == 0 && taken == seq(n, _ => 0)
    {
      this.src, this.n := src, n;
      pos := 0;
      queues := seq(n, _ => []);
      taken := seq(n, _ => 0);
    }

    /** One pull on branch `b`: the branch yields the next upstream value it has
        not yet seen, or is done once it has seen all of them. The upstream is
        pulled only when the branch's own queue is empty, and no other branch's
        progress changes. */
    method Pull(b: nat) returns (r: Step<T>)
      requires Valid() && b < n
      modifies this
      ensures Valid()
      ensures old(taken[b]) < |src| ==>
        r == Yield(src[old(taken[b])]) && taken == old(taken)[b := old(taken[b]) + 1]
      ensures old(taken[b]) == |src| ==> r == Done && taken == old(taken)
      ensures pos == if old(queues[b]) == [] && old(pos) < |src| then old(pos) + 1 else old(pos)
    {
      if queues[b] == [] {
        if pos == |src| {
          return Done;
        }
        var val := src[pos];
        pos := pos + 1;
        var qs, d := queues, 0;
        while d < n
          invariant 0 <= d <= n && |qs| == n
          invariant forall k :: 0 <= k < d ==> qs[k] == src[taken[k]..pos]
          invariant forall k :: d <= k < n ==> qs[k] == src[taken[k]..pos - 1]
        {
          assert src[taken[d]..pos] == src[taken[d]..pos - 1] + [val];
          qs := qs[d := qs[d] + [val]];
          d := d + 1;
        }
        queues := qs;
      }
      r := Yield(queues[b][0]);
      queues := queues[b := queues[b][1..]];
      taken := taken[b := taken[b] + 1];
    }
  }

  /** How many times branch `b` occurs in the pull schedule. */
  function Pulls(schedule: seq<nat>, b: nat): nat
  {
    if schedule == [] then 0
    else Pulls(schedule[..|schedule| - 1], b) + (if schedule[|schedule| - 1] == b then 1 else 0)
  }

  function Min(a: int, b: int): int
  {
    if a <= b then a else b
  }

  /** Runs the branches of `tee(src, n)` in the order `schedule` gives and
      collects what each yields: under any interleaving every branch yields a
      prefix of the source in order, as long as it was pulled. */
  method TeeRun<T>(src: seq<T>, n: nat, schedule: seq<nat>) returns (outs: seq<seq<T>>)
    requires forall i :: 0 <= i < |schedule| ==> schedule[i] < n
    ensures |outs| == n
    ensures forall b :: 0 <= b < n ==> outs[b] == src[..Min(Pulls(schedule, b), |src|)]
  {
    var t := new TeeBuffer(src, n);
    outs := seq(n, _ => []);
    var i := 0;
    while i < |schedule|
      invariant 0 <= i <= |schedule| && |outs| == n
      invariant t.Valid() && t.src == src && t.n == n
      invariant forall b :: 0 <= b < n ==>
        t.taken[b] == Min(Pulls(schedule[..i], b), |src|) && outs[b] == src[..t.taken[b]]
    {
      var b := schedule[i];
      assert schedule[..i + 1][..i] == schedule[..i];
      var r := t.Pull(b);
      if r.Yield? {
        outs := outs[b := outs[b] + [r.value]];
      }
      i := i + 1;
    }
    assert schedule[..i] == schedule;
  }
}
