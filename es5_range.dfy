/** `range` of the ES5 library: an iterator that moves `min` towards `max` by
    `step`. The step argument goes through `arguments[2] || 1`, so a missing
    or zero step becomes 1 and the zero-step error can never be raised. */
module Es5Ranging {
  import opened Pull
  import opened Ranges

  /** `arguments[2] || 1` on an integer argument that may be missing. */
  function CoerceStep(arg: Option<int>): (step: int)
    ensures step != 0
    ensures arg.Some? && arg.value != 0 ==> step == arg.value
    ensures arg.None? || arg.value == 0 ==> step == 1
  {
    if arg.Some? && arg.value != 0 then arg.value else 1
  }

  class RangeIterator {
    var min: int
    const max: int
    const step: int

    ghost predicate Valid()
      reads this
    {
      step != 0
    }

    ghost function Remaining(): seq<int>
      reads this
      requires Valid()
    {
      Range(min, max, step)
    }

    /** `range(min, max, stepArg)`, two or three arguments. */
    constructor (min: int, max: int, stepArg: Option<int>)
      ensures Valid() && this.min == min && this.max == max && step == CoerceStep(stepArg)
      ensures Remaining() == Range(min, max, CoerceStep(stepArg))
    {
      this.min, this.max, step := min, max, CoerceStep(stepArg);
    }

    /** `range(max)`: from 0 by 1. */
    constructor UpTo(max: int)
      ensures Valid() && min == 0 && this.max == max && step == 1
      ensures Remaining() == RangeTo(max)
    {
      min, this.max, step := 0, max, 1;
    }

    /** One pull: the current `min`, then `min` moves by `step`; Done once
        `min` has reached `max` in the direction of the step. */
    method Next() returns (r: Step<int>)
      requires Valid()
      modifies this
      ensures Valid()
      ensures r == Head(old(Remaining())) && Remaining() == Tail(old(Remaining()))
    {
      if (step > 0 && min >= max) || (step < 0 && min <= max) {
        return Done;
      }
      r := Yield(min);
      min := min + step;
    }
  }

  /** Draining `range(min, max, stepArg)`. */
  method RangeAll(min: int, max: int, stepArg: Option<int>) returns (out: seq<int>)
    ensures out == Range(min, max, CoerceStep(stepArg))
    ensures stepArg.Some? && stepArg.value != 0 ==> out == Range(min, max, stepArg.value)
    ensures stepArg.None? || stepArg.value == 0 ==> out == Range(min, max, 1)
  {
    var it := new RangeIterator(min, max, stepArg);
    out := [];
    while true
      invariant it.Valid() && fresh(it) && out + it.Remaining() == Range(min, max, CoerceStep(stepArg))
      decreases |it.Remaining()|
    {
      ghost var before := it.Remaining();
      var r := it.Next();
      if r.Done? {
        return;
      }
      DrainStep(out, before, r, it.Remaining());
      out := out + [r.value];
    }
  }
}
