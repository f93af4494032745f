/** `groupBy` of the ES6 library and the two combinators built on it, `compress`
    and `pack`. The outer generator and the newest group's generator share one
    cursor over the source (`targetKey`, `currentKey`, `currentValue`). */
module Grouping {
  import opened Pull

  /** One group: its key and the source values of its run. */
  datatype Group<K, T> = Group(key: K, items: seq<T>)

  /** End (exclusive) of the maximal run of equal keys that starts at `i`. */
  function RunEnd<K(==), T>(s: seq<T>, key: T -> K, i: nat): (e: nat)
    requires i < |s|
    ensures i < e <= |s|
    ensures e < |s| ==> key(s[e]) != key(s[i])
    decreases |s| - i
  {
    if i + 1 == |s| || key(s[i + 1]) != key(s[i]) then i + 1 else RunEnd(s, key, i + 1)
  }

  /** Every value of the run from `i` has the key of its first value. */
  lemma {:induction false} RunKeys<K, T>(s: seq<T>, key: T -> K, i: nat)
    requires i < |s|
    ensures forall k :: i <= k < RunEnd(s, key, i) ==> key(s[k]) == key(s[i])
    decreases |s| - i
  {
    if !(i + 1 == |s| || key(s[i + 1]) != key(s[i])) {
      RunKeys(s, key, i + 1);
    }
  }

  /** The maximal runs of equal keys of `s[i..]`, in order: the reference
      definition of what `groupBy` emits. */
  function Runs<K(==), T>(s: seq<T>, key: T -> K, i: nat): seq<Group<K, T>>
    requires i <= |s|
    decreases |s| - i
  {
    if i == |s| then []
    else
      var e := RunEnd(s, key, i);
      [Group(key(s[i]), s[i..e])] + Runs(s, key, e)
  }

  /** The keys of a list of groups. */
  function Keys<K, T>(gs: seq<Group<K, T>>): (r: seq<K>)
    ensures |r| == |gs| && forall j :: 0 <= j < |gs| ==> r[j] == gs[j].key
  {
    if gs == [] then [] else [gs[0].key] + Keys(gs[1..])
  }

  /** The values of each of a list of groups. */
  function ItemsOf<K, T>(gs: seq<Group<K, T>>): (r: seq<seq<T>>)
    ensures |r| == |gs| && forall j :: 0 <= j < |gs| ==> r[j] == gs[j].items
  {
    if gs == [] then [] else [gs[0].items] + ItemsOf(gs[1..])
  }

  /** One step of `Runs`: the run at `i`, then the runs after it. */
  lemma RunsUnfold<K, T>(s: seq<T>, key: T -> K, i: nat)
    requires i < |s|
    ensures var e := RunEnd(s, key, i);
      Runs(s, key, i) == [Group(key(s[i]), s[i..e])] + Runs(s, key, e) &&
      Runs(s, key, i)[0] == Group(key(s[i]), s[i..e]) &&
      Runs(s, key, i)[1..] == Runs(s, key, e)
  {
  }

  /** The keys of the runs from `i`: the key at `i`, then those after its run. */
  lemma KeysStep<K, T>(s: seq<T>, key: T -> K, i: nat)
    requires i < |s|
    ensures Keys(Runs(s, key, i)) == [key(s[i])] + Keys(Runs(s, key, RunEnd(s, key, i)))
  {
    RunsUnfold(s, key, i);
  }

  /** The items of the runs from `i`: the run at `i`, then those after it. */
  lemma ItemsStep<K, T>(s: seq<T>, key: T -> K, i: nat)
    requires i < |s|
    ensures var e := RunEnd(s, key, i);
      ItemsOf(Runs(s, key, i)) == [s[i..e]] + ItemsOf(Runs(s, key, e))
  {
    RunsUnfold(s, key, i);
  }

  /** The runs concatenate back to the input. */
  lemma {:induction false} RunsFlatten<K, T>(s: seq<T>, key: T -> K, i: nat)
    requires i <= |s|
    ensures Concat(ItemsOf(Runs(s, key, i))) == s[i..]
    decreases |s| - i
  {
    if i < |s| {
      var e := RunEnd(s, key, i);
      RunsFlatten(s, key, e);
      assert ItemsOf(Runs(s, key, i)) == [s[i..e]] + ItemsOf(Runs(s, key, e));
      assert s[i..] == s[i..e] + s[e..];
    }
  }

  /** Every run is non-empty and all its values have the run's key; two
      neighbouring runs never have the same key. */
  lemma {:induction false} RunsShape<K, T>(s: seq<T>, key: T -> K, i: nat)
    requires i <= |s|
    ensures forall j :: 0 <= j < |Runs(s, key, i)| ==>
      Runs(s, key, i)[j].items != [] &&
      forall x :: x in Runs(s, key, i)[j].items ==> key(x) == Runs(s, key, i)[j].key
    ensures forall j :: 0 < j < |Runs(s, key, i)| ==>
      Runs(s, key, i)[j - 1].key != Runs(s, key, i)[j].key
    decreases |s| - i
  {
    if i < |s| {
      var e := RunEnd(s, key, i);
      RunsShape(s, key, e);
      RunKeys(s, key, i);
      var r := Runs(s, key, i);
      var rest := Runs(s, key, e);
      assert r == [Group(key(s[i]), s[i..e])] + rest;
      forall j | 0 <= j < |r|
        ensures r[j].items != [] && forall x :: x in r[j].items ==> key(x) == r[j].key
      {
        if j == 0 {
          assert r[0] == Group(key(s[i]), s[i..e]);
          forall x | x in r[0].items
            ensures key(x) == r[0].key
          {
            var k :| 0 <= k < |r[0].items| && r[0].items[k] == x;
            assert s[i + k] == x;
          }
        } else {
          assert r[j] == rest[j - 1];
          assert rest[j - 1].items != [];
        }
      }
      forall j | 0 < j < |r|
        ensures r[j - 1].key != r[j].key
      {
        if j == 1 {
          assert r[0] == Group(key(s[i]), s[i..e]);
          assert r[1] == rest[0] && rest[0].key == key(s[e]);
        } else {
          assert r[j - 1] == rest[j - 2] && r[j] == rest[j - 1];
        }
      }
    }
  }

  /** Progress of the newest group's generator. */
  datatype Phase = NotStarted | Suspended | Finished

  /** A suspended `groupBy(src, key)`: the outer generator, which emits one
      [key, group] pair per run, and the generator of the newest group. Only the
      newest group can be pulled: each pair is used before the next is asked for,
      either drained or skipped. */
  class GroupBy<K(==), T> {
    /** The values the source yields, in pull order. */
    const src: seq<T>
    const key: T -> K
    /** Number of values pulled from the source. */
    var pos: nat
    /** The shared cursor; `None` stands for the initial `undefined`, and for
        `currentValue` also for the record of an exhausted source. */
    var currentKey: Option<K>
    var targetKey: Option<K>
    var currentValue: Option<T>
    /** The outer generator has returned. */
    var finished: bool
    var phase: Phase
    /** Number of pairs emitted, where the current run starts, and how many
        values the newest group has yielded. */
    ghost var g: nat
    ghost var start: nat
    ghost var d: nat

    /** What holds whatever the generators are doing: before the first pair
        nothing has been pulled; afterwards the current run starts at `start`. */
    ghost predicate Base()
      reads this
    {
      pos <= |src| &&
      (g == 0 ==>
        pos == 0 && start == 0 && currentKey.None? && targetKey.None? &&
        currentValue.None? && (finished ==> src == [])) &&
      (g > 0 ==>
        start < pos && start < |src| &&
        targetKey == Some(key(src[start])))
    }

    /** The cursor holds a value of the current run. */
    ghost predicate InRun()
      reads this
    {
      g > 0 && start < pos <= |src| && pos <= RunEnd(src, key, start) &&
      currentValue == Some(src[pos - 1]) && currentKey == targetKey
    }

    /** The cursor holds the first value of the next run. */
    ghost predicate AtNextRun()
      reads this
    {
      g > 0 && start < |src| && pos == RunEnd(src, key, start) + 1 && pos <= |src| &&
      currentValue == Some(src[pos - 1]) && currentKey == Some(key(src[pos - 1]))
    }

    /** The current run reaches the end of the source, which is exhausted. */
    ghost predicate Drained()
      reads this
    {
      g > 0 && start < |src| && pos == RunEnd(src, key, start) == |src| &&
      currentValue.None? && currentKey == targetKey
    }

    ghost predicate Valid()
      reads this
    {
      Base() &&
      (g > 0 ==>
        (finished ==> Drained()) &&
        (phase == NotStarted ==> InRun() && pos == start + 1 && d == 0) &&
        (phase == Suspended ==> InRun() && d == pos - start) &&
        (phase == Finished ==>
          (AtNextRun() || Drained()) && d == RunEnd(src, key, start) - start))
    }

    constructor (src: seq<T>, key: T -> K)
      ensures Valid() && this.src == src && this.key == key && g == 0
    {
      this.src, this.key := src, key;
      pos, currentKey, targetKey, currentValue := 0, None, None, None;
      finished, phase := false, Finished;
      g, start, d := 0, 0, 0;
    }

    /** The inner loop of the outer generator: pulls while the cursor's key is
        the target key, so that it stops on the first value of the next run;
        false when the source runs out first. */
    method SkipRun() returns (found: bool)
      requires Valid() && !finished
      modifies this
      ensures g == old(g) && start == old(start) && targetKey == old(targetKey)
      ensures pos <= |src| && !finished
      ensures var p := if g == 0 then 0 else RunEnd(src, key, start);
        if found then
          pos == p + 1 && currentValue == Some(src[p]) && currentKey == Some(key(src[p])) &&
          currentKey != targetKey
        else
          pos == p == |src| && currentKey == targetKey
    {
      ghost var e := if g == 0 then 0 else RunEnd(src, key, start);
      if g > 0 {
        RunKeys(src, key, start);
      }
      while currentKey == targetKey
        invariant pos <= |src| && !finished && g == old(g) && start == old(start)
        invariant targetKey == old(targetKey)
        invariant g == 0 ==>
          start == 0 && targetKey.None? &&
          ((pos == 0 && currentKey.None?) ||
           (pos == 1 && currentKey == Some(key(src[0])) && currentValue == Some(src[0])))
        invariant g > 0 ==>
          e == RunEnd(src, key, start) && Base() && (InRun() || AtNextRun() || Drained())
        decreases |src| - pos
      {
        if pos == |src| {
          return false;
        }
        currentValue := Some(src[pos]);
        pos := pos + 1;
        currentKey := Some(key(src[pos - 1]));
      }
      if g > 0 {
        assert AtNextRun();
      }
      return true;
    }

    /** One pull of the outer generator: the key of the next run, after skipping
        whatever the previous group left unread; done after the last run. */
    method NextGroup() returns (r: Step<K>)
      requires Valid()
      modifies this
      ensures Valid()
      ensures var p := if old(g) == 0 then 0 else RunEnd(src, key, old(start));
        if p < |src| then
          r == Yield(key(src[p])) && g == old(g) + 1 && start == p &&
          phase == NotStarted && !finished
        else
          r == Done && g == old(g) && finished
    {
      if finished {
        return Done;
      }
      var found := SkipRun();
      if !found {
        // The source is exhausted: the outer generator returns.
        currentValue, finished, phase, d :=
          None, true, Finished, if g > 0 then RunEnd(src, key, start) - start else d;
        return Done;
      }
      targetKey, g, start, d, phase := currentKey, g + 1, pos - 1, 0, NotStarted;
      r := Yield(currentKey.value);
    }

    /** One pull of the newest group: the next value of the current run, or done
        once the run is over (the generator then holds the next run's first
        value, or the source is exhausted). */
    method NextInGroup() returns (r: Step<T>)
      requires Valid() && g > 0 && !finished
      modifies this
      ensures Valid() && g == old(g) && start == old(start) && !finished
      ensures var e := RunEnd(src, key, start);
        if start + old(d) < e then r == Yield(src[start + old(d)]) && d == old(d) + 1
        else r == Done && d == old(d)
    {
      ghost var e := RunEnd(src, key, start);
      RunKeys(src, key, start);
      if phase == Finished {
        return Done;
      }
      if phase == Suspended {
        // Resumed after a yield: pull the next value.
        if pos == |src| {
          currentValue := None;
          phase := Finished;
          return Done;
        }
        currentValue := Some(src[pos]);
        pos := pos + 1;
        currentKey := Some(key(src[pos - 1]));
        assert currentKey == targetKey <==> pos <= e;
      }
      if currentKey == targetKey {
        phase := Suspended;
        d := d + 1;
        return Yield(currentValue.value);
      }
      phase := Finished;
      return Done;
    }
  }

  /** The default key function of `groupBy`. */
  function Identity<T>(x: T): T
  {
    x
  }

  /** `compress(src)`: the keys of the pairs `groupBy` emits, without reading the
      groups; consecutive duplicates collapse into one. */
  method Compress<T(==)>(src: seq<T>) returns (out: seq<T>)
    ensures out == Keys(Runs(src, Identity, 0))
  {
    var gb := new GroupBy(src, Identity);
    ghost var next := 0;
    out := [];
    while true
      invariant gb.Valid() && gb.src == src && gb.key == Identity
      invariant next == if gb.g == 0 then 0 else RunEnd(src, Identity, gb.start)
      invariant next <= |src| && out + Keys(Runs(src, Identity, next)) == Keys(Runs(src, Identity, 0))
      decreases |src| - next
    {
      var r := gb.NextGroup();
      if r.Done? {
        return;
      }
      ghost var e := RunEnd(src, Identity, next);
      KeysStep(src, Identity, next);
      assert r.value == src[next];
      AppendAssoc(out, [r.value], Keys(Runs(src, Identity, e)));
      next := e;
      out := out + [r.value];
    }
  }

  /** `Array.from(group)`: pulls the newest group until it is done and
      collects its values, which are the whole current run. */
  method DrainGroup<K, T>(gb: GroupBy<K, T>) returns (run: seq<T>)
    requires gb.Valid() && gb.g > 0 && !gb.finished && gb.d == 0
    modifies gb
    ensures gb.Valid() && gb.g == old(gb.g) && gb.start == old(gb.start) && !gb.finished
    ensures run == gb.src[gb.start..RunEnd(gb.src, gb.key, gb.start)]
  {
    ghost var s0 := gb.start;
    ghost var e := RunEnd(gb.src, gb.key, s0);
    run := [];
    while true
      invariant gb.Valid() && gb.g == old(gb.g) && gb.start == s0 && !gb.finished
      invariant gb.d <= e - s0 && run == gb.src[s0..s0 + gb.d]
      decreases e - s0 - gb.d
    {
      var x := gb.NextInGroup();
      if x.Done? {
        return;
      }
      run := run + [x.value];
    }
  }

  /** One value of `pack`'s generator: the next pair from `groupBy`, with its
      group drained into a list. */
  method NextPacked<K, T>(gb: GroupBy<K, T>) returns (r: Step<seq<T>>)
    requires gb.Valid()
    modifies gb
    ensures gb.Valid()
    ensures var p := if old(gb.g) == 0 then 0 else RunEnd(gb.src, gb.key, old(gb.start));
      if p < |gb.src| then
        r == Yield(gb.src[p..RunEnd(gb.src, gb.key, p)]) && gb.g == old(gb.g) + 1 && gb.start == p
      else
        r == Done && gb.g == old(gb.g)
  {
    var k := gb.NextGroup();
    if k.Done? {
      return Done;
    }
    var run := DrainGroup(gb);
    r := Yield(run);
  }

  /** `pack(src)`: each group drained into a list before the next pair is asked
      for, so every run of equal values becomes one sub-list. */
  method Pack<T(==)>(src: seq<T>) returns (out: seq<seq<T>>)
    ensures out == ItemsOf(Runs(src, Identity, 0))
  {
    var gb := new GroupBy(src, Identity);
    ghost var next := 0;
    out := [];
    while true
      invariant gb.Valid() && gb.src == src && gb.key == Identity
      invariant next == if gb.g == 0 then 0 else RunEnd(src, Identity, gb.start)
      invariant next <= |src| && out + ItemsOf(Runs(src, Identity, next)) == ItemsOf(Runs(src, Identity, 0))
      decreases |src| - next
    {
      var r := NextPacked(gb);
      if r.Done? {
        return;
      }
      ghost var e := RunEnd(src, Identity, next);
      ItemsStep(src, Identity, next);
      assert r.value == src[next..e];
      AppendAssoc(out, [r.value], ItemsOf(Runs(src, Identity, e)));
      next := e;
      out := out + [r.value];
    }
  }

  /** Where the runs of "aaabbbcddddaa" end. */
  lemma ExampleRunEnds()
    ensures RunEnd("aaabbbcddddaa", Identity, 0) == 3
    ensures RunEnd("aaabbbcddddaa", Identity, 3) == 6
    ensures RunEnd("aaabbbcddddaa", Identity, 6) == 7
    ensures RunEnd("aaabbbcddddaa", Identity, 7) == 11
    ensures RunEnd("aaabbbcddddaa", Identity, 11) == 13
  {
    var s := "aaabbbcddddaa";
    assert RunEnd(s, Identity, 11) == 13;
    assert RunEnd(s, Identity, 7) == 11;
    assert RunEnd(s, Identity, 6) == 7;
    assert RunEnd(s, Identity, 3) == 6;
  }

  /** `compress` of "aaabbbcddddaa", as the library's tests expect. */
  lemma CompressExample()
    ensures Keys(Runs("aaabbbcddddaa", Identity, 0)) == "abcda"
  {
    var s := "aaabbbcddddaa";
    ExampleRunEnds();
    KeysStep(s, Identity, 11);
    KeysStep(s, Identity, 7);
    KeysStep(s, Identity, 6);
    KeysStep(s, Identity, 3);
    KeysStep(s, Identity, 0);
  }

  /** `pack` of "aaabbbcddddaa", as the library's tests expect. */
  lemma PackExample()
    ensures ItemsOf(Runs("aaabbbcddddaa", Identity, 0)) == ["aaa", "bbb", "c", "dddd", "aa"]
  {
    var s := "aaabbbcddddaa";
    assert s[0..3] == "aaa";
    assert s[3..6] == "bbb";
    assert s[6..7] == "c";
    assert s[7..11] == "dddd";
    assert s[11..13] == "aa";
    ExampleRunEnds();
    ItemsStep(s, Identity, 11);
    ItemsStep(s, Identity, 7);
    ItemsStep(s, Identity, 6);
    ItemsStep(s, Identity, 3);
    ItemsStep(s, Identity, 0);
  }

}
