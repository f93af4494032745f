# js-itertools in Dafny

This project models the lazy-iterator library js-itertools in Dafny and proves properties of the model. The library comes in two versions:

- `itertools.js` is the ES6 version. Its combinators are generator functions.
- `itertools-es5.js` is the older ES5 version. There, each combinator is an object whose `next` updates captured variables. `next` either returns the next value or throws the `StopIteration` sentinel.

The model follows both versions.

- **The pull protocol.** One pull gives `Yield(v)` or `Done` (the `Step` type in `pull.dfy`). `Done` stands for a finished generator, or for a thrown `StopIteration` in the ES5 version. A finite source is the `seq` of values it yields. Whether the source is finished when a consumer leaves a `for…of` early matters for `dropwhile`, `slice` and `take`; see Findings and Left out. `Head` and `Tail` describe one pull from such a sequence.
- **ES6 generators over finite sources.** These are methods that run the generator to completion with a loop. They return what it yields. Where the number of upstream pulls is observable, they return that too (`zip`, `slice`, `take`). Each method is proved equal to a specification function.
  - The infinite generators `count`, `repeat` and `weave` are modelled as bounded prefixes.
  - The ES6 `cycle` is modelled as a class.
- **Combinators that keep state.** These are classes whose methods update fields as the source does:
  - `cycle` keeps a `saved` buffer.
  - `tee` keeps one queue per branch.
  - `groupBy` keeps a shared cursor.
  - The combinatorial generators keep a shared `result` buffer, and `permutations` keeps the `indices`/`cycles` arrays.
- **ES5 iterators.** Each is a class with a `Next` method. Its ghost `Remaining()` is the sequence of values still to come, and every `Next` is proved to return `Head(old(Remaining()))` and leave `Tail(old(Remaining()))`.
  - A driver method builds each iterator and drains it the way `toArray` does.
  - Each driver is proved equal to a specification function.
  - ES5 arrays may have holes. An array is a `seq<Option<T>>`, with `None` for a deleted element.

Callbacks (predicates, mapping and key functions) are total Dafny functions.

The code differs in places from what its comments, its tests or the other version suggest. The model follows the code:

- **`chain` (ES6).** `chain` loops one index past its last argument (itertools.js:17). After the last value, the final pull fails with a TypeError instead of finishing. This is recorded under Findings.
- **Zero step.** In the ES5 `range`, a missing or zero step is replaced by 1 (`arguments[2] || 1`, itertools-es5.js:412). A zero step is therefore never rejected, and the check at lines 415-417 cannot fire. The same holds for the ES5 `slice`, which builds its targets with that `range`.
- **ES5 `slice` stopping rule.** The ES5 `slice` stops once its counter reaches `stop - 1`. The ES6 `slice` instead counts through the whole source.
  - With a positive step, the two select the same positions (`Es5Slicing.SlicePositive`).
  - With a negative step and a non-negative stop, the ES5 version selects nothing. `Es5Slicing.SliceNegative` proves this for slicing 3 values with start 2, stop 0, step -1: the ES6 generator gives the value at position 2, the ES5 iterator nothing.
- **Empty ES5 slice.** The ES5 `slice` pulls its first target while it is being built. An empty target range, such as `take(arr, 0)`, therefore throws at once. This is modelled as `None`.
- **ES5 `zip`.** The ES5 `zip` has no stopping rule of its own. A pull that reaches an exhausted argument throws out of the middle of the row, and the arguments before it have each lost a value.

## Model

| member | source | states |
|---|---|---|
| Pull.ConcatAppend | itertools.js:16-22 | concatenating one more input appends its values at the end |
| Pull.ConcatSplit | itertools.js:16-22 | concatenation distributes over splitting the list of inputs |
| Pull.ConcatLength | itertools.js:491-497 | the concatenation is as long as all inputs together |
| Combinators.ChainAsWritten | itertools.js:16-22 | as written, `chain` yields every input in order and then ends with a TypeError, reading one index past the last input |
| Combinators.Chain | itertools.js:16-22 | with the loop bound corrected, `chain` yields the concatenation of its inputs and then finishes |
| Combinators.Flatten | itertools.js:491-497 | `flatten` yields the concatenation of the inner sequences, as many values as they hold together |
| Combinators.Map | itertools.js:104-109 | `map` yields `func(x)` for each source value, one per value, in order |
| Combinators.Starmap | itertools.js:116-121 | `starmap` yields `func(...x)` for each source tuple, in order |
| Combinators.FilteredMembers | itertools.js:79-85 | a value is in the filtered sequence exactly when it is in the source and passes the predicate |
| Combinators.FilterPartition | itertools.js:79-98 | `filter` and `filterfalse` with the same predicate split the source: together they hold every source value once |
| Combinators.Filter | itertools.js:79-85 | `filter` yields exactly the source values that pass, in source order |
| Combinators.FilterFalse | itertools.js:91-98 | `filterfalse` yields exactly the source values that fail, in source order |
| Combinators.LeadingRun | itertools.js:55-66 | the length of the leading run of passing values: every value before it passes and the value at it, if any, fails |
| Combinators.DropWhile | itertools.js:51-66 | over a source that stays open after the first loop's `break` (an array or string iterator), `dropwhile` yields the source from the first failing value on, as its comment promises |
| Combinators.FirstFailing | itertools.js:58-66 | what `dropwhile` yields over a source that its `break` finishes: at most one value, none exactly when every value passes, otherwise the first failing one |
| Combinators.DropWhileAsWritten | itertools.js:55-66 | `dropwhile` as written: the rest of the source when the `break` leaves it open, only the first failing value when the `break` finishes it (a generator) |
| Combinators.ClosedDropLoses | itertools.js:58-66 | a finished source loses values exactly when more than one value is left from the first failing one on |
| Combinators.DropWhileRangeExample | itertools.js:51-66 | `dropwhile(range(0, 10), x => x < 5)` yields only 5 as written, where 5, 6, 7, 8, 9 is meant |
| Combinators.TakeWhile | itertools.js:246-255 | `takewhile` yields the leading run of passing values and returns at the first failing one |
| Combinators.TakeDropSplit | itertools.js:55-66 | running `takewhile` and `dropwhile` with one predicate on one source: their outputs concatenate to the source, every value of the first passes, and the second is empty or starts with a failing value |
| Combinators.Zip | itertools.js:315-327 | `zip` yields the pairs `(a[k], b[k])` up to the shorter input; each input is pulled once more than the number of pairs unless it is exhausted first |
| Combinators.Enumerate | itertools.js:71-73 | `enumerate` pairs each source value with its position, starting at 0 |
| Combinators.CountPrefix | itertools.js:27-31 | the k-th value of `count(start, step)` is `start + k * step` |
| Combinators.RepeatPrefix | itertools.js:443-452 | `repeat(x, stop)` yields `x` `stop` times when stop is positive and forever otherwise |
| Combinators.WeavePrefix | itertools.js:381-386 | the k-th value of `weave` is the next value of source `k mod n` |
| Combinators.Matched | itertools.js:297-309 | the target positions met while counting the source are positions of the source, at most as many as the targets |
| Combinators.MatchedPrefix | itertools.js:297-309 | the positions met are a prefix of the target stream and strictly increase |
| Combinators.Targets | itertools.js:297-304 | the targets `slice` reads: `range(start, stop, step)`, or with step 0 the value `start` on both pulls `slice` can make |
| Combinators.Slice | itertools.js:284-310 | `slice(src, start, stop, step)` yields the source values at the target positions that it reaches, in order, and stops pulling right after the last of them; with step 0 it yields the value at `start`, if any, and drains the source |
| Combinators.SliceTargets | itertools.js:297-309 | the loop of `slice` over a target stream: the values at the targets met, and how many source values it pulled |
| Combinators.MatchedRegular | itertools.js:297-309 | with a positive step the positions met are `range(start, min(stop, n), step)` |
| Combinators.Take | itertools.js:332-334 | `take(src, n)` yields the first `min(n, len)` (len: the source's length) values, nothing when n is not positive |
| Ranges.RangeTo | itertools.js:264-268 | one-argument `range(end)` yields exactly the integers `0, 1, …, end - 1`, nothing when end is not positive |
| Ranges.RangeEmpty | itertools.js:269-275 | the range is empty exactly when `step > 0 && start >= end` or `step < 0 && start <= end` |
| Ranges.RangeAt | itertools.js:264-279 | value k of the range is `start + k * step` |
| Ranges.RangeBounds | itertools.js:264-279 | every value lies strictly before `end` in the step's direction, and one more step would reach or pass `end` |
| Ranges.RangeValues | itertools.js:264-279 | the values, their bound and where the range stops, together |
| Ranges.RangeLengthFormula | itertools.js:264-279 | the number of values is the ceiling of `(end - start) / step` when positive, 0 otherwise |
| Ranges.RangeMembers | itertools.js:264-279 | x is in the range exactly when it is `start + k * step` for some k and lies before `end` |
| Ranges.RangeMonotone | itertools.js:264-279 | the values strictly increase with a positive step and strictly decrease with a negative one |
| Ranges.RangeTail | itertools.js:277-278 | a non-empty range is `start` followed by the range from `start + step` |
| Ranges.RangeExamples | itertools.test.js:91-111 | `range(0, 5)` and `range(5, 0, -1)` give the listed values |
| Cycling.Cycle.constructor | itertools.js:38-39 | a new `cycle` has emitted nothing and saved nothing |
| Cycling.Cycle.Next | itertools.js:38-49 | the k-th pull gives `src[k mod len]` (len: the source's length); the first len pulls come from the source and are saved, after which `saved` equals the source |
| Cycling.CyclePrefix | itertools.js:38-49 | the first `limit` values of `cycle(src)` are `src[k mod len]` (len: the source's length), and the first len of them are the source itself |
| Teeing.TeeBuffer.constructor | itertools.js:457-463 | `tee(src, n)` starts with n empty queues and nothing pulled |
| Teeing.TeeBuffer.Pull | itertools.js:465-478 | a pull on branch b gives the source value at that branch's own count, or Done once it has had them all; the upstream is pulled only when b's queue is empty (also itertools-es5.js:674-686) |
| Teeing.TeeRun | itertools.js:457-486 | under any schedule of pulls on the branches, each branch has received exactly the first values of the source, one per pull (also itertools-es5.js:664-694) |
| Grouping.RunEnd | itertools.js:407-414 | the end of the run starting at i: after i, and the key changes there unless the source ends |
| Grouping.RunKeys | itertools.js:396-405 | every value in a run has the run's key |
| Grouping.Keys | itertools.js:423-428 | the keys of the groups, one per group, in order |
| Grouping.ItemsOf | itertools.js:433-438 | the values of the groups, one sequence per group, in order |
| Grouping.RunsFlatten | itertools.js:391-418 | the groups' values concatenate back to the source |
| Grouping.RunsShape | itertools.js:391-418 | every group is non-empty, all its values have its key, and neighbouring groups have different keys |
| Grouping.GroupBy.constructor | itertools.js:391-394 | `groupBy` starts with no group emitted |
| Grouping.GroupBy.SkipRun | itertools.js:407-414 | the outer loop skips the rest of the current run and stops at the first value with a new key, or at the end of the source |
| Grouping.GroupBy.NextGroup | itertools.js:407-417 | each outer pull gives the key of the next maximal run, whether or not the previous group was drained, then Done at the end |
| Grouping.GroupBy.NextInGroup | itertools.js:396-405 | each pull on the current group gives the next value of its run, then Done at the run's end |
| Grouping.DrainGroup | itertools.js:396-405 | draining a fresh group gives exactly its run |
| Grouping.NextPacked | itertools.js:433-437 | one pull of `pack`: the next run's values |
| Grouping.Compress | itertools.js:423-428 | `compress` yields the run keys, consecutive duplicates collapsed |
| Grouping.Pack | itertools.js:433-438 | `pack` yields the runs of equal values, in order |
| Grouping.ExampleRunEnds | itertools.test.js:157-188 | the run ends of `"aaabbbcddddaa"` |
| Grouping.CompressExample | itertools.test.js:157-188 | `compress("aaabbbcddddaa")` gives `a b c d a` |
| Grouping.PackExample | itertools.test.js:157-188 | `pack("aaabbbcddddaa")` gives the five runs |
| Tuples.Select | itertools.js:516-518 | reading the pool at a list of positions |
| Tuples.PrefixedAt | itertools.js:564-566 | every tuple yielded under a fixed prefix of `result` begins with that prefix |
| Tuples.PrefixedAppend | itertools.js:564-566 | yielding the branches of a loop one after the other keeps them in order |
| Tuples.PrefixedMember | itertools.js:564-566 | a tuple with the prefix is yielded exactly when its remainder is |
| Tuples.SelectIota | itertools.js:514-518 | reading the pool at `0..n-1` gives the pool |
| Permuting.FallingFact | itertools.js:505-546 | the number of permutations `n!/(n-r)!` times `(n-r)!` is `n!` |
| Permuting.DecPerm | itertools.js:514-535 | the `indices` array stays a permutation of the positions |
| Permuting.DigitsRoundTrip | itertools.js:520-545 | the state of the `cycles` countdown is recovered from its step number |
| Permuting.ToDigitsValue | itertools.js:520-545 | every step number below `n!/(n-r)!` is reached by one countdown state |
| Permuting.SwapStep | itertools.js:530-536 | a countdown that stays positive swaps `indices[i]` with `indices[n - cycles[i]]` and moves to the next permutation |
| Permuting.RotateStep | itertools.js:524-529 | a countdown that reaches 0 rotates `indices[i..]` left by one and resets it |
| Permuting.DecDistinct | itertools.js:514-536 | the positions in `indices` are distinct |
| Permuting.PermIndexDistinct | itertools.js:518-536 | each yielded tuple reads r distinct positions |
| Permuting.PermIndexInjective | itertools.js:518-536 | different steps read different position tuples |
| Permuting.PermIndexFirst | itertools.js:518 | the first tuple reads positions `0..r-1` |
| Permuting.OdometerBounds | itertools.js:514-535 | `indices` is a permutation of `0..n-1` and `cycles[i]` stays in `1..n-i` |
| Permuting.StartRanges | itertools.js:514-515 | `Array.from(range(0, n))` is the positions `0..n-1` and `Array.from(range(n, n - r, -1))` is `n, n-1, …, n-r+1`, the arrays the set-up builds |
| Permuting.Start | itertools.js:514-515 | `indices` starts as `0..n-1` and `cycles` as `n, n-1, …` |
| Permuting.RollOver | itertools.js:524-529 | the rotate branch keeps the state invariant and resets the countdown |
| Permuting.StepUp | itertools.js:531-535 | the swap branch keeps the state invariant and advances the step number by one |
| Permuting.ScanStep | itertools.js:522-539 | one turn of the scan either advances the step number or rolls position i over |
| Permuting.Advance | itertools.js:520-545 | a scan finds the next permutation, or, with `cleanExit`, reports that the last one was yielded |
| Permuting.PermsPrefixAt | itertools.js:518-536 | yield k reads the pool at the k-th position tuple |
| Permuting.PermsPrefixDistinct | itertools.js:505-546 | over a pool of distinct values all yielded tuples are distinct |
| Permuting.Permutations | itertools.js:505-546 | nothing when r > n; otherwise exactly `n!/(n-r)!` tuples, in the order of the algorithm |
| Combining.BinomAbove | itertools.js:553-555 | there are no r-combinations when r exceeds the pool |
| Combining.ChooseCount | itertools.js:548-571 | `combinations` yields C(n, r) tuples |
| Combining.ChooseRepCount | itertools.js:573-591 | `combinationsWithReplacement` yields C(n+r-1, r) tuples, and one empty tuple from an empty pool when r is 0 |
| Combining.ChooseItems | itertools.js:559-568 | each combination has r elements of the pool |
| Combining.ChooseRepItems | itertools.js:578-588 | each combination with replacement has r elements of the pool |
| Combining.ChooseIncreasing | itertools.js:564-566 | positions in a combination strictly increase |
| Combining.ChooseComplete | itertools.js:559-568 | every strictly increasing r-tuple of positions is yielded |
| Combining.ChooseRepNonDecreasing | itertools.js:583-586 | positions in a combination with replacement never decrease |
| Combining.ChooseRepComplete | itertools.js:578-588 | every non-decreasing r-tuple of positions is yielded |
| Combining.ChooseSorted | itertools.js:559-568 | combinations come in lexicographic order of positions |
| Combining.ChooseRepSorted | itertools.js:578-588 | combinations with replacement come in lexicographic order of positions |
| Combining.ChooseSelect | itertools.js:559-568 | combinations of the pool are the pool read at the combinations of positions |
| Combining.ChoosePositions | itertools.js:548-571 | the combinations are the pool read at sorted strictly increasing position tuples |
| Combining.ChooseIndexMember | itertools.js:548-571 | a tuple of positions is yielded exactly when it has r strictly increasing positions below n |
| Combining.ChooseRepPositions | itertools.js:573-591 | the combinations with replacement are the pool read at sorted non-decreasing position tuples |
| Combining.ChooseRepIndexMember | itertools.js:573-591 | a tuple of positions is yielded exactly when it has r non-decreasing positions below n |
| Combining.Buffer.constructor | itertools.js:557 | `result` starts empty |
| Combining.Buffer.Store | itertools.js:565 | `result[idx] = v` overwrites position idx, or appends when idx is the length |
| Combining.Buffer.Push | itertools.js:584 | `push` appends one value |
| Combining.Buffer.Pop | itertools.js:586 | `pop` removes the last value |
| Combining.Gen | itertools.js:559-568 | `gen(idx, start)` yields every completion of `result[..idx]` from pool positions at or after `start`, leaving the prefix as it found it |
| Combining.Combinations | itertools.js:548-571 | `combinations(pool, r)` gives no iterator when r exceeds the pool, otherwise every combination in order |
| Combining.GenRep | itertools.js:578-588 | `gen(pos)` yields every non-decreasing completion of `result` from position `pos` on and restores `result` |
| Combining.CombinationsWithReplacement | itertools.js:573-591 | `combinationsWithReplacement(pool, r)` yields every combination with replacement in order |
| Producting.BranchesCount | itertools.js:603-606 | the loop over one pool yields that pool's size times the tuples of the rest |
| Producting.ProductCount | itertools.js:593-610 | `product` yields as many tuples as the product of the pool sizes |
| Producting.ProductOfEmpty | itertools.js:593-610 | any empty pool gives no tuples |
| Producting.ProductAt | itertools.js:598-607 | the tuple at `i * (count of the rest) + j` is `pools[0][i]` followed by tuple j of the rest, so the rightmost pool varies fastest |
| Producting.ProductItems | itertools.js:598-607 | each tuple takes element k from pool k |
| Producting.ProductComplete | itertools.js:598-607 | every tuple with one element from each pool is yielded |
| Producting.Gen | itertools.js:598-607 | `gen(idx)` yields every completion of `res[..idx]` from the pools at or after idx, leaving the prefix as it found it |
| Producting.ProductOf | itertools.js:593-610 | `product(...pools)` yields the cartesian product, one empty tuple for no pools |
| Es5Iterators.PresentMember | itertools-es5.js:59-74 | the array iterator yields a value exactly when the array holds it |
| Es5Iterators.PresentLength | itertools-es5.js:66-70 | holes only shorten what is yielded; an array without holes yields all of it |
| Es5Iterators.PresentDense | itertools-es5.js:530-545 | iterating an array produced by `toArray` gives the drained values back |
| Es5Iterators.ArrayIterator.constructor | itertools-es5.js:58-60 | `toIterator(array)` starts at index 0 |
| Es5Iterators.ArrayIterator.Next | itertools-es5.js:61-73 | each pull skips holes and gives the next present element, and throws `StopIteration` on every pull past the end |
| Es5Iterators.Drain | itertools-es5.js:534-543 | pulling until `StopIteration` collects every value still to come, in pull order |
| Es5Iterators.ToArray | itertools-es5.js:530-545 | an array comes back unchanged; an iterator is drained into a fresh array without holes |
| Es5Iterators.Values | itertools-es5.js:530-545 | `toArray(toIterator(arr))` is the array's elements with the holes closed up |
| Es5Iterators.ReversedAt | itertools-es5.js:747-753 | element k of the reversed list is element `n - 1 - k` of the list |
| Es5Iterators.ReversedTwice | itertools-es5.js:747-753 | reversing twice gives the list back |
| Es5Iterators.Reverse | itertools-es5.js:747-753 | the `reverse` loop pushes the list from its last index down, giving the reversed list |
| Es5Chaining.FollowingConcat | itertools-es5.js:90-113 | what the arguments from k on still give is the concatenation of their present values |
| Es5Chaining.ChainIterator.constructor | itertools-es5.js:90-95 | a new `chain` is positioned on its first argument, with all values still to come |
| Es5Chaining.ChainIterator.Next | itertools-es5.js:96-111 | each pull gives the next value of the concatenation; it moves to the next argument only when the current one throws `StopIteration`, and throws it itself after the last argument |
| Es5Chaining.ChainIterator.Attempt | itertools-es5.js:97-109 | one turn of `next`: a value of the current argument, the final `StopIteration`, or a move to the next argument |
| Es5Chaining.ChainAll | itertools-es5.js:90-113 | draining `chain(args...)` gives the concatenation of the arguments' values |
| Es5Chaining.ChainDense | itertools-es5.js:90-113 | for arguments without holes, this is the plain concatenation of the arguments |
| Es5Cycling.CycleIterator.constructor | itertools-es5.js:141-149 | a new `cycle` has an empty cache, index 0 and reads from the source |
| Es5Cycling.CycleIterator.Next | itertools-es5.js:151-171 | the k-th pull gives `A[k mod len]` (len: the length of A), and `cacheIndex` stays below `cache.length`; on an empty source every pull throws `StopIteration` |
| Es5Cycling.CycleValues | itertools-es5.js:141-173 | the first `limit` values of `cycle(arr)` are `A[k mod len]` for the array's values A of length len, or nothing when A is empty |
| Es5Ranging.CoerceStep | itertools-es5.js:409-417 | the `arguments[2] or 1` default: a missing or zero step becomes 1, any other step is kept, so the zero-step error is never raised |
| Es5Ranging.RangeIterator.constructor | itertools-es5.js:409-413 | two or three arguments: `min`, `max` and the coerced step |
| Es5Ranging.RangeIterator.UpTo | itertools-es5.js:405-408 | one argument: from 0 to `max` by 1 |
| Es5Ranging.RangeIterator.Next | itertools-es5.js:420-428 | each pull gives `min` and moves it by `step`, and throws `StopIteration` once `min` has reached `max` in the direction of the step |
| Es5Ranging.RangeAll | itertools-es5.js:403-430 | draining `range(min, max, step)` gives `min, min+step, …` before `max`, by 1 when the step is missing or zero |
| Es5Slicing.Reach | itertools-es5.js:456-458 | the counter stops at `stop - 1`, which it meets only when stop is not negative |
| Es5Slicing.SliceIterator.constructor | itertools-es5.js:450-453 | the slice starts with the first target already pulled and the count at -1 |
| Es5Slicing.SliceIterator.Next | itertools-es5.js:454-473 | each pull gives the next source value whose position is a target met before the stop, pulling and discarding the others |
| Es5Slicing.SliceIterator.Attempt | itertools-es5.js:455-471 | one turn of the loop: `StopIteration` at the stop, the value at the current target, or one discarded value |
| Es5Slicing.SliceIterator.Hit | itertools-es5.js:461-469 | at a target the next target is pulled, its `StopIteration` swallowed, and the source value returned |
| Es5Slicing.SliceIterator.Drain | itertools-es5.js:534-543 | `toArray` on the slice gives every value still to come |
| Es5Slicing.HitStep | itertools-es5.js:461-469 | the selection and the source move on together at a target |
| Es5Slicing.SliceValues | itertools-es5.js:435-475 | `slice(arr, start, stop, step)` throws at construction exactly when the target range is empty; otherwise it gives the values at the target positions met before the counter reaches `stop - 1` |
| Es5Slicing.SlicePositive | itertools-es5.js:456-458 | with a positive step the ES5 slice selects the same positions as the ES6 generator |
| Es5Slicing.SliceNegative | itertools-es5.js:456-458 | with step -1, start 2 and stop 0 the ES5 slice of three values selects nothing where the ES6 one selects position 2 |
| Es5Slicing.TakeValues | itertools-es5.js:498-500 | `take(arr, n)` throws when n is not positive and otherwise gives the first `min(n, len)` values of the array (len: how many it holds) |
| Es5Filtering.TakeWhileIterator.constructor | itertools-es5.js:379-382 | `takewhile` starts with `taking` on |
| Es5Filtering.TakeWhileIterator.Next | itertools-es5.js:383-396 | each pull gives the next value of the leading run; once a value fails, `taking` stays off and every later pull throws `StopIteration` without touching the source |
| Es5Filtering.TakeWhileAll | itertools-es5.js:379-398 | draining `takewhile` gives the leading run of passing values |
| Es5Filtering.DropWhileIterator.constructor | itertools-es5.js:179-182 | `dropwhile` starts with `dropping` on |
| Es5Filtering.DropWhileIterator.Next | itertools-es5.js:183-193 | passing values are skipped while dropping; the first failing value is returned and turns `dropping` off for good, after which every value is returned |
| Es5Filtering.DropWhileAll | itertools-es5.js:179-195 | draining `dropwhile` gives the source from the first failing value on |
| Es5Zipping.FirstEnded | itertools-es5.js:487-489 | the first argument the pull finds exhausted, or none |
| Es5Zipping.ZipIterator.constructor | itertools-es5.js:480-484 | `zip` holds one iterator per argument |
| Es5Zipping.ZipIterator.Next | itertools-es5.js:485-491 | a pull gives the array of every argument's next value, or throws at the first exhausted argument after the ones before it have each lost a value |
| Es5Zipping.FirstEndedAt | itertools-es5.js:487-489 | the pull stops at the first exhausted argument |
| Es5Zipping.ZipValues | itertools-es5.js:480-493 | the first pulls of `zip` give row j of the arguments' values, as many rows as the shortest argument has values |
| Es5Zipping.ZipEnds | itertools-es5.js:487-489 | a pull that throws means some argument has no more values than rows returned |
| Es5Zipping.ZipStep | itertools-es5.js:487-490 | a pull that reaches no exhausted argument gives row j and moves every argument on by one |

## Left out

- The module export and the `Symbol.iterator` plumbing (`iter`, `isIterable`, itertools.js:3-9; itertools-es5.js:1-29) are left out. So are the identity of the `StopIteration` sentinel and the `__iterator__` and `Iterator` branches of `toIterator` (itertools-es5.js:52-57). A non-array iterable given to `toIterator` (lines 75-82) is left out too.
- Errors other than exhaustion are not modelled, including errors raised by callbacks. The rethrow branches are therefore absent, for example in `chain`, `slice` and `toArray`. Callbacks are total functions, and `opt_obj` (the `this` passed to ES5 callbacks) is not modelled.
- The upstream of every ES5 iterator is an array iterator (`toIterator` of an array). Iterators of other kinds are left out.
- Es5Zipping.ZipIterator.Next: each argument is the sequence of values its iterator still has to give. The same iterator passed twice (aliasing) is not modelled.
- Es5Iterators.ToArray: only an array iterator is drained; other iterators are not modelled.
- Es5Chaining.ChainIterator.constructor: with no arguments, `chain` calls `toIterator(undefined)`, which is a TypeError. The constructor therefore requires at least one argument.
- Es5Slicing.SliceValues: this is the four-argument form. The two-argument form is `Es5Slicing.TakeValues`. The three-argument form is this one with step 1.
- Ranges.Range requires a non-zero step. The ES6 `range` with step 0 yields `start` forever, and this is not modelled as a range. `slice` pulls at most two of its values, and `Combinators.Targets` models exactly those.
- Numbers are integers. The source takes JS numbers, so fractional starts, steps and stops (`range(0, 1, 0.25)`, `count(0, 0.5)`) and the loss of precision above 2^53 are not modelled. This applies to `range`, `count`, `repeat`, `slice`, `take` and the ES5 `range`, `slice` and `take`.
- `count`, `repeat` and `weave` are infinite (or, for `repeat` with `stop <= 0`, unbounded). They are modelled only as bounded prefixes (`CountPrefix`, `RepeatPrefix`, `WeavePrefix`), and `weave`'s sources as functions from position to value.
- Cycling.Cycle.constructor requires a non-empty source. The ES6 `cycle` of an empty source spins forever (itertools.js:44-48).
- Grouping.GroupBy.NextInGroup models only the current group. A retained stale subgroup that resumes when its key recurs is not modelled (itertools.js:397). A key equal to the initial `undefined` is a JS artefact: keys are an `Option` here.
- Grouping.Pack: the subgroups yield iterator records, which `pack` unwraps with `.value` (itertools.js:436). The model yields the values directly.
- The ES5 `groupBy`, `compress` and `pack` are not modelled: the ES5 grouper loses each group's last value when the source ends.
- The ES5 folds and `last` iterate with `for…in` over index strings, so they are not modelled. Neither are the ES5 `flatten`, `forEach`, `repeat`, `weave`, `join`, `count`, `enumerate`, `filter`, `filterfalse`, `map`, `takenth` and `first`. The commented-out code is also left out.
- Permuting.Permutations takes r as an explicit natural number. With the default `r = null`, the source acts as if r were 0. The test at itertools.test.js:224-228 expects 120 results for `permutations(range(1, 6), 2)`, but the algorithm yields 5!/3! = 20.
- Combining.Combinations takes r explicitly. With r omitted, the default `null` makes the depth 0, so the source yields one empty tuple. When r exceeds the pool, the source returns `undefined` instead of an iterator, which is `None` here.
- Combining.CombinationsWithReplacement takes r explicitly. With r omitted, `gen` never reaches its base case.
- Producting.ProductOf takes every argument as a finite sequence. Non-iterable arguments, which `product` passes through unchanged, are not modelled.
- Combining.Gen, Combining.Place, Combining.GenRep, Combining.PlaceRep and Producting.Place are one recursive generator split into a loop method and a helper for its body. The result buffer's contents outside the current prefix are not stated.
- Es5Chaining.ChainIterator.Attempt and Es5Slicing.SliceIterator.Attempt are one turn of a `next` that retries, split out of the loop in `Next`.
- Combinators.DropWhile models a source that the `break` at itertools.js:60 leaves open: an array or string iterator, which has no `return()`. A generator source is finished by that `break`; `Combinators.DropWhileAsWritten` models both kinds, and Findings records the difference.
- Combinators.Slice and Combinators.Take count the values pulled as if the source stayed open afterwards. The `return` at itertools.js:305 leaves the `for…of`, which also finishes a generator source, so a later pull of the same generator gets nothing. This is not modelled.
- Grouping.RunEnd, Grouping.GroupBy, Grouping.Compress and Grouping.Pack compare keys with Dafny's `==`, which is equality of values. The source compares them with `===` (itertools.js:397, 408). Objects and arrays are then equal only when they are the same object, so `pack([[1], [1]])` gives two groups; keys are not modelled as references, so this is not captured. `NaN` is not `===` to itself, so once the outer loop reaches a `NaN` key it yields `[NaN, group]` forever without pulling again. Sources with `NaN` keys are not modelled.
- The generators are run to completion and the yielded values collected. Laziness, that is interleaving with other code between pulls, is captured only for the class-based models.

## Findings

| source | as written | input that shows it | evidently intended | confidence | as-written member | corrected member |
|---|---|---|---|---|---|---|
| itertools.js:17 | the loop runs `i <= iters.length`, so after the last input it reads `iters[iters.length]` (undefined) and `for…of` throws a TypeError | `chain([1], [2])` yields 1 and 2 and then throws instead of finishing | `i < iters.length`: finish after the last input | not executed | Combinators.ChainAsWritten | Combinators.Chain |
| itertools.js:60 | the first loop leaves its `for…of` with `break`, which calls the source's `return()`; a generator source is finished by it, so the second loop at 63-65 yields nothing | `dropwhile(range(0, 10), x => x < 5)` yields only 5 (`Combinators.DropWhileRangeExample`) | every value from the first failing one on, 5 to 9, as the comment at 51-54 says | not executed | Combinators.DropWhileAsWritten | Combinators.DropWhile |
