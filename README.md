# A verified model of pact's lazy-sequence engine

pact is a toolkit of composable operations over iterables: generators that
transform or bound a sequence (`map`, `filter`, `drop`, `take`), a bounded
source (`range`), aggregations (`reduce`, `every`, `some`), collectors into an
array, a Set, a Map or a plain object, and the composers `pipeline` and
`compose`, all in `lib/index.js`. Beside them sits a legacy promise-array
reducer, `lib/reduce.js`, whose first rejection wins.

The model has two layers.

* Pure meanings on `seq`: `MapSeq`, `FilterSeq`, `DropSeq`, `TakeSeq`,
  `FoldLeft`, `AllSatisfy`, `AnySatisfies`, `SetOf`, `PairsToMap`, `Pipeline`,
  `Compose`, with contracts and lemmas about them.
* The loops themselves, as methods over `Sources.Source`, a class standing for
  the iterator a `for ... of` loop pulls from: `Next` is its `next()`, `Close`
  its `return()` (which the loop calls when it leaves by `break` or `return`),
  `pos` counts the elements pulled. Only some iterators have a `return()`: a
  generator's finishes it, while the iterators of an Array, a Set or a Map have
  none, so leaving the loop early leaves their remaining elements in place;
  `honoursReturn` says which kind a source is. Each method is proved to yield or return
  the pure meaning of what was left in the source, and says how many elements
  it pulled and whether it closed the source. That is where `take`'s extra
  pull and the early exit of `every`/`some` are stated.

A generator is modelled by what its consumer receives when it pulls it to the
end (what `collectArray(op(...))` returns). `range` with a bound is a method
returning the integers it yields.

`lib/reduce.js` is modelled on values: every promise (the list, the initial
accumulator, each item, each callback result) is a `Result` saying how it
settles, and the reducer is a left fold of a step that hands on a rejected
accumulator untouched and otherwise calls `fn(acc, item)` with the item still
unsettled, so `fn` decides whether a rejected item rejects the step.

Modules: `Results` (Option, Result), `Sources` (the iterator), `Transforms`,
`Bounding`, `Aggregations`, `Collectors`, `Composition` (all of
`lib/index.js`) and `LegacyReduce` (`lib/reduce.js`).

Two behaviours of the code are kept as written, although a stricter
contract is easy to assume:

* `take(n, iter)` tests its counter only after pulling, so when the source has
  more than `n` elements it pulls the `(n+1)`-th one and then breaks, and the
  `break` closes the source (`Bounding.Take`). So it is not true that the
  `(n+1)`-th element is never pulled, nor that after `take(2, S)` is drained
  `S` goes on from its third element: that element is consumed, and the rest
  is finished for a generator and goes on from the fourth element for an
  iterator without `return()`.
* The legacy reducer swallows every rejection after the first, unlike the rest
  of the library, which propagates every failure.

## Model

| member | source | states |
|---|---|---|
| `Sources.Source.Next` | lib/index.js:5 | one pull: the head of the remaining elements and one more counted pull, or the end with nothing pulled |
| `Sources.Source.Close` | lib/index.js:53-55 | leaving a `for ... of` early calls `return()`: an iterator that has one (a generator) is finished and nothing remains; one without it (an Array, Set or Map iterator) is unchanged |
| `Transforms.MapSeq` | lib/index.js:4-8 | `map` yields `fn(s[i])` at every position `i`, same length and order as `s` |
| `Transforms.MapAppend` | lib/index.js:4-8 | the output for a concatenation is the outputs concatenated, so a prefix of the input gives a prefix of the output |
| `Transforms.Map` | lib/index.js:4-8 | draining `map` pulls every remaining element, does not close the source, and yields `MapSeq` of them |
| `Transforms.FilterSeq` | lib/index.js:16-22 | every element `filter` yields passes the predicate, and it yields no more than it pulls |
| `Transforms.FilterCount` | lib/index.js:16-22 | every value occurs in the output as often as in the input when it passes, and never otherwise: no passing element is omitted, nothing else appears |
| `Transforms.FilterIsSubsequence` | lib/index.js:16-22 | the output is a subsequence of the input: original order kept |
| `Transforms.FilterAppend` | lib/index.js:16-22 | filtering a concatenation filters each part |
| `Transforms.Filter` | lib/index.js:16-22 | draining `filter` pulls every remaining element, does not close the source, and yields `FilterSeq` of them |
| `Bounding.DropSeq` | lib/index.js:32-39 | `drop(n, s)` yields `s[n..]` when `n` is at most the length of `s` and nothing otherwise; a count at most 0 yields all of `s` |
| `Bounding.TakeSeq` | lib/index.js:50-59 | `take(n, s)` yields `s[..min(n, length of s)]`: more than available yields all of `s`, a count at most 0 nothing |
| `Bounding.TakeDropSplit` | lib/index.js:32-59 | `take(n, s)` followed by `drop(n, s)` is `s` |
| `Bounding.DropThenTake` | lib/index.js:32-59 | `take(m, drop(n, s))` yields positions `n` up to `n + m - 1` of `s`, nothing when `n` is at least the length of `s` |
| `Bounding.Drop` | lib/index.js:32-39 | draining `drop` pulls every remaining element, does not close the source, and yields `DropSeq` of them |
| `Bounding.Take` | lib/index.js:50-59 | draining `take` yields `TakeSeq`; when more than `n` remain it pulls `n + 1` elements and breaks, which finishes a source honouring `return()` and leaves the rest after the `(n+1)`-th element in any other; otherwise it pulls all and leaves the source open |
| `Bounding.Range` | lib/index.js:72-76 | bounded `range(from, to)` yields `from, from + 1, ..., to - 1`, nothing when `to <= from` |
| `Aggregations.FoldLeft` | lib/index.js:78-84 | the meaning of `reduce`: the left fold from `acc`, `acc` itself for no elements; its laws are FoldLeftAppend and FoldLeftSnoc, and `Aggregations.Reduce` is proved to return it |
| `Aggregations.FoldLeftAppend` | lib/index.js:78-84 | folding a concatenation folds the second part starting from the fold of the first |
| `Aggregations.FoldLeftSnoc` | lib/index.js:78-84 | one more element is one more call `fn(acc, item)` on the accumulator so far |
| `Aggregations.Reduce` | lib/index.js:78-84 | `reduce(fn, acc, iter)` pulls every remaining element and returns their left fold from `acc` (`acc` itself for none) |
| `Aggregations.AllSatisfy` | lib/index.js:94-102 | `every` is true exactly when every element passes: false exactly when some element fails, true on an empty sequence |
| `Aggregations.AnySatisfies` | lib/index.js:114-122 | `some` is true exactly when some element passes, false on an empty sequence |
| `Aggregations.FirstWith` | lib/index.js:94-122 | the position where `every`/`some` decide: every element before it does not decide, the element at it (if any) does |
| `Aggregations.Every` | lib/index.js:94-102 | `every` returns `AllSatisfy`, pulls up to and including the first failing element and no further; when it returns false it calls `return()`, which finishes a source honouring it and leaves the rest after the failing element in any other |
| `Aggregations.Some` | lib/index.js:114-122 | `some` returns `AnySatisfies`, pulls up to and including the first passing element and no further; when it returns true it calls `return()`, which finishes a source honouring it and leaves the rest after the passing element in any other |
| `Collectors.CollectArray` | lib/index.js:134 | `[...iter]` is every remaining element in order |
| `Collectors.SetOf` | lib/index.js:144-151 | the Set holds exactly the elements of the sequence, and no more of them than there are elements |
| `Collectors.CollectSet` | lib/index.js:144-151 | `collectSet` pulls every remaining element and holds `SetOf` them |
| `Collectors.PairsToMap` | lib/index.js:162-169 | every key of a pair is a key of the Map, and each entry of the Map is one of the pairs |
| `Collectors.LastPairWins` | lib/index.js:162-169 | a key's value is that of the last pair with that key |
| `Collectors.DistinctKeysAllKept` | lib/index.js:162-169 | with distinct keys every pair is an entry of the Map |
| `Collectors.CollectMap` | lib/index.js:162-169 | `collectMap` pulls every remaining pair and holds `PairsToMap` of them |
| `Collectors.CollectObject` | lib/index.js:180-187 | `collectObject` over string-keyed pairs holds the same entries as `collectMap` |
| `Composition.Apply` | lib/index.js:198-199 | the step `(acc, fn) => fn(acc)` both composers fold with; what folding it means is PipelineIsNested |
| `Composition.Pipeline` | lib/index.js:198 | `pipeline(x, ...fns)` as `reduce((acc, fn) => fn(acc), x, fns)`, `x` with no functions; equal to the nested application by PipelineIsNested |
| `Composition.Compose` | lib/index.js:199 | `compose(...fns)` as the function `x => pipeline(x, ...fns)`; equal to the nested application by ComposeIsNested |
| `Composition.PipelineIsNested` | lib/index.js:198 | `pipeline(x, f1, ..., fk)` is `fk(... f1(x))`, and `x` itself with no functions |
| `Composition.PipelineAppend` | lib/index.js:198 | a pipeline over two lists of functions is the second run on the result of the first |
| `Composition.ComposeIsNested` | lib/index.js:199 | `compose(f1, ..., fk)(x)` is `fk(... f1(x))` and equals `pipeline(x, f1, ..., fk)` |
| `Composition.ComposeAppend` | lib/index.js:199 | composing two lists back to back is applying one composition after the other |
| `Composition.PipelineFilterThenMap` | lib/index.js:198 | piping a sequence through `filter(p)` then `map(fn)` gives `map(fn, filter(p, s))` |
| `LegacyReduce.StepCalls` | lib/reduce.js:5-19 | one call of the `Array.prototype.reduce` callback: `fn` is called exactly when the accumulator is fulfilled, and a rejected accumulator is handed on unchanged; summed over the items in Calls |
| `LegacyReduce.Step` | lib/reduce.js:5-19 | the accumulator one callback call settles to: a rejected one is handed on unchanged, a fulfilled one goes to `fn`; its laws are FailureAbsorbs and FirstErrorWins |
| `LegacyReduce.StepWith` | lib/reduce.js:5-19 | the callback as the two-argument function `reduce` folds with, so that `LegacyReduce.Reduce` is `FoldLeft` of it |
| `LegacyReduce.Reduce` | lib/reduce.js:4-21 | a rejected list rejects the call with its error; an empty list returns the initial accumulator unchanged |
| `LegacyReduce.FailureAbsorbs` | lib/reduce.js:8-17 | once the accumulator is rejected, every later step returns that same rejected accumulator |
| `LegacyReduce.NoCallsAfterFailure` | lib/reduce.js:8-17 | once the accumulator is rejected, `fn` is never called again |
| `LegacyReduce.FulfilledCallsEveryItem` | lib/reduce.js:5-20 | when the result is fulfilled, `fn` was called once for each item |
| `LegacyReduce.FirstErrorWins` | lib/reduce.js:10-19 | when `fn` awaits its item, the first rejected item reached with a fulfilled accumulator is the reported error; later rejections are swallowed |
| `LegacyReduce.AnyRejectionRejects` | lib/reduce.js:19 | when `fn` awaits its item and any item is rejected, the whole call rejects |
| `LegacyReduce.NoRejectionIsFold` | lib/reduce.js:4-20 | when no item and none of the calls of `fn` the run makes rejects, the result is the left fold of the plain callback over the values from the initial accumulator |
| `LegacyReduce.FulfilledPrefix` | lib/reduce.js:5-20 | with a callback that awaits its item, the accumulator stays fulfilled before the first rejected item |
| `LegacyReduce.Awaiting` | lib/reduce.spec.js:10 | the callback `async (acc, item) => g(acc, await item)`: a rejected item rejects the step, a fulfilled one gives `g(acc, value)`; what reducing with it gives is AwaitingReduce |
| `LegacyReduce.AwaitingReduce` | lib/reduce.spec.js:6-57 | with `async (acc, item) => g(acc, await item)`: the first rejected item's error if any item is rejected, else the left fold of `g` over the values |

## Left out

- Currying: the `just-curry-it` wrapper only allows the arguments to be given in
  several calls; the model has the uncurried operators.
- The async variants (`asyncMap`, `asyncFilter`, `asyncDrop`, `asyncTake`,
  `asyncReduce`, `asyncEvery`, `asyncSome`, the async collectors): in a
  sequential model they have the same loops and the same meaning as the
  synchronous ones; promise and event-loop scheduling are not modelled.
- Laziness between stages: each generator is modelled by what its consumer
  receives when it drains it. A consumer that stops early, and the `return()`
  that then travels back through a chain of generators, is not modelled; pulls
  are counted on the operator's own source only.
- Bounding.Take: states the extra pull for a consumer that drains `take`; a
  consumer that stops after `n` elements, so that the extra pull never happens,
  is not modelled.
- Infinite `range` (no upper bound): only the bounded form is modelled.
- Bounding.Range: bounds are integers of magnitude at most 2^53 only; the
  source's bounds are JavaScript numbers, so a fractional start (`range(0.5, 3)`
  yields 0.5, 1.5, 2.5), and a loop variable `n` that leaves the exactly
  representable integers (an upper bound above 2^53, or a start below -2^53
  such as `range(-(2**53 + 4), 0)`), where `n++` rounds back to `n` and the
  same value is yielded forever, are not modelled.
- Counts that are not integers (fractions, NaN) are not modelled; counts are
  integers, and one below zero acts as zero, as the loops' comparisons do.
- Callbacks are total functions returning a boolean or a value: a callback that
  throws, JavaScript truthiness of predicate results, and a source whose pull
  throws are not modelled.
- Collectors.CollectObject: keys are strings only; the prototype-less object,
  key coercion and property order are not modelled.
- Collectors.CollectSet, Collectors.CollectMap: equality of elements and keys is
  Dafny's value equality, not JavaScript's SameValueZero (no identity of
  objects, no NaN); and a Set or Map is modelled as a Dafny `set` or `map`, so
  its insertion order (the order iteration later replays, in which a key set
  again keeps its first position) is not modelled.
- Composition.Pipeline, Composition.Compose, Composition.PipelineIsNested,
  Composition.ComposeIsNested, Composition.PipelineFilterThenMap: every stage has one type
  `T -> T`; a chain whose stages change type (a sequence in, a number out at the
  end) is not expressed.
- A plain array given to an operator is iterated through a fresh iterator on
  every loop; the model shows this as a fresh `Source` each time.
- lib/reduce.js: the `await item` in the rejected branch only silences the
  item's rejection and has no effect on the result, so it is not modelled; nor
  are unhandled-rejection reports or the order in which promises settle.
- `pipe`, `tap`, `scan`, `flatten`, `takeWhile`, `dropWhile`, `head`, `zip`,
  `concat`, `empty`, `find`, `count`, `join`: their implementations are not
  part of this model; `lib/async.js` (re-exports) and `lib/index.d.ts` (type
  declarations) hold no behaviour.
