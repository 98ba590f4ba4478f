/** The composers of lib/index.js. Both are a `reduce` over the list of
    functions with the step `(acc, fn) => fn(acc)`. */
module Composition {
  import opened Aggregations
  import opened Transforms

  /** The step that `pipeline` and `compose` fold with: apply the next function. */
  function Apply<T>(acc: T, fn: T -> T): (r: T)
  {
    fn(acc)
  }

  /** The chain written out: `fk(... f2(f1(x)))` for `fns == [f1, ..., fk]`. */
  function Nested<T>(x: T, fns: seq<T -> T>): (r: T)
    decreases |fns|
  {
    if fns == [] then x else fns[|fns| - 1](Nested(x, fns[..|fns| - 1]))
  }

  /** `pipeline(acc, ...fns)`. */
  function Pipeline<T>(x: T, fns: seq<T -> T>): (r: T)
    ensures fns == [] ==> r == x
  {
    FoldLeft(Apply, x, fns)
  }

  /** `pipeline` applies the functions left to right; with none it is `x`. */
  lemma {:induction false} PipelineIsNested<T>(x: T, fns: seq<T -> T>)
    ensures Pipeline(x, fns) == Nested(x, fns)
    decreases |fns|
  {
    if fns != [] {
      var init := fns[..|fns| - 1];
      PipelineIsNested(x, init);
      assert fns == init + [fns[|fns| - 1]];
      FoldLeftSnoc(Apply, x, init, fns[|fns| - 1]);
    }
  }

  /** Splitting the list of functions splits the pipeline. */
  lemma PipelineAppend<T>(x: T, f: seq<T -> T>, g: seq<T -> T>)
    ensures Pipeline(x, f + g) == Pipeline(Pipeline(x, f), g)
  {
    FoldLeftAppend(Apply, x, f, g);
  }

  /** `compose(...fns)`: a function that threads its argument through `fns`. */
  function Compose<T>(fns: seq<T -> T>): (g: T -> T)
  {
    x => Pipeline(x, fns)
  }

  /** Applying a composition applies its functions left to right, as
      `pipeline` over the same functions does. */
  lemma ComposeIsNested<T>(fns: seq<T -> T>, x: T)
    ensures Compose(fns)(x) == Nested(x, fns) == Pipeline(x, fns)
  {
    PipelineIsNested(x, fns);
  }

  /** Composing two lists of functions back to back is composing their
      compositions. */
  lemma ComposeAppend<T>(f: seq<T -> T>, g: seq<T -> T>, x: T)
    ensures Compose(f + g)(x) == Compose(g)(Compose(f)(x))
  {
    PipelineAppend(x, f, g);
  }

  /** Piping a sequence through `filter(p)` then `map(fn)` yields what the two
      calls nested by hand yield. */
  lemma PipelineFilterThenMap<T>(s: seq<T>, p: T -> bool, f: T -> T)
    ensures Pipeline(s, [(t: seq<T>) => FilterSeq(p, t), (t: seq<T>) => MapSeq(f, t)])
         == MapSeq(f, FilterSeq(p, s))
  {
    var stages := [(t: seq<T>) => FilterSeq(p, t), (t: seq<T>) => MapSeq(f, t)];
    PipelineIsNested(s, stages);
    assert stages[..1][..0] == [];
  }
}
