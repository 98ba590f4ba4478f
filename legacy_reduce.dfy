/** The legacy reducer of lib/reduce.js: `Array.prototype.reduce` over a list
    of promises, with an asynchronous callback. Each promise is modelled by how
    it settles (`Success` or `Failure`), and so are the accumulator and the
    awaited list itself. The callback receives the fulfilled accumulator and
    the item still wrapped, so `fn` decides whether it awaits (and so
    propagates) a rejected item. Once the accumulator is rejected, each later
    step awaits the item only to silence its rejection and hands on the same
    rejected accumulator: the first rejection wins. */
module LegacyReduce {
  import opened Results
  import Aggregations

  /** One call of the callback given to `Array.prototype.reduce`, paired with
      the number of times it calls `fn`: none when it hands on a rejected
      accumulator, once otherwise. */
  function StepCalls<A, B, E>(fn: (B, Result<A, E>) -> Result<B, E>, acc: Result<B, E>, item: Result<A, E>): (r: (Result<B, E>, nat))
    ensures r.1 <= 1
    ensures r.1 == 0 <==> acc.Failure?
    ensures acc.Failure? ==> r.0 == acc
  {
    if acc.Failure? then (acc, 0) else (fn(acc.value, item), 1)
  }

  /** The accumulator that one call of the callback settles to. */
  function Step<A, B, E>(fn: (B, Result<A, E>) -> Result<B, E>, acc: Result<B, E>, item: Result<A, E>): (r: Result<B, E>)
    ensures acc.Failure? ==> r == acc
    ensures acc.Success? ==> r == fn(acc.value, item)
  {
    StepCalls(fn, acc, item).0
  }

  /** The callback as the two-argument function that `reduce` folds with. */
  function StepWith<A, B, E>(fn: (B, Result<A, E>) -> Result<B, E>): (step: (Result<B, E>, Result<A, E>) -> Result<B, E>)
  {
    (acc, item) => Step(fn, acc, item)
  }

  /** `reduce(fn, acc, doc)`: a rejected `doc` rejects the call; otherwise the
      left fold of `Step` over the items, starting from `acc`. */
  function Reduce<A, B, E>(fn: (B, Result<A, E>) -> Result<B, E>, acc: Result<B, E>, doc: Result<seq<Result<A, E>>, E>): (r: Result<B, E>)
    ensures doc.Failure? ==> r == Failure(doc.error)
    ensures doc == Success([]) ==> r == acc
  {
    match doc
    case Failure(e) => Failure(e)
    case Success(items) => Aggregations.FoldLeft(StepWith(fn), acc, items)
  }

  /** The number of times `fn` is called while folding `items` from `acc`. */
  function Calls<A, B, E>(fn: (B, Result<A, E>) -> Result<B, E>, acc: Result<B, E>, items: seq<Result<A, E>>): (n: nat)
    decreases |items|
  {
    if items == [] then 0
    else
      var (next, calls) := StepCalls(fn, acc, items[0]);
      calls + Calls(fn, next, items[1..])
  }

  /** A rejected accumulator is handed on unchanged to the end. */
  lemma {:induction false} FailureAbsorbs<A, B, E>(fn: (B, Result<A, E>) -> Result<B, E>, e: E, items: seq<Result<A, E>>)
    ensures Aggregations.FoldLeft(StepWith(fn), Failure(e), items) == Failure(e)
    decreases |items|
  {
    if items != [] {
      FailureAbsorbs(fn, e, items[1..]);
    }
  }

  /** Once the accumulator is rejected, `fn` is not called again. */
  lemma {:induction false} NoCallsAfterFailure<A, B, E>(fn: (B, Result<A, E>) -> Result<B, E>, e: E, items: seq<Result<A, E>>)
    ensures Calls(fn, Failure(e), items) == 0
    decreases |items|
  {
    if items != [] {
      NoCallsAfterFailure(fn, e, items[1..]);
    }
  }

  /** When the fold ends fulfilled, `fn` was called once for every item. */
  lemma {:induction false} FulfilledCallsEveryItem<A, B, E>(fn: (B, Result<A, E>) -> Result<B, E>, acc: Result<B, E>, items: seq<Result<A, E>>)
    requires Aggregations.FoldLeft(StepWith(fn), acc, items).Success?
    ensures Calls(fn, acc, items) == |items|
    decreases |items|
  {
    if items != [] {
      if acc.Failure? {
        FailureAbsorbs(fn, acc.error, items);
        assert false;
      } else {
        FulfilledCallsEveryItem(fn, Step(fn, acc, items[0]), items[1..]);
      }
    }
  }

  /** When `fn` awaits its item (so rejects when handed a rejected one), the
      first rejected item decides the outcome once the fold has reached it
      fulfilled: later rejections are swallowed. */
  lemma FirstErrorWins<A, B, E>(fn: (B, Result<A, E>) -> Result<B, E>, acc: Result<B, E>, items: seq<Result<A, E>>, i: nat)
    requires forall x, e :: fn(x, Failure(e)) == Failure(e)
    requires i < |items| && items[i].Failure?
    requires Aggregations.FoldLeft(StepWith(fn), acc, items[..i]).Success?
    ensures Reduce(fn, acc, Success(items)) == Failure(items[i].error)
  {
    assert items == items[..i] + items[i..];
    Aggregations.FoldLeftAppend(StepWith(fn), acc, items[..i], items[i..]);
    var mid := Aggregations.FoldLeft(StepWith(fn), acc, items[..i]);
    assert Step(fn, mid, items[i]) == Failure(items[i].error);
    FailureAbsorbs(fn, items[i].error, items[i + 1..]);
    assert items[i..][1..] == items[i + 1..];
  }

  /** If `fn` awaits its item (so rejects when handed a rejected one) and any
      item is rejected, the call rejects. */
  lemma AnyRejectionRejects<A, B, E>(fn: (B, Result<A, E>) -> Result<B, E>, acc: Result<B, E>, items: seq<Result<A, E>>, i: nat)
    requires forall x, e :: fn(x, Failure(e)) == Failure(e)
    requires i < |items| && items[i].Failure?
    ensures Reduce(fn, acc, Success(items)).Failure?
  {
    if Aggregations.FoldLeft(StepWith(fn), acc, items[..i]).Success? {
      FirstErrorWins(fn, acc, items, i);
    } else {
      var mid := Aggregations.FoldLeft(StepWith(fn), acc, items[..i]);
      assert items == items[..i] + items[i..];
      Aggregations.FoldLeftAppend(StepWith(fn), acc, items[..i], items[i..]);
      FailureAbsorbs(fn, mid.error, items[i..]);
    }
  }

  /** The fulfilled values of a list of fulfilled promises. */
  function Values<A, E>(items: seq<Result<A, E>>): (vs: seq<A>)
    requires forall i :: 0 <= i < |items| ==> items[i].Success?
    ensures |vs| == |items|
    ensures forall i :: 0 <= i < |items| ==> items[i] == Success(vs[i])
  {
    if items == [] then [] else [items[0].value] + Values(items[1..])
  }

  /** When no item and no call of `fn` that the run makes rejects, the result
      is the plain left fold of the fulfilled values: the `i`-th call receives
      the fold of the first `i` values and fulfils with `g` of it and the item. */
  lemma {:induction false} NoRejectionIsFold<A, B, E>(fn: (B, Result<A, E>) -> Result<B, E>, g: (B, A) -> B, b: B, items: seq<Result<A, E>>)
    requires forall i :: 0 <= i < |items| ==> items[i].Success?
    requires forall i :: 0 <= i < |items| ==>
      var acc := Aggregations.FoldLeft(g, b, Values(items)[..i]);
      fn(acc, items[i]) == Success(g(acc, items[i].value))
    ensures Reduce(fn, Success(b), Success(items)) == Success(Aggregations.FoldLeft(g, b, Values(items)))
    decreases |items|
  {
    if items != [] {
      var vs := Values(items);
      var rest := items[1..];
      assert Values(rest) == vs[1..];
      assert vs[..0] == [];
      assert fn(b, items[0]) == Success(g(b, items[0].value));
      forall i | 0 <= i < |rest|
        ensures fn(Aggregations.FoldLeft(g, g(b, items[0].value), Values(rest)[..i]), rest[i])
          == Success(g(Aggregations.FoldLeft(g, g(b, items[0].value), Values(rest)[..i]), rest[i].value))
      {
        assert vs[..i + 1][0] == vs[0] && vs[..i + 1][1..] == Values(rest)[..i];
        assert rest[i] == items[i + 1];
      }
      NoRejectionIsFold(fn, g, g(b, items[0].value), rest);
    }
  }

  /** The callback `async (acc, item) => g(acc, await item)`: it awaits the
      item, so a rejected item rejects the step. */
  function Awaiting<A, B, E>(g: (B, A) -> B): (fn: (B, Result<A, E>) -> Result<B, E>)
  {
    (acc: B, item: Result<A, E>) => if item.Success? then Success(g(acc, item.value)) else Failure(item.error)
  }

  /** Whether a promise rejects. */
  function Rejected<A, E>(r: Result<A, E>): (b: bool)
  {
    r.Failure?
  }

  /** With an awaiting callback and a fulfilled start: the error of the first
      rejected item if there is one, the left fold of the values otherwise. */
  lemma AwaitingReduce<A, B, E>(g: (B, A) -> B, b: B, items: seq<Result<A, E>>)
    ensures var k := Aggregations.FirstWith(Rejected, true, items);
      Reduce(Awaiting(g), Success(b), Success(items)) ==
        if k < |items| then Failure(items[k].error)
        else Success(Aggregations.FoldLeft(g, b, Values(items)))
  {
    var fn: (B, Result<A, E>) -> Result<B, E> := Awaiting(g);
    var k := Aggregations.FirstWith(Rejected, true, items);
    if k < |items| {
      FulfilledPrefix(g, b, items, k);
      FirstErrorWins(fn, Success(b), items, k);
    } else {
      NoRejectionIsFold(fn, g, b, items);
    }
  }

  /** Before the first rejected item, an awaiting callback keeps the
      accumulator fulfilled. */
  lemma {:induction false} FulfilledPrefix<A, B, E>(g: (B, A) -> B, b: B, items: seq<Result<A, E>>, k: nat)
    requires k <= |items|
    requires forall i :: 0 <= i < k ==> items[i].Success?
    ensures Aggregations.FoldLeft(StepWith(Awaiting(g)), Success(b), items[..k]).Success?
    decreases k
  {
    if k > 0 {
      assert items[..k][1..] == items[1..][..k - 1];
      FulfilledPrefix(g, g(b, items[0].value), items[1..], k - 1);
    }
  }
}
