/** The aggregations of lib/index.js: `reduce`, `every` and `some`. */
module Aggregations {
  import opened Results
  import opened Sources

  /** The left fold `f(... f(f(acc, s[0]), s[1]) ..., s[|s| - 1])`; `acc` itself
      for an empty `s`. */
  function FoldLeft<A, B>(f: (B, A) -> B, acc: B, s: seq<A>): (r: B)
    ensures s == [] ==> r == acc
    decreases |s|
  {
    if s == [] then acc else FoldLeft(f, f(acc, s[0]), s[1..])
  }

  /** Folding a concatenation folds the second part from where the first ended. */
  lemma {:induction false} FoldLeftAppend<A, B>(f: (B, A) -> B, acc: B, s: seq<A>, t: seq<A>)
    ensures FoldLeft(f, acc, s + t) == FoldLeft(f, FoldLeft(f, acc, s), t)
    decreases |s|
  {
    if s == [] {
      assert s + t == t;
    } else {
      assert (s + t)[1..] == s[1..] + t;
      FoldLeftAppend(f, f(acc, s[0]), s[1..], t);
    }
  }

  /** One more element costs one more call of `f`, on the fold so far. */
  lemma FoldLeftSnoc<A, B>(f: (B, A) -> B, acc: B, s: seq<A>, x: A)
    ensures FoldLeft(f, acc, s + [x]) == f(FoldLeft(f, acc, s), x)
  {
    FoldLeftAppend(f, acc, s, [x]);
  }

  /** What `every(fn, iter)` returns: whether every element passes `fn`. */
  function AllSatisfy<T>(p: T -> bool, s: seq<T>): (r: bool)
    ensures r <==> forall i :: 0 <= i < |s| ==> p(s[i])
  {
    if s == [] then true else p(s[0]) && AllSatisfy(p, s[1..])
  }

  /** What `some(fn, iter)` returns: whether some element passes `fn`. */
  function AnySatisfies<T>(p: T -> bool, s: seq<T>): (r: bool)
    ensures r <==> exists i :: 0 <= i < |s| && p(s[i])
  {
    if s == [] then false else p(s[0]) || AnySatisfies(p, s[1..])
  }

  /** The position of the first element on which `p` gives `v`, or `|s|` when
      there is none: where `every` (with `v` false) or `some` (with `v` true)
      decides. */
  function FirstWith<T>(p: T -> bool, v: bool, s: seq<T>): (k: nat)
    ensures k <= |s|
    ensures forall i :: 0 <= i < k ==> p(s[i]) != v
    ensures k < |s| ==> p(s[k]) == v
  {
    if s == [] then 0 else if p(s[0]) == v then 0 else 1 + FirstWith(p, v, s[1..])
  }

  /** The number of pulls a loop makes that stops at position `k` of `s`:
      the deciding element is pulled too, and at the end nothing more. */
  function PulledUpTo<T>(k: nat, s: seq<T>): (n: nat)
  {
    if k < |s| then k + 1 else |s|
  }

  /** `reduce(fn, acc, iter)`: reassigns `acc := fn(acc, item)` for every
      element pulled, then returns it. */
  method Reduce<A, B>(f: (B, A) -> B, acc: B, src: Source<A>) returns (r: B)
    requires src.Valid()
    modifies src
    ensures src.Valid() && src.Rest() == [] && src.closed == old(src.closed)
    ensures src.pos == old(src.pos) + |old(src.Rest())|
    ensures r == FoldLeft(f, acc, old(src.Rest()))
  {
    ghost var input := src.Rest();
    ghost var k := 0;
    r := acc;
    while true
      invariant src.Valid() && k <= |input| && src.Rest() == input[k..]
      invariant src.pos == old(src.pos) + k && src.closed == old(src.closed)
      invariant r == FoldLeft(f, acc, input[..k])
      decreases |input| - k
    {
      var item := src.Next();
      if item.None? {
        break;
      }
      FoldLeftSnoc(f, acc, input[..k], item.value);
      assert input[..k + 1] == input[..k] + [item.value];
      r := f(r, item.value);
      k := k + 1;
    }
    assert input[..k] == input;
  }

  /** `every(fn, iter)`: returns false at the first element failing `fn`,
      leaving the loop and so closing the source (an iterator without
      `return()` keeps what follows); true when none fails, which
      includes the empty source. */
  method Every<T>(p: T -> bool, src: Source<T>) returns (b: bool)
    requires src.Valid()
    modifies src
    ensures src.Valid()
    ensures b == AllSatisfy(p, old(src.Rest()))
    ensures src.pos == old(src.pos) + PulledUpTo(FirstWith(p, false, old(src.Rest())), old(src.Rest()))
    ensures src.closed == (old(src.closed) || (src.honoursReturn && !b))
    ensures src.Rest() ==
      if !b && !src.honoursReturn
      then old(src.Rest())[FirstWith(p, false, old(src.Rest())) + 1..] else []
  {
    ghost var input := src.Rest();
    ghost var k := 0;
    while true
      invariant src.Valid() && k <= |input| && src.Rest() == input[k..]
      invariant src.pos == old(src.pos) + k && src.closed == old(src.closed)
      invariant forall i :: 0 <= i < k ==> p(input[i])
      decreases |input| - k
    {
      var item := src.Next();
      if item.None? {
        break;
      }
      if !p(item.value) {
        assert input[k] == item.value && !p(input[k]);
        assert FirstWith(p, false, input) == k;
        src.Close();
        return false;
      }
      k := k + 1;
    }
    assert FirstWith(p, false, input) == |input|;
    assert AllSatisfy(p, input);
    b := true;
  }

  /** `some(fn, iter)`: returns true at the first element passing `fn`,
      leaving the loop and so closing the source (an iterator without
      `return()` keeps what follows); false when none passes,
      which includes the empty source. The name is also that of the
      constructor `Results.Some`, which every module opens: a client that
      opens this module too calls it as `Aggregations.Some(p, src)`. */
  method Some<T>(p: T -> bool, src: Source<T>) returns (b: bool)
    requires src.Valid()
    modifies src
    ensures src.Valid()
    ensures b == AnySatisfies(p, old(src.Rest()))
    ensures src.pos == old(src.pos) + PulledUpTo(FirstWith(p, true, old(src.Rest())), old(src.Rest()))
    ensures src.closed == (old(src.closed) || (src.honoursReturn && b))
    ensures src.Rest() ==
      if b && !src.honoursReturn
      then old(src.Rest())[FirstWith(p, true, old(src.Rest())) + 1..] else []
  {
    ghost var input := src.Rest();
    ghost var k := 0;
    while true
      invariant src.Valid() && k <= |input| && src.Rest() == input[k..]
      invariant src.pos == old(src.pos) + k && src.closed == old(src.closed)
      invariant forall i :: 0 <= i < k ==> !p(input[i])
      decreases |input| - k
    {
      var item := src.Next();
      if item.None? {
        break;
      }
      if p(item.value) {
        assert input[k] == item.value && p(input[k]);
        assert FirstWith(p, true, input) == k;
        src.Close();
        return true;
      }
      k := k + 1;
    }
    assert FirstWith(p, true, input) == |input|;
    assert !AnySatisfies(p, input);
    b := false;
  }
}
