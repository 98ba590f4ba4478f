/** The per-element transforms of lib/index.js: `map` and `filter`. */
module Transforms {
  import opened Results
  import opened Sources

  /** What `map(fn, iter)` yields: `fn` of each element, in order. */
  function MapSeq<A, B>(f: A -> B, s: seq<A>): (r: seq<B>)
    ensures |r| == |s|
    ensures forall i :: 0 <= i < |s| ==> r[i] == f(s[i])
  {
    if s == [] then [] else [f(s[0])] + MapSeq(f, s[1..])
  }

  /** What `filter(fn, iter)` yields: the elements passing `fn`, in order. */
  function FilterSeq<T>(p: T -> bool, s: seq<T>): (r: seq<T>)
    ensures |r| <= |s|
    ensures forall i :: 0 <= i < |r| ==> p(r[i])
  {
    if s == [] then []
    else if p(s[0]) then [s[0]] + FilterSeq(p, s[1..])
    else FilterSeq(p, s[1..])
  }

  /** No passing element is left out and nothing else is added: each value
      occurs in the output as often as in the input if it passes, else never. */
  lemma {:induction false} FilterCount<T>(p: T -> bool, s: seq<T>, x: T)
    ensures multiset(FilterSeq(p, s))[x] == if p(x) then multiset(s)[x] else 0
  {
    if s != [] {
      FilterCount(p, s[1..], x);
      assert s == [s[0]] + s[1..];
      assert multiset(s) == multiset([s[0]]) + multiset(s[1..]);
    }
  }

  /** `r` is `s` with some elements left out and the rest kept in order. */
  ghost predicate IsSubsequence<T>(r: seq<T>, s: seq<T>)
    decreases |s|
  {
    if r == [] then true
    else if s == [] then false
    else (r[0] == s[0] && IsSubsequence(r[1..], s[1..])) || IsSubsequence(r, s[1..])
  }

  /** Filtering keeps the original order: its output is a subsequence of its input. */
  lemma {:induction false} FilterIsSubsequence<T>(p: T -> bool, s: seq<T>)
    ensures IsSubsequence(FilterSeq(p, s), s)
    decreases |s|
  {
    if s != [] {
      FilterIsSubsequence(p, s[1..]);
      if !p(s[0]) {
        SubsequenceOfTail(FilterSeq(p, s[1..]), s);
      }
    }
  }

  lemma SubsequenceOfTail<T>(r: seq<T>, s: seq<T>)
    requires s != [] && IsSubsequence(r, s[1..])
    ensures IsSubsequence(r, s)
  {
  }

  /** Mapping distributes over concatenation: the output for a prefix of the
      input is the corresponding prefix of the output. */
  lemma {:induction false} MapAppend<A, B>(f: A -> B, a: seq<A>, b: seq<A>)
    ensures MapSeq(f, a + b) == MapSeq(f, a) + MapSeq(f, b)
  {
    if a == [] {
      assert a + b == b;
    } else {
      assert (a + b)[1..] == a[1..] + b;
      MapAppend(f, a[1..], b);
    }
  }

  /** Filtering distributes over concatenation. */
  lemma {:induction false} FilterAppend<T>(p: T -> bool, a: seq<T>, b: seq<T>)
    ensures FilterSeq(p, a + b) == FilterSeq(p, a) + FilterSeq(p, b)
  {
    if a == [] {
      assert a + b == b;
    } else {
      assert (a + b)[1..] == a[1..] + b;
      FilterAppend(p, a[1..], b);
    }
  }

  /** `map(fn, iter)` drained by its consumer: pulls every element of `src` and
      yields `fn` of each. */
  method Map<A, B>(f: A -> B, src: Source<A>) returns (out: seq<B>)
    requires src.Valid()
    modifies src
    ensures src.Valid() && src.Rest() == [] && src.closed == old(src.closed)
    ensures src.pos == old(src.pos) + |old(src.Rest())|
    ensures out == MapSeq(f, old(src.Rest()))
  {
    ghost var input := src.Rest();
    ghost var k := 0;
    out := [];
    while true
      invariant src.Valid() && k <= |input| && src.Rest() == input[k..]
      invariant src.pos == old(src.pos) + k && src.closed == old(src.closed)
      invariant out == MapSeq(f, input[..k])
      decreases |input| - k
    {
      var n := src.Next();
      if n.None? {
        break;
      }
      assert input[..k + 1] == input[..k] + [n.value];
      MapAppend(f, input[..k], [n.value]);
      assert MapSeq(f, [n.value]) == [f(n.value)];
      out := out + [f(n.value)];
      k := k + 1;
    }
    assert input[..k] == input;
  }

  /** `filter(fn, iter)` drained by its consumer: pulls every element of `src`
      and yields those passing `fn`; the others are pulled and discarded. */
  method Filter<T>(p: T -> bool, src: Source<T>) returns (out: seq<T>)
    requires src.Valid()
    modifies src
    ensures src.Valid() && src.Rest() == [] && src.closed == old(src.closed)
    ensures src.pos == old(src.pos) + |old(src.Rest())|
    ensures out == FilterSeq(p, old(src.Rest()))
  {
    ghost var input := src.Rest();
    ghost var k := 0;
    out := [];
    while true
      invariant src.Valid() && k <= |input| && src.Rest() == input[k..]
      invariant src.pos == old(src.pos) + k && src.closed == old(src.closed)
      invariant out == FilterSeq(p, input[..k])
      decreases |input| - k
    {
      var n := src.Next();
      if n.None? {
        break;
      }
      assert input[..k + 1] == input[..k] + [n.value];
      FilterAppend(p, input[..k], [n.value]);
      assert FilterSeq(p, [n.value]) == if p(n.value) then [n.value] else [];
      if p(n.value) {
        out := out + [n.value];
      }
      k := k + 1;
    }
    assert input[..k] == input;
  }
}
