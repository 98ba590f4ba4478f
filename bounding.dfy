/** The bounding operators and the bounded source of lib/index.js:
    `drop`, `take` and `range`. A count below zero bounds like zero, since the
    loops compare a counter starting at 0 against it. */
module Bounding {
  import opened Results
  import opened Sources

  function Clamp(count: int): (r: nat)
  {
    if count < 0 then 0 else count
  }

  function Min(a: int, b: int): (r: int)
  {
    if a <= b then a else b
  }

  /** What `drop(count, iter)` yields: each element once `count` of them have
      gone by. */
  function DropSeq<T>(count: int, s: seq<T>): (r: seq<T>)
    ensures r == if Clamp(count) <= |s| then s[Clamp(count)..] else []
    decreases |s|
  {
    if s == [] || count <= 0 then s else DropSeq(count - 1, s[1..])
  }

  /** What `take(count, iter)` yields: at most `count` leading elements. Asking
      for more than there are gives all of them. */
  function TakeSeq<T>(count: int, s: seq<T>): (r: seq<T>)
    ensures r == s[..Min(Clamp(count), |s|)]
    decreases |s|
  {
    if s == [] || count <= 0 then [] else [s[0]] + TakeSeq(count - 1, s[1..])
  }

  /** `take` and `drop` with the same count split a sequence in two. */
  lemma TakeDropSplit<T>(count: int, s: seq<T>)
    ensures TakeSeq(count, s) + DropSeq(count, s) == s
  {
    var k := Min(Clamp(count), |s|);
    assert s == s[..k] + s[k..];
  }

  /** `take(m, drop(n, s))` yields the elements at positions `n` to `n + m - 1`,
      nothing when `n` is at least the length. */
  lemma DropThenTake<T>(n: nat, m: nat, s: seq<T>)
    ensures TakeSeq(m, DropSeq(n, s)) == if n < |s| then s[n..Min(n + m, |s|)] else []
  {
  }

  /** One more element is yielded by `drop` exactly when `count` elements
      have already gone by. */
  lemma {:induction false} DropSnoc<T>(count: int, s: seq<T>, x: T)
    ensures DropSeq(count, s + [x]) == DropSeq(count, s) + if Clamp(count) <= |s| then [x] else []
  {
    var c := Clamp(count);
    var t := s + [x];
    assert DropSeq(count, t) == if c <= |t| then t[c..] else [];
    assert DropSeq(count, s) == if c <= |s| then s[c..] else [];
    if c <= |s| {
      assert t[c..] == s[c..] + [x];
    } else if c == |t| {
      assert t[c..] == [];
    }
  }

  /** `drop(count, iter)` drained by its consumer: pulls every element, yields
      all but the first `count`. */
  method Drop<T>(count: int, src: Source<T>) returns (out: seq<T>)
    requires src.Valid()
    modifies src
    ensures src.Valid() && src.Rest() == [] && src.closed == old(src.closed)
    ensures src.pos == old(src.pos) + |old(src.Rest())|
    ensures out == DropSeq(count, old(src.Rest()))
  {
    ghost var input := src.Rest();
    var index := 0;
    out := [];
    while true
      invariant src.Valid() && index <= |input| && src.Rest() == input[index..]
      invariant src.pos == old(src.pos) + index && src.closed == old(src.closed)
      invariant out == DropSeq(count, input[..index])
      decreases |input| - index
    {
      var item := src.Next();
      if item.None? {
        break;
      }
      DropSnoc(count, input[..index], item.value);
      assert input[..index + 1] == input[..index] + [item.value];
      if index >= count {
        out := out + [item.value];
      }
      index := index + 1;
    }
    assert input[..index] == input;
  }

  /** `take(count, iter)` drained by its consumer. The counter is tested only
      after a pull, so when the source holds more than `count` elements the
      next one is pulled as well, then the loop breaks and closes the source;
      an iterator without `return()` keeps what follows that element. */
  method Take<T>(count: int, src: Source<T>) returns (out: seq<T>)
    requires src.Valid()
    modifies src
    ensures src.Valid()
    ensures out == TakeSeq(count, old(src.Rest()))
    ensures src.pos == old(src.pos) +
      if Clamp(count) < |old(src.Rest())| then Clamp(count) + 1 else |old(src.Rest())|
    ensures src.closed == (old(src.closed) || (src.honoursReturn && Clamp(count) < |old(src.Rest())|))
    ensures src.Rest() ==
      if Clamp(count) < |old(src.Rest())| && !src.honoursReturn
      then old(src.Rest())[Clamp(count) + 1..] else []
  {
    ghost var input := src.Rest();
    var index := 0;
    out := [];
    while true
      invariant src.Valid() && index <= |input| && src.Rest() == input[index..]
      invariant src.pos == old(src.pos) + index && src.closed == old(src.closed)
      invariant index <= Clamp(count) && out == input[..index]
      decreases |input| - index
    {
      var item := src.Next();
      if item.None? {
        break;
      }
      if index >= count {
        assert index == Clamp(count) < |input|;
        index := index + 1;
        src.Close();
        break;
      }
      assert input[..index + 1] == input[..index] + [item.value];
      index := index + 1;
      out := out + [item.value];
    }
  }

  /** `range(from, to)` with its upper bound given, drained by its consumer:
      the integers from `from` up to but excluding the bound, none when the
      bound is at most `from`. The bound is named `until` because `to` is a
      keyword of Dafny. */
  method Range(from: int, until: int) returns (out: seq<int>)
    ensures |out| == if until <= from then 0 else until - from
    ensures forall i :: 0 <= i < |out| ==> out[i] == from + i
  {
    out := [];
    var n := from;
    while n < until
      invariant from <= n && (n <= until || n == from)
      invariant |out| == n - from
      invariant forall i :: 0 <= i < |out| ==> out[i] == from + i
      decreases until - n
    {
      out := out + [n];
      n := n + 1;
    }
  }
}
