/** The collectors of lib/index.js: they pull a source to its end and gather
    the elements into an array, a Set, a Map or a plain object. */
module Collectors {
  import opened Results
  import opened Sources

  /** What `collectSet(iter)` holds: the distinct elements. */
  function SetOf<T>(s: seq<T>): (r: set<T>)
    ensures |r| <= |s|
    ensures forall i :: 0 <= i < |s| ==> s[i] in r
    ensures forall x :: x in r ==> x in s
  {
    if s == [] then {} else SetOf(s[..|s| - 1]) + {s[|s| - 1]}
  }

  /** What `collectMap(iter)` holds: each pair `[key, value]` set in turn, so a
      later pair replaces an earlier one with the same key. */
  function PairsToMap<K, V>(s: seq<(K, V)>): (r: map<K, V>)
    ensures forall i :: 0 <= i < |s| ==> s[i].0 in r
    ensures forall k :: k in r ==> exists i :: 0 <= i < |s| && s[i] == (k, r[k])
  {
    if s == [] then map[]
    else
      var (k, v) := s[|s| - 1];
      PairsToMap(s[..|s| - 1])[k := v]
  }

  /** The last pair with a given key decides that key's value. */
  lemma {:induction false} LastPairWins<K, V>(s: seq<(K, V)>, i: nat)
    requires i < |s|
    requires forall j :: i < j < |s| ==> s[j].0 != s[i].0
    ensures PairsToMap(s)[s[i].0] == s[i].1
    decreases |s|
  {
    if i < |s| - 1 {
      LastPairWins(s[..|s| - 1], i);
    }
  }

  /** With distinct keys every pair is kept as it is. */
  lemma DistinctKeysAllKept<K, V>(s: seq<(K, V)>)
    requires forall i, j :: 0 <= i < j < |s| ==> s[i].0 != s[j].0
    ensures forall i :: 0 <= i < |s| ==> PairsToMap(s)[s[i].0] == s[i].1
  {
    forall i | 0 <= i < |s|
      ensures PairsToMap(s)[s[i].0] == s[i].1
    {
      LastPairWins(s, i);
    }
  }

  /** `collectArray(iter)`: the spread `[...iter]`, every remaining element in order. */
  method CollectArray<T>(src: Source<T>) returns (result: seq<T>)
    requires src.Valid()
    modifies src
    ensures src.Valid() && src.Rest() == [] && src.closed == old(src.closed)
    ensures src.pos == old(src.pos) + |old(src.Rest())|
    ensures result == old(src.Rest())
  {
    ghost var input := src.Rest();
    ghost var k := 0;
    result := [];
    while true
      invariant src.Valid() && k <= |input| && src.Rest() == input[k..]
      invariant src.pos == old(src.pos) + k && src.closed == old(src.closed)
      invariant result == input[..k]
      decreases |input| - k
    {
      var item := src.Next();
      if item.None? {
        break;
      }
      assert input[..k + 1] == input[..k] + [item.value];
      result := result + [item.value];
      k := k + 1;
    }
    assert input[..k] == input;
  }

  /** `collectSet(iter)`: adds every remaining element to a Set. */
  method CollectSet<T>(src: Source<T>) returns (result: set<T>)
    requires src.Valid()
    modifies src
    ensures src.Valid() && src.Rest() == [] && src.closed == old(src.closed)
    ensures src.pos == old(src.pos) + |old(src.Rest())|
    ensures result == SetOf(old(src.Rest()))
  {
    ghost var input := src.Rest();
    ghost var k := 0;
    result := {};
    while true
      invariant src.Valid() && k <= |input| && src.Rest() == input[k..]
      invariant src.pos == old(src.pos) + k && src.closed == old(src.closed)
      invariant result == SetOf(input[..k])
      decreases |input| - k
    {
      var item := src.Next();
      if item.None? {
        break;
      }
      assert input[..k + 1][..k] == input[..k];
      result := result + {item.value};
      k := k + 1;
    }
    assert input[..k] == input;
  }

  /** `collectMap(iter)`: sets every remaining `[key, value]` pair in a Map. */
  method CollectMap<K, V>(src: Source<(K, V)>) returns (result: map<K, V>)
    requires src.Valid()
    modifies src
    ensures src.Valid() && src.Rest() == [] && src.closed == old(src.closed)
    ensures src.pos == old(src.pos) + |old(src.Rest())|
    ensures result == PairsToMap(old(src.Rest()))
  {
    ghost var input := src.Rest();
    ghost var k := 0;
    result := map[];
    while true
      invariant src.Valid() && k <= |input| && src.Rest() == input[k..]
      invariant src.pos == old(src.pos) + k && src.closed == old(src.closed)
      invariant result == PairsToMap(input[..k])
      decreases |input| - k
    {
      var item := src.Next();
      if item.None? {
        break;
      }
      assert input[..k + 1][..k] == input[..k];
      var (key, value) := item.value;
      result := result[key := value];
      k := k + 1;
    }
    assert input[..k] == input;
  }

  /** `collectObject(iter)`: assigns `result[key] = value` for every remaining
      pair. With the string keys it is declared for, a property assignment on
      the prototype-less object behaves as `Map.set` does. */
  method CollectObject<V>(src: Source<(string, V)>) returns (result: map<string, V>)
    requires src.Valid()
    modifies src
    ensures src.Valid() && src.Rest() == [] && src.closed == old(src.closed)
    ensures src.pos == old(src.pos) + |old(src.Rest())|
    ensures result == PairsToMap(old(src.Rest()))
  {
    result := CollectMap(src);
  }
}
