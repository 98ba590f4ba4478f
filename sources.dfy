/** The pull protocol every operator consumes: a single-pass iterator. */
module Sources {
  import opened Results

  /** A synchronous iterator over a finite sequence of elements, as a `for ... of`
      loop sees it: `Next` is the iterator's `next()`, `Close` is its `return()`,
      which a loop calls when it leaves early by `break` or `return`. A
      generator honours `return()`: it finishes, and every later pull reports
      the end. The built-in Array, Set and Map iterators have no `return()`, so
      leaving a loop early leaves their remaining elements to be pulled;
      `honoursReturn` tells the two kinds apart. Once the elements are
      exhausted every pull reports the end. `pos` counts the elements pulled
      so far, so that contracts can say how much of the source an operator
      consumed. */
  class Source<T> {
    const items: seq<T>
    const honoursReturn: bool
    var pos: nat
    var closed: bool

    ghost predicate Valid()
      reads this
    {
      pos <= |items|
    }

    /** The elements that later pulls will still produce. */
    function Rest(): (r: seq<T>)
      reads this
      requires Valid()
    {
      if closed then [] else items[pos..]
    }

    constructor (items: seq<T>, honoursReturn: bool)
      ensures Valid() && this.items == items && this.honoursReturn == honoursReturn
      ensures pos == 0 && !closed && Rest() == items
    {
      this.items := items;
      this.honoursReturn := honoursReturn;
      pos := 0;
      closed := false;
    }

    /** Pulls one element: the head of `Rest()`, or `None` at the end. */
    method Next() returns (r: Option<T>)
      requires Valid()
      modifies this`pos
      ensures Valid()
      ensures old(Rest()) == [] ==> r == None && pos == old(pos)
      ensures old(Rest()) != [] ==> r == Some(old(Rest())[0]) && pos == old(pos) + 1
      ensures Rest() == if old(Rest()) == [] then [] else old(Rest())[1..]
    {
      if closed || pos == |items| {
        r := None;
      } else {
        r := Some(items[pos]);
        pos := pos + 1;
      }
    }

    /** Calls `return()` when the iterator has one: that finishes it. Nothing
        is pulled either way. */
    method Close()
      requires Valid()
      modifies this`closed
      ensures Valid() && closed == (old(closed) || honoursReturn)
      ensures Rest() == if honoursReturn then [] else old(Rest())
    {
      if honoursReturn {
        closed := true;
      }
    }
  }
}
