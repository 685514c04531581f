/** The growable vector the audio code passes around: its elements and its reserved capacity. */
module RustVec {

  class Vec<T> {
    var items: seq<T>
    var capacity: nat

    ghost predicate Valid()
      reads this
    {
      |items| <= capacity
    }

    constructor WithCapacity(capacity: nat)
      ensures Valid() && items == [] && this.capacity == capacity
    {
      items := [];
      this.capacity := capacity;
    }

    /** Room for `additional` more elements; memory moves only when they do not fit already. */
    method Reserve(additional: nat)
      requires Valid()
      modifies this
      ensures Valid() && items == old(items) && |items| + additional <= capacity
      ensures capacity == if |items| + additional <= old(capacity) then old(capacity) else |items| + additional
    {
      if |items| + additional > capacity {
        capacity := |items| + additional;
      }
    }

    method Extend(more: seq<T>)
      requires Valid()
      modifies this
      ensures Valid() && items == old(items) + more
      ensures capacity == if |items| <= old(capacity) then old(capacity) else |items|
    {
      Reserve(|more|);
      items := items + more;
    }

    method Drain(n: nat)
      requires Valid() && n <= |items|
      modifies this
      ensures Valid() && items == old(items)[n..] && capacity == old(capacity)
    {
      items := items[n..];
    }
  }
}
