/** `Buffer<E>`: a list of elements with a running weight, used to cut a stream into
    batches of at least `limit` weight. */
module Buffers {

  /** The total of a sequence of sizes. */
  function Sum(sizes: seq<int>): int {
    if sizes == [] then 0 else Sum(sizes[..|sizes| - 1]) + sizes[|sizes| - 1]
  }

  class Buffer<E> {
    var underlying: seq<E>
    const limit: int
    var count: int
    /** The size passed with each element still in the buffer. */
    ghost var sizes: seq<int>

    /** `count` is the sum of the sizes given to `add` since the last `drain`. */
    ghost predicate Valid()
      reads this
    {
      |sizes| == |underlying| && count == Sum(sizes)
    }

    constructor (limit: int)
      ensures Valid()
      ensures this.limit == limit && underlying == [] && count == 0 && sizes == []
    {
      this.limit := limit;
      underlying := [];
      count := 0;
      sizes := [];
    }

    /** `add`: appends the element and raises the weight by exactly `size`. */
    method Add(element: E, size: int)
      requires Valid()
      modifies this
      ensures Valid()
      ensures underlying == old(underlying) + [element]
      ensures count == old(count) + size
      ensures sizes == old(sizes) + [size]
    {
      underlying := underlying + [element];
      count := count + size;
      sizes := sizes + [size];
      assert sizes[..|sizes| - 1] == old(sizes);
    }

    /** `hasEnough`: the weight has reached the limit. */
    method HasEnough() returns (b: bool)
      ensures b <==> count >= limit
    {
      b := count >= limit;
    }

    /** `isEmpty`: decided by the elements alone, not by the weight. */
    method IsEmpty() returns (b: bool)
      ensures b <==> |underlying| == 0
    {
      b := |underlying| == 0;
    }

    /** `isNotEmpty`: the negation of `isEmpty`. */
    method IsNotEmpty() returns (b: bool)
      ensures b <==> |underlying| != 0
    {
      b := |underlying| != 0;
    }

    /** `drain`: hands back the elements added since the last drain, in order, and
        empties the buffer. */
    method Drain() returns (result: seq<E>)
      requires Valid()
      modifies this
      ensures Valid()
      ensures result == old(underlying)
      ensures underlying == [] && count == 0 && sizes == []
    {
      result := underlying;
      underlying := [];
      count := 0;
      sizes := [];
    }
  }
}
