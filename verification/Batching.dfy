/** What an accumulator of `WriteDispacher` does to the weighted elements it is given,
    stated as a function of the whole input: each element joins the pending batch, and
    the batch is cut the moment its weight reaches the limit. */
module Batching {
  import opened Actions
  import opened Buffers
  import opened Sequences

  function Elements<T>(b: seq<(T, int)>): (r: seq<T>)
    ensures |r| == |b|
    ensures forall i | 0 <= i < |b| :: r[i] == b[i].0
  {
    seq(|b|, i requires 0 <= i < |b| => b[i].0)
  }

  function Sizes<T>(b: seq<(T, int)>): (r: seq<int>)
    ensures |r| == |b|
    ensures forall i | 0 <= i < |b| :: r[i] == b[i].1
  {
    seq(|b|, i requires 0 <= i < |b| => b[i].1)
  }

  /** The total weight of a batch. */
  function Weight<T>(b: seq<(T, int)>): int {
    Sum(Sizes(b))
  }

  lemma WeightAppend<T>(b: seq<(T, int)>, x: (T, int))
    ensures Weight(b + [x]) == Weight(b) + x.1
  {
    assert Sizes(b + [x])[..|b|] == Sizes(b);
  }

  /** The batches already cut and the batch still pending. */
  datatype Batches<T> = Batches(emitted: seq<seq<(T, int)>>, pending: seq<(T, int)>)

  /** One `Accumulator.add`: the element joins the pending batch, which is cut when its
      weight reaches the limit. */
  function Feed<T>(st: Batches<T>, x: (T, int), limit: int): Batches<T> {
    var p := st.pending + [x];
    if Weight(p) >= limit then Batches(st.emitted + [p], []) else Batches(st.emitted, p)
  }

  /** The batches after adding every element of `items` in order, from empty. */
  function FeedAll<T>(items: seq<(T, int)>, limit: int): Batches<T> {
    if items == [] then Batches([], [])
    else Feed(FeedAll(items[..|items| - 1], limit), items[|items| - 1], limit)
  }

  /** Adding one more element is one more `Feed` step; the pending batch grows by it
      in elements, sizes and weight. */
  lemma FeedAllSnoc<T>(items: seq<(T, int)>, x: (T, int), limit: int)
    ensures var st := FeedAll(items, limit);
      var p := st.pending + [x];
      && FeedAll(items + [x], limit) == Feed(st, x, limit)
      && Elements(p) == Elements(st.pending) + [x.0]
      && Sizes(p) == Sizes(st.pending) + [x.1]
  {
    assert (items + [x])[..|items|] == items;
  }

  function Flatten<T>(bs: seq<seq<T>>): seq<T> {
    if bs == [] then [] else Flatten(bs[..|bs| - 1]) + bs[|bs| - 1]
  }

  /** The element list of each batch. */
  function ElementsEach<T>(bs: seq<seq<(T, int)>>): (r: seq<seq<T>>)
    ensures |r| == |bs|
    ensures forall i | 0 <= i < |bs| :: r[i] == Elements(bs[i])
  {
    if bs == [] then [] else ElementsEach(bs[..|bs| - 1]) + [Elements(bs[|bs| - 1])]
  }

  /** The value built from each batch. */
  function BuildEach<T, U>(d: seq<seq<T>>, build: seq<T> -> U): (r: seq<U>)
    ensures |r| == |d|
    ensures forall i | 0 <= i < |d| :: r[i] == build(d[i])
  {
    if d == [] then [] else BuildEach(d[..|d| - 1], build) + [build(d[|d| - 1])]
  }

  lemma WrapBuildSnoc<T, U>(d: seq<seq<T>>, e: seq<T>, build: seq<T> -> U)
    ensures Wrap(BuildEach(d + [e], build)) == Wrap(BuildEach(d, build)) + [Value(build(e))]
  {
    assert (d + [e])[..|d|] == d;
  }

  /** Cutting one more batch adds its built value to the queue. */
  lemma CutSnoc<T, U>(emitted: seq<seq<(T, int)>>, p: seq<(T, int)>, build: seq<T> -> U)
    ensures Wrap(BuildEach(ElementsEach(emitted + [p]), build))
      == Wrap(BuildEach(ElementsEach(emitted), build)) + [Value(build(Elements(p)))]
  {
    assert (emitted + [p])[..|emitted|] == emitted;
    WrapBuildSnoc(ElementsEach(emitted), Elements(p), build);
  }

  /** The element lists handed over by `drain`, in order: every cut batch, then the
      pending batch if `flush` finds the buffer non-empty. */
  function Drained<T>(items: seq<(T, int)>, limit: int): (r: seq<seq<T>>) {
    var st := FeedAll(items, limit);
    ElementsEach(st.emitted) + (if st.pending != [] then [Elements(st.pending)] else [])
  }

  /** The actions an accumulator puts on its queue for the whole stream: one value per
      drained batch, then exactly one `Stop`. */
  function Output<T, U>(items: seq<(T, int)>, limit: int, build: seq<T> -> U): seq<Action<U>> {
    Wrap(BuildEach(Drained(items, limit), build)) + [Stop]
  }

  /** One step keeps every element: it ends up in the cut batches or the pending one. */
  lemma FeedKeepsItems<T>(st: Batches<T>, x: (T, int), limit: int)
    ensures Flatten(Feed(st, x, limit).emitted) + Feed(st, x, limit).pending
      == Flatten(st.emitted) + st.pending + [x]
  {
    var p := st.pending + [x];
    if Weight(p) >= limit {
      FlattenSnoc(st.emitted, p);
    }
  }

  /** Nothing is lost, duplicated or reordered: the cut batches followed by the pending
      batch are exactly the input. */
  lemma {:induction false} FeedAllKeepsItems<T>(items: seq<(T, int)>, limit: int)
    ensures Flatten(FeedAll(items, limit).emitted) + FeedAll(items, limit).pending == items
  {
    if items != [] {
      var init := items[..|items| - 1];
      var x := items[|items| - 1];
      FeedAllKeepsItems(init, limit);
      FeedKeepsItems(FeedAll(init, limit), x, limit);
      assert init + [x] == items;
    }
  }

  lemma FlattenSnoc<T>(bs: seq<seq<T>>, b: seq<T>)
    ensures Flatten(bs + [b]) == Flatten(bs) + b
  {
    assert (bs + [b])[..|bs|] == bs;
  }

  /** The pending batch is below the limit unless it is empty. */
  predicate PendingBelow<T>(st: Batches<T>, limit: int) {
    st.pending == [] || Weight(st.pending) < limit
  }

  /** Every cut batch is non-empty, has reached the limit, and was below the limit
      before its last element (unless that element is the only one). */
  predicate CutAtLimit<T>(b: seq<(T, int)>, limit: int) {
    |b| >= 1 && Weight(b) >= limit && (|b| == 1 || Weight(b[..|b| - 1]) < limit)
  }

  lemma {:induction false} FeedAllCuts<T>(items: seq<(T, int)>, limit: int)
    ensures PendingBelow(FeedAll(items, limit), limit)
    ensures forall i | 0 <= i < |FeedAll(items, limit).emitted| ::
      CutAtLimit(FeedAll(items, limit).emitted[i], limit)
  {
    if items != [] {
      var init := items[..|items| - 1];
      var x := items[|items| - 1];
      FeedAllCuts(init, limit);
      var st := FeedAll(init, limit);
      var p := st.pending + [x];
      var st' := FeedAll(items, limit);
      assert st' == Feed(st, x, limit);
      if Weight(p) >= limit {
        assert p[..|p| - 1] == st.pending;
        assert CutAtLimit(p, limit);
        assert st'.emitted == st.emitted + [p];
        forall i | 0 <= i < |st'.emitted| ensures CutAtLimit(st'.emitted[i], limit) {
          if i < |st.emitted| {
            assert st'.emitted[i] == st.emitted[i];
          }
        }
      }
    }
  }

  /** The drained lists, concatenated, are the input elements in order. */
  lemma DrainedKeepsElements<T>(items: seq<(T, int)>, limit: int)
    ensures Flatten(Drained(items, limit)) == Elements(items)
  {
    var st := FeedAll(items, limit);
    FeedAllKeepsItems(items, limit);
    var cut := ElementsEach(st.emitted);
    var rest := if st.pending != [] then [Elements(st.pending)] else [];
    assert Drained(items, limit) == cut + rest;
    FlattenElements(st.emitted);
    FlattenAppend(cut, rest);
    FlattenSnoc([], Elements(st.pending));
    assert Flatten(rest) == Elements(st.pending);
    ElementsAppend(Flatten(st.emitted), st.pending);
  }

  lemma ElementsAppend<T>(a: seq<(T, int)>, b: seq<(T, int)>)
    ensures Elements(a + b) == Elements(a) + Elements(b)
  {
  }

  lemma {:induction false} FlattenElements<T>(bs: seq<seq<(T, int)>>)
    ensures Flatten(ElementsEach(bs)) == Elements(Flatten(bs))
  {
    if bs != [] {
      var init := bs[..|bs| - 1];
      FlattenElements(init);
      ElementsAppend(Flatten(init), bs[|bs| - 1]);
    }
  }

  lemma {:induction false} FlattenAppend<T>(a: seq<seq<T>>, b: seq<seq<T>>)
    ensures Flatten(a + b) == Flatten(a) + Flatten(b)
    decreases |b|
  {
    if b == [] {
      assert a + b == a;
    } else {
      var b' := b[..|b| - 1];
      assert (a + b)[..|a + b| - 1] == a + b';
      assert (a + b)[|a + b| - 1] == b[|b| - 1];
      FlattenAppend(a, b');
      AppendAssoc(Flatten(a), Flatten(b'), b[|b| - 1]);
    }
  }

  /** The queue of an accumulator: its values are the built batches and it holds exactly
      one `Stop`, as its last action. */
  lemma OutputShape<T, U>(items: seq<(T, int)>, limit: int, build: seq<T> -> U)
    ensures Values(Output(items, limit, build)) == BuildEach(Drained(items, limit), build)
    ensures StopCount(Output(items, limit, build)) == 1
    ensures Output(items, limit, build)[|Output(items, limit, build)| - 1] == Stop
  {
    var w := Wrap(BuildEach(Drained(items, limit), build));
    WrapValues(BuildEach(Drained(items, limit), build));
    ValuesAppend(w, [Stop]);
    StopCountAppend(w, [Stop]);
    assert Values<U>([Stop]) == Values<U>([]) + [];
    assert StopCount<U>([Stop]) == StopCount<U>([]) + 1;
  }

  /** With unit weights and a positive limit, every cut batch holds exactly `limit`
      elements and the pending batch fewer. */
  lemma {:induction false} FeedAllUnit<T>(items: seq<(T, int)>, limit: int)
    requires limit >= 1
    requires forall i | 0 <= i < |items| :: items[i].1 == 1
    ensures Weight(FeedAll(items, limit).pending) == |FeedAll(items, limit).pending| < limit
    ensures forall i | 0 <= i < |FeedAll(items, limit).emitted| ::
      |FeedAll(items, limit).emitted[i]| == limit
  {
    if items != [] {
      var init := items[..|items| - 1];
      var x := items[|items| - 1];
      FeedAllUnit(init, limit);
      var st := FeedAll(init, limit);
      var p := st.pending + [x];
      WeightAppend(st.pending, x);
      var st' := FeedAll(items, limit);
      assert st' == Feed(st, x, limit);
      if Weight(p) >= limit {
        assert st'.emitted == st.emitted + [p];
        forall i | 0 <= i < |st'.emitted| ensures |st'.emitted[i]| == limit {
          if i < |st.emitted| {
            assert st'.emitted[i] == st.emitted[i];
          }
        }
        assert Weight<T>([]) == 0;
      }
    } else {
      assert Weight<T>([]) == 0;
    }
  }

  /** With unit weights and a positive limit, every drained list holds between one and
      `limit` elements, and all but the last hold exactly `limit`. */
  lemma UnitBatches<T>(items: seq<(T, int)>, limit: int)
    requires limit >= 1
    requires forall i | 0 <= i < |items| :: items[i].1 == 1
    ensures var d := Drained(items, limit);
      (forall i | 0 <= i < |d| :: 1 <= |d[i]| <= limit)
      && (forall i | 0 <= i < |d| - 1 :: |d[i]| == limit)
  {
    FeedAllUnit(items, limit);
  }
}
