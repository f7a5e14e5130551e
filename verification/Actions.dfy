/** The envelope put on every queue: a value, or the end-of-stream marker. A queue is
    modelled by the sequence of actions a stage takes from it, and by the sequence of
    actions a stage has put on it. */
module Actions {

  /** `Action<T>`: exactly two variants. `Stop` carries nothing, so every `Stop` is the
      same value whatever the type parameter, as the shared `Stop.INSTANCE` is. */
  datatype Action<T> = Value(value: T) | Stop

  /** `unpack`: the values an action carries. */
  function Unpack<T>(a: Action<T>): seq<T> {
    match a
    case Value(v) => [v]
    case Stop => []
  }

  lemma UnpackValue<T>(v: T)
    ensures Unpack(Value(v)) == [v]
  {
  }

  lemma UnpackStop<T>()
    ensures Unpack<T>(Stop) == []
  {
  }

  /** The values carried by a sequence of actions, in order. */
  function Values<T>(s: seq<Action<T>>): (r: seq<T>)
    ensures |r| <= |s|
  {
    if s == [] then [] else Values(s[..|s| - 1]) + Unpack(s[|s| - 1])
  }

  lemma ValuesSnoc<T>(s: seq<Action<T>>, i: nat)
    requires i < |s|
    ensures Values(s[..i + 1]) == Values(s[..i]) + Unpack(s[i])
  {
    assert s[..i + 1][..i] == s[..i];
  }

  predicate HasStop<T>(s: seq<Action<T>>) {
    exists i | 0 <= i < |s| :: s[i].Stop?
  }

  /** The index of the first `Stop`: the position at which a stage returns. */
  function StopIndex<T>(s: seq<Action<T>>): (k: nat)
    requires HasStop(s)
    ensures k < |s| && s[k].Stop?
    ensures forall i | 0 <= i < k :: s[i].Value?
  {
    if s[0].Stop? then 0
    else
      assert HasStop(s[1..]) by {
        var i :| 0 <= i < |s| && s[i].Stop?;
        assert s[1..][i - 1] == s[i];
      }
      StopIndex(s[1..]) + 1
  }

  /** The number of `Stop`s in a sequence of actions. */
  function StopCount<T>(s: seq<Action<T>>): nat {
    if s == [] then 0 else StopCount(s[..|s| - 1]) + (if s[|s| - 1].Stop? then 1 else 0)
  }

  /** Each value wrapped as `Value`. */
  function Wrap<T>(xs: seq<T>): (r: seq<Action<T>>)
    ensures |r| == |xs|
    ensures forall i | 0 <= i < |xs| :: r[i] == Value(xs[i])
  {
    if xs == [] then [] else Wrap(xs[..|xs| - 1]) + [Value(xs[|xs| - 1])]
  }

  /** Wrapping commutes with concatenation. */
  lemma {:induction false} WrapAppend<T>(a: seq<T>, b: seq<T>)
    ensures Wrap(a + b) == Wrap(a) + Wrap(b)
    decreases |b|
  {
    if b == [] {
      assert a + b == a;
    } else {
      var b' := b[..|b| - 1];
      WrapAppend(a, b');
      assert (a + b)[..|a + b| - 1] == a + b';
    }
  }

  lemma {:induction false} ValuesAppend<T>(a: seq<Action<T>>, b: seq<Action<T>>)
    ensures Values(a + b) == Values(a) + Values(b)
    decreases |b|
  {
    if b == [] {
      assert a + b == a;
    } else {
      assert (a + b)[..|a + b| - 1] == a + b[..|b| - 1];
      ValuesAppend(a, b[..|b| - 1]);
    }
  }

  lemma {:induction false} StopCountAppend<T>(a: seq<Action<T>>, b: seq<Action<T>>)
    ensures StopCount(a + b) == StopCount(a) + StopCount(b)
    decreases |b|
  {
    if b == [] {
      assert a + b == a;
    } else {
      assert (a + b)[..|a + b| - 1] == a + b[..|b| - 1];
      StopCountAppend(a, b[..|b| - 1]);
    }
  }

  /** Wrapping and then unpacking gives the values back, and adds no `Stop`. */
  lemma {:induction false} WrapValues<T>(xs: seq<T>)
    ensures Values(Wrap(xs)) == xs
    ensures StopCount(Wrap(xs)) == 0
  {
    if xs != [] {
      WrapValues(xs[..|xs| - 1]);
      assert Wrap(xs)[..|xs| - 1] == Wrap(xs[..|xs| - 1]);
      assert xs[..|xs| - 1] + [xs[|xs| - 1]] == xs;
    }
  }

  /** Wrapped values followed by one `Stop`: the values come back, and the one `Stop` is
      last. */
  lemma WrapThenStop<T>(xs: seq<T>)
    ensures var out := Wrap(xs) + [Stop];
      Values(out) == xs && StopCount(out) == 1 && out[|out| - 1] == Stop
  {
    var stop: seq<Action<T>> := [Stop];
    WrapValues(xs);
    ValuesAppend(Wrap(xs), stop);
    StopCountAppend(Wrap(xs), stop);
    assert stop[..0] == [];
  }

  /** The values before the first `Stop`, one per action and in order. */
  lemma ValuesBeforeStop<T>(s: seq<Action<T>>)
    requires HasStop(s)
    ensures |Values(s[..StopIndex(s)])| == StopIndex(s)
    ensures forall i | 0 <= i < StopIndex(s) :: Values(s[..StopIndex(s)])[i] == s[i].value
  {
    ValuesOfValues(s[..StopIndex(s)]);
  }

  /** The actions before the first `Stop` are values; wrapping their values rebuilds them. */
  lemma {:induction false} PrefixBeforeStop<T>(s: seq<Action<T>>)
    requires HasStop(s)
    ensures Wrap(Values(s[..StopIndex(s)])) == s[..StopIndex(s)]
    ensures |Values(s[..StopIndex(s)])| == StopIndex(s)
  {
    AllValues(s[..StopIndex(s)]);
  }

  lemma {:induction false} AllValues<T>(s: seq<Action<T>>)
    requires forall i | 0 <= i < |s| :: s[i].Value?
    ensures Wrap(Values(s)) == s && |Values(s)| == |s|
  {
    ValuesOfValues(s);
    var w := Wrap(Values(s));
    assert forall i | 0 <= i < |s| :: w[i] == s[i];
  }

  lemma {:induction false} ValuesOfValues<T>(s: seq<Action<T>>)
    requires forall i | 0 <= i < |s| :: s[i].Value?
    ensures |Values(s)| == |s|
    ensures forall i | 0 <= i < |s| :: Values(s)[i] == s[i].value
  {
    if s != [] {
      ValuesOfValues(s[..|s| - 1]);
    }
  }
}
