/** `Multiplexer<T>`: copies one stream of actions onto several target queues. Each
    target queue is modelled by the sequence of actions put on it so far. */
module Multiplexer {
  import opened Actions

  /** `forward`: puts the action on every target, in list order. */
  method Forward<T>(targets: array<seq<Action<T>>>, action: Action<T>)
    modifies targets
    ensures forall k | 0 <= k < targets.Length :: targets[k] == old(targets[k]) + [action]
  {
    for j := 0 to targets.Length
      invariant forall k | 0 <= k < j :: targets[k] == old(targets[k]) + [action]
      invariant forall k | j <= k < targets.Length :: targets[k] == old(targets[k])
    {
      targets[j] := targets[j] + [action];
    }
  }

  /** What `run`, as written, puts on every target: everything taken, up to and including
      the first `Stop`, and then that `Stop` a second time. */
  function Broadcast<T>(source: seq<Action<T>>): seq<Action<T>>
    requires HasStop(source)
  {
    source[..StopIndex(source) + 1] + [Stop]
  }

  /** `run`: forwards every action taken; on `Stop` forwards it again and returns. */
  method Run<T>(source: seq<Action<T>>, targets: array<seq<Action<T>>>) returns (taken: nat)
    requires HasStop(source)
    modifies targets
    ensures taken == StopIndex(source) + 1
    ensures forall k | 0 <= k < targets.Length :: targets[k] == old(targets[k]) + Broadcast(source)
  {
    var i := 0;
    while true
      invariant 0 <= i <= StopIndex(source)
      invariant forall k | 0 <= k < targets.Length :: targets[k] == old(targets[k]) + source[..i]
      decreases StopIndex(source) - i
    {
      var action := source[i];
      Forward(targets, action);
      assert source[..i + 1] == source[..i] + [action];
      match action
      case Value(_) =>
        i := i + 1;
      case Stop =>
        Forward(targets, action);
        return i + 1;
    }
  }

  /** Every target receives each value exactly once, in order, followed by two `Stop`s. */
  lemma BroadcastStopsTwice<T>(source: seq<Action<T>>)
    requires HasStop(source)
    ensures Values(Broadcast(source)) == Values(source[..StopIndex(source)])
    ensures StopCount(Broadcast(source)) == 2
    ensures var b := Broadcast(source); b[|b| - 1] == Stop && b[|b| - 2] == Stop
  {
    var k := StopIndex(source);
    var before := source[..k];
    assert Broadcast(source) == before + [Stop, Stop];
    AllValues(before);
    WrapValues(Values(before));
    ValuesAppend(before, [Stop, Stop]);
    StopCountAppend(before, [Stop, Stop]);
    var stops: seq<Action<T>> := [Stop, Stop];
    assert stops[..1] == [Stop];
    assert Values(stops) == [];
    assert StopCount(stops) == 2;
  }

  /** The smallest input that shows it: a stream made of one `Stop` reaches each target as
      two `Stop`s. */
  lemma LoneStopIsDoubled<T>()
    ensures HasStop<T>([Stop]) && Broadcast<T>([Stop]) == [Stop, Stop]
  {
    var lone: seq<Action<T>> := [Stop];
    assert lone[0].Stop?;
    assert StopIndex(lone) == 0;
  }

  /** What `run` is meant to put on every target: everything taken, up to and including
      the first `Stop`. */
  function Forwarded<T>(source: seq<Action<T>>): seq<Action<T>>
    requires HasStop(source)
  {
    source[..StopIndex(source) + 1]
  }

  /** `run` without the second `forward` on `Stop`. */
  method RunForwardingOnce<T>(source: seq<Action<T>>, targets: array<seq<Action<T>>>) returns (taken: nat)
    requires HasStop(source)
    modifies targets
    ensures taken == StopIndex(source) + 1
    ensures forall k | 0 <= k < targets.Length :: targets[k] == old(targets[k]) + Forwarded(source)
  {
    var i := 0;
    while true
      invariant 0 <= i <= StopIndex(source)
      invariant forall k | 0 <= k < targets.Length :: targets[k] == old(targets[k]) + source[..i]
      decreases StopIndex(source) - i
    {
      var action := source[i];
      Forward(targets, action);
      assert source[..i + 1] == source[..i] + [action];
      if action.Stop? {
        return i + 1;
      }
      i := i + 1;
    }
  }

  /** Every target receives each value exactly once, in order, and exactly one `Stop`,
      as its last action. */
  lemma ForwardedStopsOnce<T>(source: seq<Action<T>>)
    requires HasStop(source)
    ensures Values(Forwarded(source)) == Values(source[..StopIndex(source)])
    ensures StopCount(Forwarded(source)) == 1
    ensures Forwarded(source)[|Forwarded(source)| - 1] == Stop
  {
    var k := StopIndex(source);
    var before := source[..k];
    assert Forwarded(source) == before + [Stop];
    AllValues(before);
    WrapValues(Values(before));
    ValuesAppend(before, [Stop]);
    StopCountAppend(before, [Stop]);
    assert Values<T>([Stop]) == Values<T>([]) + [];
    assert StopCount<T>([Stop]) == StopCount<T>([]) + 1;
  }
}
