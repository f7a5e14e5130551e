/** The optional values and the failures that the Java code signals with `null`,
    `Optional` and exceptions. */
module Outcomes {

  datatype Option<+T> = None | Some(value: T)

  /** The exceptions the modelled code can raise, named after their Java classes. */
  datatype Failure =
    | NumberFormat(input: string)
    | IndexOutOfBounds(index: int, length: int)
    | IllegalArgument(message: string)
    | IllegalState(message: string)
    | NullPointer
    | NoSuchElement
    | DateTime(epochSecond: int)
    | CommandFailed(command: seq<string>)

  datatype Result<+T> = Ok(value: T) | Err(failure: Failure) {
    predicate IsFailure() { Err? }

    function PropagateFailure<U>(): Result<U>
      requires Err?
    {
      Err(failure)
    }

    function Extract(): T
      requires Ok?
    {
      value
    }
  }

  /** A stream mapped through a function that may throw, then collected: every result
      in order, or the failure of the first element that fails. */
  function MapAll<S, T>(xs: seq<S>, f: S -> Result<T>): (r: Result<seq<T>>)
    ensures r.Ok? <==> forall k | 0 <= k < |xs| :: f(xs[k]).Ok?
    ensures r.Ok? ==> |r.value| == |xs| && forall k | 0 <= k < |xs| :: r.value[k] == f(xs[k]).value
    ensures r.Err? ==> exists k | 0 <= k < |xs| :: f(xs[k]) == Err(r.failure) && forall j | 0 <= j < k :: f(xs[j]).Ok?
  {
    if xs == [] then Ok([])
    else
      match f(xs[0])
      case Err(e) => Err(e)
      case Ok(v) =>
        match MapAll(xs[1..], f)
        case Err(e) =>
          ghost var k :| 0 <= k < |xs[1..]| && f(xs[1..][k]) == Err(e) && forall j | 0 <= j < k :: f(xs[1..][j]).Ok?;
          assert f(xs[k + 1]) == Err(e) && forall j | 0 <= j < k + 1 :: f(xs[j]).Ok?;
          Err(e)
        case Ok(rest) => Ok([v] + rest)
  }

  /** `MapAll` stops at the first failing element and reports its failure. */
  lemma MapAllFailsAt<S, T>(xs: seq<S>, f: S -> Result<T>, k: nat)
    requires k < |xs| && f(xs[k]).Err?
    requires forall j | 0 <= j < k :: f(xs[j]).Ok?
    ensures MapAll(xs, f) == Err(f(xs[k]).failure)
  {
    var r := MapAll(xs, f);
    assert r.Err?;
    var i :| 0 <= i < |xs| && f(xs[i]) == Err(r.failure) && forall j | 0 <= j < i :: f(xs[j]).Ok?;
    if i < k {
      assert false;
    } else if k < i {
      assert false;
    }
  }

  /** The present values of a sequence, in order (`filter(Objects::nonNull)`). */
  function Somes<T>(xs: seq<Option<T>>): (r: seq<T>)
    ensures |r| <= |xs|
    ensures forall k | 0 <= k < |xs| && xs[k].Some? :: xs[k].value in r
    ensures forall v | v in r :: Some(v) in xs
  {
    if xs == [] then []
    else
      var init := Somes(xs[..|xs| - 1]);
      assert xs == xs[..|xs| - 1] + [xs[|xs| - 1]];
      match xs[|xs| - 1]
      case None => init
      case Some(v) => init + [v]
  }

  /** Nothing present, nothing kept. */
  lemma SomesOfNones<T>(xs: seq<Option<T>>)
    requires forall k | 0 <= k < |xs| :: xs[k].None?
    ensures Somes(xs) == []
  {
  }

  /** Collecting keeps the order: the present values of a concatenation are those of its
      parts, one after the other. */
  lemma {:induction false} SomesAppend<T>(a: seq<Option<T>>, b: seq<Option<T>>)
    ensures Somes(a + b) == Somes(a) + Somes(b)
    decreases |b|
  {
    if b == [] {
      assert a + b == a;
    } else {
      SomesAppend(a, b[..|b| - 1]);
      assert (a + b)[..|a + b| - 1] == a + b[..|b| - 1];
    }
  }
}
