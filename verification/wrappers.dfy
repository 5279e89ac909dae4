/** Failure-carrying wrappers used throughout the matcher model. */
module Wrappers {

  /** A value that may be absent: a missing table cell, a lookup with no hit. */
  datatype Option<+T> = None | Some(value: T)

  /** The outcome of a step that can raise: either its value or the error it raises. */
  datatype Result<+T, +E> = Success(value: T) | Failure(error: E)

  /** Runs a sequence of steps in order: every value when all succeed, otherwise
      the error of the first step that failed (later steps are not reached). */
  function AllOrFirstFailure<T, E>(steps: seq<Result<T, E>>): (r: Result<seq<T>, E>)
    ensures r.Success? <==> forall i :: 0 <= i < |steps| ==> steps[i].Success?
    ensures r.Success? ==> |r.value| == |steps| && forall i :: 0 <= i < |steps| ==> steps[i] == Success(r.value[i])
    ensures r.Failure? ==> exists i :: 0 <= i < |steps| && steps[i] == Failure(r.error) && forall j :: 0 <= j < i ==> steps[j].Success?
    decreases |steps|
  {
    if |steps| == 0 then
      Success([])
    else
      var rest := AllOrFirstFailure(steps[1..]);
      assert forall i :: 1 <= i < |steps| ==> steps[i] == steps[1..][i - 1];
      match steps[0]
      case Failure(e) => Failure(e)
      case Success(v) =>
        match rest
        case Failure(e) =>
          assert exists i :: 0 <= i < |steps| && steps[i] == Failure(e) && forall j :: 0 <= j < i ==> steps[j].Success? by {
            var i :| 0 <= i < |steps[1..]| && steps[1..][i] == Failure(e) && forall j :: 0 <= j < i ==> steps[1..][j].Success?;
            assert steps[i + 1] == Failure(e);
          }
          Failure(e)
        case Success(vs) => Success([v] + vs)
  }

  /** The present values, in order. */
  function Present<T>(options: seq<Option<T>>): (r: seq<T>)
    ensures |r| <= |options|
    ensures forall j :: 0 <= j < |r| ==> exists i :: 0 <= i < |options| && options[i] == Some(r[j])
    ensures forall i :: 0 <= i < |options| && options[i].Some? ==> options[i].value in r
    ensures |r| == 0 <==> forall i :: 0 <= i < |options| ==> options[i].None?
    decreases |options|
  {
    if |options| == 0 then
      []
    else
      var rest := Present(options[1..]);
      assert forall i :: 1 <= i < |options| ==> options[i] == options[1..][i - 1];
      match options[0]
      case None => rest
      case Some(v) => [v] + rest
  }

  /** One step of AllOrFirstFailure: the first step's failure, or its value
      in front of the rest's. */
  lemma AllOrFirstFailureStep<T, E>(steps: seq<Result<T, E>>)
    requires |steps| > 0
    ensures AllOrFirstFailure(steps) ==
      match steps[0]
      case Failure(e) => Failure(e)
      case Success(v) =>
        match AllOrFirstFailure(steps[1..])
        case Failure(e) => Failure(e)
        case Success(vs) => Success([v] + vs)
  {
  }

  /** Running two sequences of steps one after the other, when the first
      fails: its failure is the failure of the whole. */
  lemma {:induction false} FailureBeforeAppend<T, E>(a: seq<Result<T, E>>, b: seq<Result<T, E>>)
    requires AllOrFirstFailure(a).Failure?
    ensures AllOrFirstFailure(a + b) == AllOrFirstFailure(a)
    decreases |a|
  {
    assert (a + b)[1..] == a[1..] + b;
    AllOrFirstFailureStep(a + b);
    AllOrFirstFailureStep(a);
    if a[0].Success? {
      FailureBeforeAppend(a[1..], b);
    }
  }

  /** Running two sequences of steps one after the other, when the first
      succeeds and the second fails: the second's failure is the failure of the
      whole. */
  lemma {:induction false} FailureAfterAppend<T, E>(a: seq<Result<T, E>>, b: seq<Result<T, E>>)
    requires AllOrFirstFailure(a).Success?
    requires AllOrFirstFailure(b).Failure?
    ensures AllOrFirstFailure(a + b) == AllOrFirstFailure(b)
    decreases |a|
  {
    if |a| == 0 {
      assert a + b == b;
    } else {
      assert (a + b)[1..] == a[1..] + b;
      AllOrFirstFailureStep(a + b);
      AllOrFirstFailureStep(a);
      FailureAfterAppend(a[1..], b);
    }
  }

  /** Running two sequences of steps one after the other, when both succeed:
      the values line up, first part first. */
  lemma SuccessAppend<T, E>(a: seq<Result<T, E>>, b: seq<Result<T, E>>)
    requires AllOrFirstFailure(a).Success?
    requires AllOrFirstFailure(b).Success?
    ensures AllOrFirstFailure(a + b) == Success(AllOrFirstFailure(a).value + AllOrFirstFailure(b).value)
  {
    var v := AllOrFirstFailure(a).value + AllOrFirstFailure(b).value;
    assert |v| == |a + b|;
    forall i | 0 <= i < |a + b|
      ensures (a + b)[i] == Success(v[i])
    {
      if i < |a| {
        assert (a + b)[i] == a[i];
      } else {
        assert (a + b)[i] == b[i - |a|];
      }
    }
    var w := AllOrFirstFailure(a + b);
    assert w.value == v;
  }

  /** The present values of two sequences one after the other are those of the
      first followed by those of the second: order is kept. */
  lemma {:induction false} PresentAppend<T>(a: seq<Option<T>>, b: seq<Option<T>>)
    ensures Present(a + b) == Present(a) + Present(b)
    decreases |a|
  {
    if |a| == 0 {
      assert a + b == b;
    } else {
      assert (a + b)[1..] == a[1..] + b;
      PresentAppend(a[1..], b);
      if a[0].Some? {
        assert [a[0].value] + (Present(a[1..]) + Present(b)) == ([a[0].value] + Present(a[1..])) + Present(b);
      }
    }
  }

  /** Steps that each yield a value, nothing, or an error: the values, in
      order, when no step fails, otherwise the first step's error. */
  function Gather<T, E>(steps: seq<Result<Option<T>, E>>): (r: Result<seq<T>, E>)
    ensures r.Success? <==> forall i :: 0 <= i < |steps| ==> steps[i].Success?
    ensures r.Failure? ==> exists i :: 0 <= i < |steps| && steps[i] == Failure(r.error) && forall j :: 0 <= j < i ==> steps[j].Success?
    ensures r.Success? ==> |r.value| <= |steps|
    ensures r.Success? ==> forall j :: 0 <= j < |r.value| ==> exists i :: 0 <= i < |steps| && steps[i] == Success(Some(r.value[j]))
    ensures r.Success? ==> forall i :: 0 <= i < |steps| && steps[i].value.Some? ==> steps[i].value.value in r.value
    ensures r.Success? ==> (|r.value| == 0 <==> forall i :: 0 <= i < |steps| ==> steps[i].value.None?)
  {
    match AllOrFirstFailure(steps)
    case Failure(e) => Failure(e)
    case Success(outcomes) => Success(Present(outcomes))
  }

  /** Gathering two sequences of steps one after the other: a failure in the
      first aborts before the second is looked at, otherwise the second's
      failure is the result, and when both succeed the values of the first
      come before those of the second. */
  lemma GatherAppend<T, E>(a: seq<Result<Option<T>, E>>, b: seq<Result<Option<T>, E>>)
    ensures Gather(a).Failure? ==> Gather(a + b) == Gather(a)
    ensures Gather(a).Success? && Gather(b).Failure? ==> Gather(a + b) == Gather(b)
    ensures Gather(a).Success? && Gather(b).Success? ==> Gather(a + b) == Success(Gather(a).value + Gather(b).value)
  {
    if AllOrFirstFailure(a).Failure? {
      FailureBeforeAppend(a, b);
    } else if AllOrFirstFailure(b).Failure? {
      FailureAfterAppend(a, b);
    } else {
      SuccessAppend(a, b);
      PresentAppend(AllOrFirstFailure(a).value, AllOrFirstFailure(b).value);
    }
  }

  /** A single step gathers to its value, to nothing, or to its error. */
  lemma GatherSingle<T, E>(step: Result<Option<T>, E>)
    ensures Gather([step]) ==
      match step
      case Failure(e) => Failure(e)
      case Success(None) => Success([])
      case Success(Some(v)) => Success([v])
  {
    AllOrFirstFailureStep([step]);
    assert [step][1..] == [];
    assert AllOrFirstFailure([step][1..]) == Success([]);
    match step
    case Failure(_) =>
    case Success(v) =>
      assert [v] + [] == [v];
      assert AllOrFirstFailure([step]) == Success([v]);
      assert [v][1..] == [];
      assert Present([v][1..]) == [];
      match v
      case None =>
      case Some(x) => assert [x] + [] == [x];
  }
}
