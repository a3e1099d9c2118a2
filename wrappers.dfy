/** Failure-compatible Option and Result types used throughout the model. */
module Wrappers {

  datatype Option<+T> = None | Some(value: T)

  datatype Result<+T, +E> = Ok(value: T) | Err(error: E) {
    predicate IsFailure() {
      Err?
    }

    function PropagateFailure<U>(): Result<U, E>
      requires Err?
    {
      Err(error)
    }

    function Extract(): T
      requires Ok?
    {
      value
    }
  }

  /** Collects a sequence of results: all the values when every result is Ok,
      otherwise the first error in order (the first child that fails to convert). */
  function AllOk<T, E>(rs: seq<Result<T, E>>): (r: Result<seq<T>, E>)
    ensures r.Ok? <==> forall i | 0 <= i < |rs| :: rs[i].Ok?
    ensures r.Ok? ==> |r.value| == |rs| && forall i | 0 <= i < |rs| :: r.value[i] == rs[i].value
    ensures r.Err? ==> exists k | 0 <= k < |rs| :: rs[k] == Err(r.error) && forall j | 0 <= j < k :: rs[j].Ok?
  {
    if rs == [] then Ok([])
    else if rs[0].Err? then Err(rs[0].error)
    else
      match AllOk(rs[1..])
      case Ok(vs) => Ok([rs[0].value] + vs)
      case Err(e) => assert rs[1..][0] == rs[1]; Err(e)
  }

  /** AllOk of results that are all Ok gives exactly their values. */
  lemma AllOkValues<T, E>(rs: seq<Result<T, E>>, vs: seq<T>)
    requires |rs| == |vs| && forall i | 0 <= i < |rs| :: rs[i] == Ok(vs[i])
    ensures AllOk(rs) == Ok(vs)
  {
    var r := AllOk(rs);
    assert r.Ok?;
    assert r.value == vs;
  }
}
