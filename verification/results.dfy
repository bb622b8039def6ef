/** Failure-compatible wrappers shared by every module of the model.
    `Option` stands for a pointer that may be null or a value that may be
    absent; `Result` carries either a value or the error the source would
    report, and both work with Dafny's `:-` operator. */
module Results {

  datatype Option<+T> = None | Some(value: T) {
    predicate IsFailure() { None? }

    function PropagateFailure<U>(): Option<U>
      requires None?
    {
      None
    }

    function Extract(): T
      requires Some?
    {
      value
    }
  }

  datatype Result<+T, +E> = Success(value: T) | Failure(error: E) {
    predicate IsFailure() { Failure? }

    function PropagateFailure<U>(): Result<U, E>
      requires Failure?
    {
      Failure(error)
    }

    function Extract(): T
      requires Success?
    {
      value
    }
  }

  /** The values of a sequence of results, or the first failure among them. */
  function Collect<T, E>(rs: seq<Result<T, E>>): (r: Result<seq<T>, E>)
    ensures r.Success? ==> |r.value| == |rs| && forall k :: 0 <= k < |rs| ==> rs[k] == Success(r.value[k])
    ensures r.Failure? ==>
      exists k :: 0 <= k < |rs| && rs[k] == Failure(r.error) && (forall j :: 0 <= j < k ==> rs[j].Success?)
  {
    if |rs| == 0 then Success([])
    else match rs[0]
      case Failure(e) => Failure(e)
      case Success(v) =>
        match Collect(rs[1..])
        case Failure(e) =>
          ghost var k :| 0 <= k < |rs[1..]| && rs[1..][k] == Failure(e) && forall j :: 0 <= j < k ==> rs[1..][j].Success?;
          assert rs[k + 1] == Failure(e);
          Failure(e)
        case Success(vs) =>
          assert forall k :: 1 <= k < |rs| ==> rs[k] == rs[1..][k - 1];
          Success([v] + vs)
  }
}
