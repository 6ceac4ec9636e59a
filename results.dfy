/** Option and Result, plus the "stop at the first failure" reading of a loop
    that throws on the first bad element it meets. */
module Results {

  datatype Option<+T> = None | Some(value: T)

  datatype Result<+T, +E> = Success(value: T) | Failure(error: E)

  /** Index of the first failing element, if there is one. */
  function FirstFailure<T, E>(rs: seq<Result<T, E>>): (r: Option<nat>)
    ensures r.Some? ==> r.value < |rs| && rs[r.value].Failure?
    ensures r.Some? ==> forall j :: 0 <= j < r.value ==> rs[j].Success?
    ensures r.None? <==> forall j :: 0 <= j < |rs| ==> rs[j].Success?
  {
    if |rs| == 0 then None
    else if rs[0].Failure? then Some(0)
    else match FirstFailure(rs[1..])
      case None => None
      case Some(k) => Some(k + 1)
  }

  /** A failing element at k, preceded only by successes, is the first failure. */
  lemma FirstFailureAt<T, E>(rs: seq<Result<T, E>>, k: nat)
    requires k < |rs| && rs[k].Failure?
    requires forall j :: 0 <= j < k ==> rs[j].Success?
    ensures FirstFailure(rs) == Some(k)
  {
  }

  /** A loop that collects the values of the first k successes keeps
      collecting them when the next element succeeds as well. */
  lemma SuccessesExtend<T, E>(rs: seq<Result<T, E>>, vs: seq<T>, v: T)
    requires |vs| < |rs| && rs[|vs|] == Success(v)
    requires forall j :: 0 <= j < |vs| ==> rs[j] == Success(vs[j])
    ensures forall j :: 0 <= j < |vs| + 1 ==> rs[j] == Success((vs + [v])[j])
  {
  }

  /** The values of the elements, in order, when every element succeeded;
      otherwise the error of the first element that failed. */
  function Collect<T, E>(rs: seq<Result<T, E>>): (r: Result<seq<T>, E>)
    ensures r.Success? <==> FirstFailure(rs).None?
    ensures r.Success? ==> |r.value| == |rs|
    ensures r.Success? ==> forall j :: 0 <= j < |rs| ==> r.value[j] == rs[j].value
    ensures r.Failure? ==> r.error == rs[FirstFailure(rs).value].error
  {
    if |rs| == 0 then Success([])
    else if rs[0].Failure? then Failure(rs[0].error)
    else match Collect(rs[1..])
      case Failure(e) => Failure(e)
      case Success(vs) => Success([rs[0].value] + vs)
  }

  /** All elements succeeded with the values `vs`: Collect gives `vs`. */
  lemma {:induction false} CollectAllSucceed<T, E>(rs: seq<Result<T, E>>, vs: seq<T>)
    requires |vs| == |rs|
    requires forall j :: 0 <= j < |rs| ==> rs[j] == Success(vs[j])
    ensures Collect(rs) == Success(vs)
  {
    if |rs| > 0 {
      CollectAllSucceed(rs[1..], vs[1..]);
      assert vs == [vs[0]] + vs[1..];
    }
  }

  /** A failure at k preceded only by successes: Collect gives its error. */
  lemma {:induction false} CollectStopsAt<T, E>(rs: seq<Result<T, E>>, k: nat)
    requires k < |rs| && rs[k].Failure?
    requires forall j :: 0 <= j < k ==> rs[j].Success?
    ensures Collect(rs) == Failure(rs[k].error)
  {
    if k > 0 {
      CollectStopsAt(rs[1..], k - 1);
    }
  }
}
