/** Optional values and success/failure results, used wherever the Python
    code returns `None` or raises an exception. */
module Wrappers {

  datatype Option<+T> = None | Some(value: T) {

    /** The wrapped value, or `default` when there is none (Python's `dict.get(k, default)`). */
    function GetOr(default: T): T {
      match this
      case Some(v) => v
      case None => default
    }
  }

  /** `Failure` stands for a Python exception escaping the modelled function. */
  datatype Result<+R, +E> = Success(value: R) | Failure(error: E)

  /** Runs a sequence of steps that may raise: every value when all succeed,
      otherwise the first failure (a Python loop that stops at the first
      exception). */
  function AllOrFirstFailure<R, E>(rs: seq<Result<R, E>>): (r: Result<seq<R>, E>)
    ensures r.Failure? <==> exists k :: 0 <= k < |rs| && rs[k].Failure?
    ensures r.Failure? ==> exists k :: 0 <= k < |rs| && rs[k] == Failure(r.error)
                                       && forall j :: 0 <= j < k ==> rs[j].Success?
    ensures r.Success? ==> |r.value| == |rs| && forall k :: 0 <= k < |rs| ==> rs[k] == Success(r.value[k])
  {
    if |rs| == 0 then Success([])
    else
      var rest := AllOrFirstFailure(rs[1..]);
      assert forall k :: 1 <= k < |rs| ==> rs[1..][k - 1] == rs[k];
      if rs[0].Failure? then Failure(rs[0].error)
      else if rest.Failure? then
        assert exists k :: 0 <= k < |rs| && rs[k] == Failure(rest.error) && forall j :: 0 <= j < k ==> rs[j].Success? by {
          var k :| 0 <= k < |rs[1..]| && rs[1..][k] == Failure(rest.error) && forall j :: 0 <= j < k ==> rs[1..][j].Success?;
          assert rs[k + 1] == Failure(rest.error);
          assert forall j :: 0 <= j < k + 1 ==> rs[j].Success? by {
            forall j | 0 <= j < k + 1 ensures rs[j].Success? {
              if j > 0 { assert rs[1..][j - 1] == rs[j]; }
            }
          }
        }
        Failure(rest.error)
      else Success([rs[0].value] + rest.value)
  }
}
