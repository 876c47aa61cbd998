/** The exceptions the patch augmentation can raise, and a result type that
    carries either a value or the first exception raised. */
module Outcomes {

  /** The failures of the augmentation, each named after what Python or the
      image library raises. */
  datatype Failure =
    | ZeroDivision      // `//` or `%` by a zero patch dimension or a zero column count
    | ZeroRangeStep     // `range(0, n, 0)` with a zero patch dimension
    | ResizeRefused     // the image library refuses to resize to or from an empty size
    | SampleOutOfRange  // `random.sample` with a count below zero or above the population
    | CannotUnpack      // a patch image unpacked as a `(patch, rv)` pair

  datatype Result<+T> = Ok(value: T) | Err(failure: Failure)

  /** The results of the steps `f(0)`, ..., `f(n - 1)` taken in order, as a
      loop that raises on the first failing step does: every value when all
      steps succeed, otherwise the failure of the first step that fails. */
  function Collect<X>(f: nat -> Result<X>, n: nat): (r: Result<seq<X>>)
    ensures r.Ok? <==> forall i :: 0 <= i < n ==> f(i).Ok?
    ensures r.Ok? ==> |r.value| == n && forall i :: 0 <= i < n ==> f(i) == Ok(r.value[i])
    ensures r.Err? ==> exists i :: 0 <= i < n && f(i) == Err(r.failure) && forall j :: 0 <= j < i ==> f(j).Ok?
  {
    if n == 0 then Ok([])
    else
      match Collect(f, n - 1)
      case Err(e) => Err(e)
      case Ok(xs) =>
        match f(n - 1)
        case Err(e) => Err(e)
        case Ok(x) => Ok(xs + [x])
  }
}
