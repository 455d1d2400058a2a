/**
  The two generic shapes the model is written in: a value that may be absent
  (a JavaScript `undefined` option) and an outcome that is a value or an error
  (a call that returns or throws).
 */
module Outcomes {

  datatype Option<+T> = None | Some(value: T)

  datatype Result<+R, +E> = Success(value: R) | Failure(error: E)

  /** The given value, or `fallback` when there is none. */
  function ValueOr<T>(o: Option<T>, fallback: T): (r: T)
    ensures o.Some? ==> r == o.value
    ensures o.None? ==> r == fallback
  {
    if o.Some? then o.value else fallback
  }

  /** The same outcome, with an error translated by `translate` and a value left alone. */
  function MapError<R, E, E2>(res: Result<R, E>, translate: E -> E2): (r: Result<R, E2>)
    ensures res.Success? <==> r.Success?
    ensures res.Success? ==> r.value == res.value
    ensures res.Failure? ==> r.error == translate(res.error)
  {
    if res.Success? then Success(res.value) else Failure(translate(res.error))
  }
}
