/**
 * Result types shared by every module.
 *
 * The front-end runs its logic inside Effect generators. Three things can
 * come out of such a run, and the model keeps them apart:
 *  - a success (`Ok`) or a typed failure raised with `yield*` (`Fail`);
 *  - a "silent reject": a generator that writes `return Effect.fail(..)`
 *    instead of `yield* Effect.fail(..)` stops early but is still a success
 *    for its caller (`Rejected`);
 *  - a thrown exception (a brand refinement that does not hold, an `assert`,
 *    `Option.getOrThrow` on none, `runSync` of a failing effect), which
 *    Effect reports as a defect (`Defect`).
 */
module Wrappers {
  datatype Option<+T> = None | Some(value: T)

  datatype Outcome<+T, +E> =
    | Ok(value: T)
    | Fail(error: E)
    | Rejected
    | Defect
  {
    /** What the caller of the effect observes as success. */
    predicate Succeeded() { Ok? || Rejected? }
  }

  /**
   * A failed outcome seen at another success type: `yield*` of a failure or
   * a defect stops the caller with the same failure or defect.
   */
  function Propagate<T, U, E>(o: Outcome<T, E>): (r: Outcome<U, E>)
    requires !o.Succeeded()
    ensures !r.Succeeded()
    ensures r.Fail? <==> o.Fail?
    ensures r.Fail? ==> r.error == o.error
  {
    match o
    case Fail(e) => Fail(e)
    case Defect => Defect
  }

  /** An optional property over a default: `{ ...defaults, ...props }` for one field. */
  function GetOr<T>(o: Option<T>, d: T): (r: T)
    ensures o.Some? ==> r == o.value
    ensures o.None? ==> r == d
  {
    match o
    case None => d
    case Some(v) => v
  }

  function OptionToSeq<T>(o: Option<T>): (r: seq<T>)
    ensures |r| <= 1
    ensures o.Some? <==> |r| == 1
    ensures o.Some? ==> r[0] == o.value
  {
    match o
    case None => []
    case Some(v) => [v]
  }
}
