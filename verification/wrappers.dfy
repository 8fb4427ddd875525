/** Failure-carrying datatypes shared by the whole model.

    The Kotlin code signals most of its error paths by throwing: a `!!` on a
    null value, `first { }` on a collection with no match, `toInt()` on a
    string that is not a number, `substring` past the end, a date pattern
    that cannot read its text, a `lateinit` property read before it was set. Each of those is modelled as a
    `Failure` carrying the exception kind, never as a precondition.
 */
module Wrappers {

  /** Kotlin's nullable type `T?`. */
  datatype Option<+T> = None | Some(value: T) {
    function GetOr(default: T): T {
      match this
      case Some(v) => v
      case None => default
    }
  }

  /** The JVM exceptions the modelled code can raise. */
  datatype Crash =
    | NullDereference        // `!!` applied to null
    | NoSuchElement          // `first { }` with no matching element
    | NumberFormat           // `toInt()` on a string that is not an integer
    | IndexOutOfBounds       // `substring` past the end of the string
    | UninitializedProperty  // a `lateinit` property read before assignment
    | DateParse              // `SimpleDateFormat.parse` on text its pattern cannot read

  /** Either the value an operation produced or the exception it threw. */
  datatype Result<+T> = Success(value: T) | Failure(error: Crash) {
    predicate IsFailure() {
      Failure?
    }

    function PropagateFailure<U>(): Result<U>
      requires Failure?
    {
      Failure(error)
    }

    function Extract(): T
      requires Success?
    {
      value
    }
  }

  /** `x!!`: the value, or a `NullDereference` crash. */
  function Deref<T>(x: Option<T>): (r: Result<T>)
    ensures r.Success? <==> x.Some?
    ensures r.Success? ==> r.value == x.value
    ensures r.Failure? ==> r.error == NullDereference
  {
    match x
    case Some(v) => Success(v)
    case None => Failure(NullDereference)
  }
}
