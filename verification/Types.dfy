/** Values shared by every module of the model. */
module Types {

  /** An instant, in nanoseconds since Go's zero time; converting to UTC is the identity. */
  type Time = int

  /** A span of time in nanoseconds. */
  type Duration = int

  /** The instant for which `time.Time.IsZero` holds. */
  const ZERO_TIME: Time := 0

  const SECOND: Duration := 1_000_000_000

  datatype Option<+T> = None | Some(value: T)

  datatype Result<+T, +E> = Ok(value: T) | Err(error: E)

  /** All elements of `xs` but the last. */
  function Front<T>(xs: seq<T>): seq<T>
    requires xs != []
  {
    xs[..|xs| - 1]
  }

  function Last<T>(xs: seq<T>): T
    requires xs != []
  {
    xs[|xs| - 1]
  }

  function Min(a: int, b: int): int {
    if a < b then a else b
  }

  predicate NoDuplicates<T(==)>(xs: seq<T>) {
    forall i, j :: 0 <= i < j < |xs| ==> xs[i] != xs[j]
  }
}
