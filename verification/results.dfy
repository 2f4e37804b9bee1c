/** Small value types shared by the lazy value holder and its two interfaces. */
module Results {

  /** An optional value; the class keeps its cache in one of these. */
  datatype Option<+T> = None | Some(value: T)

  /** What a call that may throw produces: it returns a value, or it throws a payload.
      The load callback's outcomes and the throwing accessors' results both have this shape;
      a thrown payload is kept as an opaque string. */
  datatype Outcome<+T> = Ok(value: T) | Err(message: string)

  /** The record that tryGetValue returns instead of throwing:
      `{ success: true, value }` or `{ success: false, errorMessage }`. */
  datatype TryResult<+T> = TrySuccess(value: T) | TryFailure(errorMessage: string)

  /** The non-throwing counterpart of an outcome: a return becomes a success record and a
      throw becomes a failure record carrying the thrown message. */
  function Capture<T>(o: Outcome<T>): (r: TryResult<T>)
    ensures r.TrySuccess? <==> o.Ok?
    ensures o.Ok? ==> r.value == o.value
    ensures o.Err? ==> r.errorMessage == o.message
  {
    match o
    case Ok(v) => TrySuccess(v)
    case Err(m) => TryFailure(m)
  }
}
