/** Optional values and the failures the scripts can raise, as values. */
module Results {

  /** An optional field: `None` stands for the empty cell `''` of the
      reference table. */
  datatype Option<+T> = None | Some(value: T)

  /** The exceptions the scripts raise on the paths this model covers. */
  datatype Error =
    | InvalidRational          // `Decimal` division by a zero seconds denominator
    | MissingTag(tag: nat)     // `KeyError` reading a GPS tag the image lacks
    | MalformedValue           // a GPS tag whose value is not a rational triple
    | LookupMiss(key: string)  // `KeyError` looking up a location key
    | InvalidDecimal           // `Decimal('')` on an empty reference cell

  datatype Result<+T> = Ok(value: T) | Err(error: Error) {

    predicate IsFailure() {
      Err?
    }

    function PropagateFailure<U>(): Result<U>
      requires Err?
    {
      Err(error)
    }

    function Extract(): T
      requires Ok?
    {
      value
    }
  }
}
