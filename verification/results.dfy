/** Failure-compatible wrappers and the error kinds the retrieval code raises. */
module Results {

  /** A value that may be absent: a dictionary key that was never set. */
  datatype Option<+T> = None | Some(value: T)

  /** The exceptions of the Python code, one constructor per kind that can reach a caller. */
  datatype Error =
    | InvalidApi(api: string)                       // ValueError("Invalid API type: ...")
    | MissingMatch                                  // IndexError: too few regex matches on an intro line
    | MissingKey(key: string)                       // KeyError on the metadata dictionary
    | DivisionByZero                                // ZeroDivisionError in the page-count division
    | UnreadableTable                               // pd.read_csv raised on the assembled text
    | RowCountMismatch(expected: nat, actual: nat)  // AssertionError of the final row-count check

  /** A computation that either succeeds with a value or raises one of the errors above. */
  datatype Result<+R> = Success(value: R) | Failure(error: Error) {

    predicate IsFailure() {
      Failure?
    }

    function PropagateFailure<U>(): Result<U>
      requires Failure?
    {
      Failure(error)
    }

    function Extract(): R
      requires Success?
    {
      value
    }
  }

  /** Dictionary lookup `info[key]`: a missing key raises KeyError. */
  function Lookup<T>(o: Option<T>, key: string): (r: Result<T>)
    ensures r.Success? <==> o.Some?
    ensures r.Success? ==> r.value == o.value
    ensures r.Failure? ==> r.error == MissingKey(key)
  {
    match o
    case Some(v) => Success(v)
    case None => Failure(MissingKey(key))
  }
}
