/** Failure-compatible result types and the error kinds raised by the item location
    table and the derived-image writer (the source throws; the model returns). */
module Wrappers {

  datatype Option<+T> = None | Some(value: T)

  /** Why an operation or a parse was rejected, with the key that triggered it. */
  datatype Error =
    | DuplicateItem(itemId: nat)
    | ItemNotFound(itemId: nat)
    | UnresolvedReference(context: nat, index: nat)
    | ArityMismatch(left: nat, right: nat)
    | InvalidFieldWidth(code: nat)
    | InvalidConstructionMethod(code: nat)
    | UnsupportedVersion(version: nat)
    | PropertyNotFound(itemId: nat)
    | DerivationNotFound(uniqBsid: nat)
    | Truncated

  /** A Success/Failure type usable with `:-`. */
  datatype Result<+T> = Success(value: T) | Failure(error: Error) {

    predicate IsFailure() {
      Failure?
    }

    function PropagateFailure<U>(): Result<U>
      requires Failure?
    {
      Failure(error)
    }

    function Extract(): T
      requires Success?
    {
      value
    }
  }
}
