/** Failure-carrying result types used in place of null references and exceptions. */
module Wrappers {

  /** A value that may be absent: the model of a nullable reference. */
  datatype Option<+T> = None | Some(value: T)

  /** Either a value or the error that the original code would have thrown. */
  datatype Result<+R, +E> = Success(value: R) | Failure(error: E)

  /** Success without a value, or the error thrown. */
  datatype Outcome<+E> = Pass | Fail(error: E)
}

/** The exceptions the snapshot reader can raise, as values. */
module Faults {

  datatype Fault =
      /** ReadPointer: the virtual machine's pointer size is neither 4 nor 8 (ArgumentException). */
    | UnexpectedPointerSize(pointerSize: int)
      /** BitConverter: fewer than `width` bytes remain at `offset` (ArgumentException / ArgumentOutOfRangeException). */
    | ReadOutOfRange(offset: int, width: int, length: int)
      /** Dictionary.Add with a key that is already present (ArgumentException). */
    | DuplicateKey(key: int)
      /** Dictionary indexer with a missing key (KeyNotFoundException). */
    | KeyNotFound(key: int)
      /** List indexer out of bounds (ArgumentOutOfRangeException). */
    | IndexOutOfRange(index: int)
      /** string.Remove with a negative start index (ArgumentOutOfRangeException). */
    | NegativeStartIndex(startIndex: int)
}
