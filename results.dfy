/**
 * Values shared by the models of CollectionUtils and StringUtil: a nullable
 * reference (Option), the exceptions the utilities throw (Error) and the
 * outcome of an operation that may throw (Result).
 */
module Results {

  /** A Java reference that may be null: `None` stands for `null`. */
  datatype Option<+T> = None | Some(value: T)

  /**
   * Every failure of the core is a `java.lang.IllegalArgumentException`; the
   * model keeps apart where it is thrown.
   */
  datatype Error =
    /** An explicit `throw new IllegalArgumentException(message)` of the utility itself. */
    | IllegalArgument(message: string)
    /** `new ArrayList<>(capacity)` with a negative capacity ("Illegal Capacity"). */
    | IllegalCapacity(capacity: int)

  /** The outcome of a call: its return value, or the exception it throws. */
  datatype Result<+T> = Ok(value: T) | Err(error: Error)
}
