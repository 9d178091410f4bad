/** How Java's null references and thrown exceptions appear in the model.
    A nullable field or an `Optional` lookup is an `Option`; a method that
    either returns or throws yields a `Result`; a void check that either
    completes or throws yields a `Check`.
 */
module JavaValues {

  /** A reference that may be null, or an `Optional` that may be empty: None is null. */
  datatype Option<+T> = None | Some(value: T)

  /** A call that returns `value`, or throws the exception `error`. */
  datatype Result<+T, +E> = Ok(value: T) | Err(error: E)

  /** A void call that completes normally, or throws the exception `error`. */
  datatype Check<+E> = Pass | Fail(error: E)
}
