/** Failure-carrying values shared by the model's operations. */
module Results {

  datatype Option<+T> = None | Some(value: T)

  /** The outcome of an operation that can fail. `Err` carries the context
      label the source attaches to the failing step (`.context("open")`). */
  datatype Result<+T> = Ok(value: T) | Err(context: string)
}
