/** Small result types shared by the model. */
module Wrappers {

  /** An optional value (Rust's `Option`). */
  datatype Option<+T> = None | Some(value: T)

  /**
   * The outcome of a computation that may abort. `Panic` stands for a Rust
   * panic, such as slicing a string with a start index past its end index.
   */
  datatype Outcome<+T> = Ok(value: T) | Panic
}
