/** The two sum types the Rust code leans on everywhere: `Option` and `Result`. */
module Prelude {

  /** Rust's `Option<T>`. */
  datatype Option<T> = None | Some(value: T)

  /** Rust's `Result<T, E>`; a panic of the source is modelled as an `Err`. */
  datatype Result<T, E> = Ok(value: T) | Err(error: E)
}
