/** Optional values and fallible results, the shapes Rust's `Option` and
    `Result` take throughout the mailer crate. */
module Wrappers {

  datatype Option<+T> = None | Some(value: T)

  datatype Result<+T, +E> = Ok(value: T) | Err(error: E)
}
