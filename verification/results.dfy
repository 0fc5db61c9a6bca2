/** Rust's `Option` and `Result`, the two failure-carrying types every driver
    and the mailbox return. */
module Results {

  datatype Option<+T> = None | Some(value: T)

  datatype Result<+T, +E> = Ok(value: T) | Err(error: E)
}
