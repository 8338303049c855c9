/** Values that may be missing, and computations that may raise an exception. */
module Options {
  datatype Option<T> = None | Some(value: T)

  datatype Result<T> = Raised | Ok(value: T)
}
