/** `Option` stands for the PHP answers `null` and `false` ("no such user",
    "no such role"); `Result` for a call that either returns its value or
    throws, the exception's message being the `Failure`. */
module Options {
  datatype Option<T> = None | Some(value: T)

  datatype Result<T, E> = Success(value: T) | Failure(error: E)
}
