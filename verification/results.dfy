/** The outcome of an operation that may halt the kernel with `panic`. */
module Results {

  /** `Ok` carries the operation's result; `Panic` carries the message the
      kernel would print before halting. */
  datatype Result<+T> = Ok(value: T) | Panic(msg: string)
}
