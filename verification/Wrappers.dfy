module Wrappers {
  datatype Option<+T> = None | Some(value: T)

  /** The exceptions the modelled operations can raise. */
  datatype Error = TypeError | ValueError | StructError | OSError | IsADirectoryError | RuntimeError

  datatype Result<+T> = Ok(value: T) | Err(error: Error)
}
