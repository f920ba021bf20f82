/** Value-or-absent and value-or-error results, standing for java.util.Optional and for
    the RuntimeExceptions the services throw on a broken business rule. */
module Wrappers {

  datatype Option<+T> = None | Some(value: T)

  datatype Result<+T, +E> = Ok(value: T) | Err(error: E)
}
