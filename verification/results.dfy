/**
 Failure-compatible wrappers shared by every module of the model. Python
 signals failure by raising; the model returns `Err` with the exception's
 kind instead, so each error path is a value the contracts can talk about.
 */
module Results {

  datatype Option<+T> = None | Some(value: T)

  datatype Result<+T, +E> = Ok(value: T) | Err(error: E)
}
