/** Results of operations that can fail, with the error kinds the service distinguishes. */
module Wrappers {

  datatype Option<+T> = None | Some(value: T)

  datatype Error = NotFound | Forbidden | BadRequest | Failure

  datatype Result<+T> = Ok(value: T) | Err(error: Error)
}
