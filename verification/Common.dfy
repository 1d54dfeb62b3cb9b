/** Optional values, results and the error kinds the registries report. */
module Common {

  datatype Option<+T> = None | Some(value: T)

  datatype Error = InvalidInput | NotFound | Internal

  datatype Result<+T> = Ok(value: T) | Err(error: Error)
}
