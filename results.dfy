/** Failure-carrying results: the model's stand-in for the scripts' `sys.exit(1)`
    paths and for pandas values that may be missing. */
module Results {

  datatype Option<+T> = None | Some(value: T)

  datatype Result<+T, +E> = Ok(value: T) | Err(error: E)
}
