/** Failure-carrying values used by the p0f client model: Go's `(value, error)`
    pairs become a `Result`, and Go's nil-able projections become an `Option`. */
module Results {

  datatype Option<+T> = None | Some(value: T)

  datatype Result<+T, +E> = Ok(value: T) | Err(error: E)
}
