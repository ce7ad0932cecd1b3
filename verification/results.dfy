/** Optional values and fallible results, the two shapes the daemon's Rust code
    returns through `Option` and `Result`. */
module Results {

  datatype Option<+T> = None | Some(value: T)

  datatype Result<+T, +E> = Ok(value: T) | Err(error: E)
}
