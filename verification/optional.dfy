/** Optional values and results: `None` stands for Python's `None`,
    `Failure` for a raised validation error. */
module Optional {

  datatype Option<+T> = None | Some(value: T)

  datatype Result<+T, +E> = Success(value: T) | Failure(error: E)
}
