/** Failure-carrying values shared by every module of the model. */
module Base {

  /** An optional value. For pixel values `None` stands for IEEE NaN or a
      masked (nodata) pixel; for lookups it stands for "no match". */
  datatype Option<+T> = None | Some(value: T)

  /** The outcome of an operation that the source may abort with an
      exception. */
  datatype Result<+T, +E> = Success(value: T) | Failure(error: E)
}
