/** Failure-carrying values for the dataset loader.

    The loader reports every failure by raising; here each failure is a
    value of `Fault`, and an operation that can fail returns a `Result`.
 */
module Results {

  /** The ways a loader operation aborts. */
  datatype Fault =
      /** The two directory listings differ (the constructor's assertion). */
    | Corrupted
      /** The active split is empty, so advancing its cursor divides by zero. */
    | EmptySplit
      /** The image codec could not decode the file (it returned no array). */
    | ReadFailed
      /** A decoded raster does not have the expected 3000 x 3000 shape. */
    | BadShape

  datatype Result<+T> = Ok(value: T) | Err(error: Fault)

  /** A value that may be absent, as the image codec's result may be. */
  datatype Option<+T> = None | Some(value: T)
}
