/** Failure-compatible result types shared by every module of the model. */
module Wrappers {

  datatype Option<+T> = None | Some(value: T)

  datatype Result<+R, +E> = Success(value: R) | Failure(error: E)

  /** An HTTP error as raised through FastAPI's HTTPException. */
  datatype HttpError = HttpError(status: int)
}
