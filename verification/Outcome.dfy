/** Result types shared by the other modules. */
module Outcome {

  datatype Option<+T> = None | Some(value: T)

  /** The errors a caller can tell apart: repository.ErrNotFound, repository.ErrConflict
      and every other failure of a statement. */
  datatype Error = NotFound | Conflict | Failed

  datatype Result<+T> = Ok(value: T) | Err(error: Error)
}
