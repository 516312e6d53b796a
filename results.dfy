/** Option and Result values used for the error paths of the planner. */
module Results {

  datatype Option<+T> = None | Some(value: T)

  /** The outcome of an operation that the Python code ends with an exception
      (IndexError, KeyError) on some inputs. */
  datatype Result<+T, +E> = Ok(value: T) | Err(error: E)
}
