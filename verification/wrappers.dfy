/** Optional values and results shared by the model.

    `Option` stands for a JavaScript value that may be `undefined` (an absent
    error field, an unset environment variable, a file that could not be read);
    `Result` stands for a computation that either returns or throws. */
module Wrappers {

  datatype Option<+T> = None | Some(value: T)

  datatype Result<+T, +E> = Ok(value: T) | Err(error: E)
}
