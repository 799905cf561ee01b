/** The error values the include preprocessor returns (`AppError` in
    src/error.rs), and the result type that carries them. */
module Errors {

  datatype AppError =
    | SourceNotFound(path: string)   // a file, top-level or included, could not be read
    | BuildError(message: string)    // a circular include or an unauthorized path

  datatype Result<T> = Ok(value: T) | Err(error: AppError)
}
