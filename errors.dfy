/** Error kinds of the crate, the success-or-error outcome every operation returns,
    and an optional value. */
module Errors {

  /** One constructor per variant of the crate's error enum; the variants that carry a
      message keep it as a string. */
  datatype CompressError =
    | EmptyInput
    | InvalidMethod
    | HuffmanError(msg: string)
    | Lz4Error(msg: string)
    | EntropyError(msg: string)
    | SemanticError(msg: string)
    | SizeMismatch(expected: nat, actual: nat)
    | RyzansteinError(msg: string)
    | IoError(msg: string)
    | SerializationError(msg: string)

  datatype Result<T> = Ok(value: T) | Err(error: CompressError)

  datatype Option<T> = None | Some(value: T)
}
