/** Optional values and validation results, used by every module of the model. */
module Wrappers {

  /** A nullable column, an absent row or a missing request field. */
  datatype Option<+T> = None | Some(value: T)

  /** The outcome of a form `clean_<field>` method: the cleaned value, or the
      message of the `ValidationError` it raises. */
  datatype Result<+T> = Ok(value: T) | Err(message: string)

  function Max(a: int, b: int): int
  {
    if a < b then b else a
  }
}
