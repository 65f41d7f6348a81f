/** Outcomes of the dictionary operations: the checked exceptions of the
    `exception` package become error values. */
module Results {

  datatype Option<+T> = None | Some(value: T)

  /** The dictionary's recoverable error kinds, each naming the offending key. */
  datatype DictError =
    | NoWordFound(word: string)
    | WordAlreadyExists(word: string)
    | NoTagFound(tag: string)
    | NoSynonymFound(word: string)

  /** A value, or the exception the Java method throws instead of returning. */
  datatype Result<+T> = Ok(value: T) | Err(error: DictError)

  /** Result of a `void` method that may throw. */
  datatype Outcome = Pass | Fail(error: DictError)
}
