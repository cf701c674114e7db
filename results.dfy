/** Option and Result values shared by the dev-server model, and the ways a step can fail. */
module Results {

  datatype Option<T> = None | Some(value: T)

  /** Why a step of the dev server throws or rejects instead of producing a value. */
  datatype Failure =
    | ManifestMissing        // `require` of the dependency manifest finds no file
    | ReplacementNotString   // MagicString.overwrite is handed `undefined` as content
    | ZeroLengthRange        // MagicString.overwrite is asked to overwrite an empty span

  datatype Result<T> = Ok(value: T) | Err(error: Failure)
}
