/** Failure-carrying datatypes shared by every stage of the pipeline model.
    `Error` lists the exceptions the modelled Python code raises or lets escape. */
module Base {

  datatype Option<+T> = None | Some(value: T)

  datatype Error =
    | ZeroDivision                          // `ZeroDivisionError` in the chunk-size formula
    | IndexOutOfRange                       // `IndexError` on a too-short row
    | NotAString                            // `TypeError`: text expected where another value sits
    | FileNotFound                          // `FileNotFoundError` for a missing metadata file
    | MissingVectors                        // collection has no dense vector configuration
    | VectorsMismatch                       // dense vector names are not exactly [model name]
    | MissingSparseVectors                  // collection has no sparse vector configuration
    | SparseMismatch                        // sparse vector names are not exactly ["bm25"]
    | UnmatchedChunks(keys: seq<string>)    // sections left over after ToC matching

  datatype Result<+T> = Ok(value: T) | Err(error: Error) {
    predicate IsFailure() { Err? }

    function PropagateFailure<U>(): Result<U>
      requires Err?
    {
      Err(error)
    }

    function Extract(): T
      requires Ok?
    {
      value
    }
  }
}
