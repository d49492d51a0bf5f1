/** Failure-carrying values shared by the model of embedding_gym/core.py. */
module Wrappers {

  /** A value that may be missing: the outcome of a conversion that can fail. */
  datatype Option<+T> = None | Some(value: T)

  /** The Python exceptions the modelled code can raise. */
  datatype Error =
    | AssertionError     // `assert len(embeddings) == len(index2word)` failed
    | KeyError(key: string)  // a query word is not in the vocabulary
    | IndexError         // `line.split()[0]` on a line with no tokens

  /** Either a value or the exception that was raised instead. */
  datatype Result<+T> = Ok(value: T) | Err(error: Error)
}
