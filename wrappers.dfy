/** Option and Result stand for the places where the bot returns None or raises. */
module Wrappers {

  datatype Option<T> = None | Some(value: T)

  datatype Result<T, E> = Ok(value: T) | Err(error: E)

  /** The Python exceptions the modelled code can raise. */
  datatype Fault =
    | KeyError        // a `goal` name missing from the goal table
    | ValueError      // max() or min() of an empty iterable
    | AttributeError  // `.name` of a comment whose author is None
}
