/** Option and Result values for the operations that can fail in the source
    (an index error on a malformed key, an aggregate over an empty list). */
module Wrappers {

  datatype Option<+T> = None | Some(value: T)

  /** The exceptions the modelled code lets escape. */
  datatype Error =
    | MissingVersionSeparator(key: string)   // `Split('/')[1]` on a key without '/'
    | MissingTarget(framework: string)       // the fixed target framework is absent
    | EmptySequence                          // LINQ `Max`/`Average` over no packages

  datatype Result<+T> = Ok(value: T) | Err(error: Error)
}
