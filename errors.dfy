/** The failures that the wrapper raises towards its callers, and the result
    type that carries either a value or one of them. */
module Errors {

  datatype Option<+T> = None | Some(value: T)

  /** The exceptions the wrapper raises itself (messages are not modelled). */
  datatype Error =
    | WildcardRejected(arg: string)   // an icontract precondition of ls/cp/rm failed
    | NotCloudUrl                     // ValueError of ls and rm for a local address
    | NeedsRecursive                  // ValueError: "... (Did you mean to do cp recursive?)"
    | NothingMatched                  // ValueError: "No URL matched. Cannot remove ..."
    | BucketNotFound(name: string)    // NotFound raised by the storage client's get_bucket
    | NotADirectory(path: string)     // NotADirectoryError of mkdir or open: the path lies below a file
    | FileNotFound(path: string)      // FileNotFoundError of open: the parent directory is missing

  datatype Result<+T> = Ok(value: T) | Err(error: Error)
}
