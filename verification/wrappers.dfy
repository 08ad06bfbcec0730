/** Failure-carrying datatypes and the error vocabulary shared by every
    component of the model. The source returns Go `error` values built from
    a handful of code families (ptl codes, commerr sentinels, package-level
    sentinels); here each family member is one constructor of `Code`. */
module Wrappers {

  datatype Option<+T> = None | Some(value: T)

  /** Error codes used across the repository. */
  datatype Code =
    // ptl codes (syncer and its reducers)
    | NotExists | Exists | Conflict | Logic | Unknown | LabelExists
    // commerr sentinels (accounts, traffic packages)
    | NotFound | AlreadyExists | OutOfRange | Reject | InvalidArgument
    | ResourceExhausted | Aborted | Internal
    // wallet sentinels and redis script error replies
    | Failed | BadData | NoCoins | Stop | ScriptError(reply: string)
    // strconv errors
    | Syntax | Range
    // an I/O failure of an external store
    | Io

  datatype Result<+T> = Ok(value: T) | Err(code: Code)
}
