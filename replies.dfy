/**
 * The tagged replies of the inventory keeper. `ArgError(tp, args).format()`
 * and `CommonInformer(tp, args).format()` both give the tuple `(tp, message)`;
 * the model keeps the tag and drops the message text.
 */
module Replies {

  /** Tags the source hands to `ArgError`. */
  datatype ErrorTag =
    | HostExists
    | HostExistsInGroup
    | HostDoesNotExist
    | HostDoesNotExistsInGroup
    | GroupDoesNotExist
    | NoValidKeywordsNumber
    | NoValidKeywordsString

  /** Tags the source hands to `CommonInformer`. */
  datatype InfoTag = AddedHostToGroup | DeletedHostInGroup | DeletedGroup | DeletedHost

  /** Python exceptions that escape an operation of the core. */
  datatype Exception = IndexError | ValueError | KeyError | UnboundLocalError | NoNodeError

  /** What the add and delete operations return to `main`. */
  datatype Reply =
    | ArgError(error: ErrorTag)
    | CommonInformer(info: InfoTag)
    | ReturnedNone
    | Raised(exc: Exception)
}
