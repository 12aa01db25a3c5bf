/** Return codes and the failure-carrying wrappers shared by the storage stack. */
module DbError {

  /** A nullable value: None stands for a NULL pointer or "not found". */
  datatype Option<T> = None | Some(value: T)

  /** The return codes the modelled operations hand back to their callers. */
  datatype RC =
    | Ok
    | FileNotFound
    | FileHandleNotInit
    | WriteFailed
    | ReadNonExistingPage
    | PageNotFound
    | InvalidParameter
    | ImKeyNotFound
    | ImNoMoreEntries
    | RmNoMoreTuples

  /** A value or the return code that explains why there is none. */
  datatype Result<T> = Success(value: T) | Failure(error: RC)
}
