/** Small shared vocabulary: an optional value and the exceptions the modelled
    code can raise. */
module Base {

  /** A value that may be absent: a null reference, a lock that cannot be
      granted, an unset enumerator position. */
  datatype Option<T> = None | Some(value: T)

  /** The .NET exceptions that reach callers of the collection. */
  datatype Fault =
    | ArgumentOutOfRange   // an index check of List<T>/Collection<T>, or a negative copy offset
    | ArgumentNull         // CopyTo with a null destination array
    | Argument             // CopyTo with a destination too short for the contents
    | SynchronizationLock  // ExitReadLock/ExitWriteLock by a caller that does not hold that mode
}
