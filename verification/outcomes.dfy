/** Error kinds and result wrappers of the partition table. */
module Outcomes {

  /** The distinguishable errors the table reports. The two configuration
      errors stand for the two messages `Config.Validate` produces. */
  datatype Error =
    | MemberExists
    | MemberNotExists
    | PartitionNotExists
    | InvalidCapacity
    | BadReplicationFactor
    | BadPartitionCount

  /** The `error` return of an operation that yields no value. */
  datatype Outcome = Pass | Fail(error: Error)

  /** A value or an error, as Go's `(T, error)` pair. */
  datatype Result<+T> = Ok(value: T) | Err(error: Error)
}
