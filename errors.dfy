/** The error kinds the target reports to the migration runner, and the
    result shapes of its operations. Backend faults (network, permissions,
    a missing table, a failed decode) are one opaque kind: the wrapping
    text added by the source is not modelled. */
module Errors {

  datatype Error =
    | NoCurrentMigration      // the ledger holds no finished migration
    | DirtyMigration          // some record is still marked dirty
    | MigrationAlreadyExists  // a conditional insert found the key present
    | MigrationNotFound       // a conditional write found the key absent
    | Fault                   // any other backend failure

  /** The result of an operation that returns a value or an error. */
  datatype Result<+T> = Success(value: T) | Failure(error: Error)

  /** The result of an operation that returns only an error. */
  datatype Outcome = Pass | Fail(error: Error)
}
