/** The error values that cross the three layers, and the Option wrapper that
    stands for Go's nil-able results. */
module Errors {

  datatype Option<+T> = None | Some(value: T)

  /** Go's `error` results, by the cases the layers tell apart. */
  datatype Error =
    | RecordNotFound                  // gorm.ErrRecordNotFound: `First` matched no live row
    | UniqueViolation                 // the unique index on email refused the write
    | StorageFailure(detail: string)  // any other failure the database driver reports
    | HashFailure(detail: string)     // bcrypt refused to hash the password
    | EmailExists                     // the service's own sentinel ErrEmailExists
}
