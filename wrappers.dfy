/** Optional values and results with an error, for Go's nil returns and panics. */
module Wrappers {

  datatype Option<T> = None | Some(value: T)

  /** Why an operation stopped where the Go code panics. */
  datatype Error =
    | EmptyKey          // Insert/Remove called with an empty key
    | EmptyValue        // Insert called with an empty value
    | IndexOutOfRange   // a slice index the Go runtime would reject
    | NilRoot           // a tree operation after Reset dropped the root
    | NilPool           // a fork into the nil pool of Clone(nil): newLeaf/newInter lock a nil pool

  datatype Result<T> = Ok(value: T) | Err(error: Error)
}
