/** Optional values: Swift's `T?`, used for the optional marks and teacher references
    of a copy, for database lookups that may find nothing, and for optional form fields. */
module Wrappers {

  datatype Option<T> = None | Some(value: T)
}
