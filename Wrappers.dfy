/** The optional value used for "absent" results: a missing URL parameter,
    a missing storage entry, a failed locale load, a lookup that found no string. */
module Wrappers {

  datatype Option<+T> = None | Some(value: T)
}
