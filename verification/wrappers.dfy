/** The optional-value datatype used for browser inputs that may be absent
    (a missing storage entry, a missing media-query API, a feature that did
    not initialise). */
module Wrappers {

  datatype Option<+T> = None | Some(value: T)
}
