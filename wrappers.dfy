/** The optional-value type used for Swift's `Optional` results (`range(of:)`,
    `first(where:)`, `firstIndex(of:)`). */
module Wrappers {

  datatype Option<+T> = None | Some(value: T)
}
