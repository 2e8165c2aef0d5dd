/** Swift's optional values, as used by every modelled operation that can return `nil`. */
module Wrappers {

  datatype Option<+T> = None | Some(value: T)
}
