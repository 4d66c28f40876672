/** Swift's optional values (`T?`), as used by the aggregator's pending span
    and by the bounds-checked subscript. */
module Wrappers {

  datatype Option<+T> = None | Some(value: T)

}
