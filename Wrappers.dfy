/** The optional value used throughout the model: JavaScript's `null`, `NaN`
    and "missing form field" all become `None`. */
module Wrappers {
  datatype Option<+T> = None | Some(value: T)
}
