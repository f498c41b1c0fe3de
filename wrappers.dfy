/** Small Option type: `Some(x)` stands for "a callback was invoked with x". */
module Wrappers {
  datatype Option<+T> = None | Some(value: T)
}
