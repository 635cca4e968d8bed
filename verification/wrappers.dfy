/** An optional value: a C# string field that may be null is `None` when null
    and `Some(s)` otherwise. */
module Wrappers {

  datatype Option<+T> = None | Some(value: T)
}
