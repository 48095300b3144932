/** An optional value: a price that may be absent from a ticker snapshot,
    a pair ratio that may be unset, a fill that may not have happened. */
module Wrappers {

  datatype Option<+T> = None | Some(value: T)

}
