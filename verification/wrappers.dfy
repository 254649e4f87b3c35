/** The Option type the model uses for values that may be absent: an undefined
    (NaN) grid cell, an infinite ray parameter, or a step that raises. */
module Wrappers {

  datatype Option<+T> = None | Some(value: T)
}
