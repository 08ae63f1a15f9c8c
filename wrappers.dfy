/** The value-or-null results of the simulation (JavaScript's `string | null`). */
module Wrappers {

  datatype Option<+T> = None | Some(value: T)

}
