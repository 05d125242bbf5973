/** The "maybe absent" result used where the engine returns a nullable pointer. */
module Wrappers {
  datatype Option<+T> = None | Some(value: T)
}
