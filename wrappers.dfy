/** Option, used for values that may be absent (an unset storage entry, an
    unknown command name, no scheduled commit). */
module Wrappers {

  datatype Option<+T> = None | Some(value: T)
}
