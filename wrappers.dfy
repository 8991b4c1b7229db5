/** The optional value the TypeScript sources express with `null`/`undefined`. */
module Wrappers {

  datatype Option<+T> = None | Some(value: T)

}
