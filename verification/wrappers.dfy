/** Present-or-absent values: TypeScript's optional fields, `undefined` and `null`. */
module Wrappers {

  datatype Option<+T> = None | Some(value: T)
}
