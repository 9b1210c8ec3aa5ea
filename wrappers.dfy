/** The absent value of JavaScript (`null`, `undefined`) made explicit. */
module Wrappers {

  datatype Option<+T> = None | Some(value: T)
}
