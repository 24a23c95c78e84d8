/** The optional value a header lookup returns: a JavaScript `string | null`. */
module Wrappers {

  datatype Option<+T> = None | Some(value: T)
}
