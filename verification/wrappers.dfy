/** The optional value that the exchange hands back from lookups and removals. */
module Wrappers {

  datatype Option<+T> = None | Some(value: T)
}
