/** The optional value the store uses for a record's menu and for absent lookups. */
module Wrappers {

  datatype Option<+T> = None | Some(value: T)
}
