/** The absent-marker used where the graph answers "no such vertex". */
module Wrappers {

  datatype Option<+T> = None | Some(value: T)
}
