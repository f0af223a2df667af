/** The optional value the simulation's partial operations return. */
module Wrappers {

  datatype Option<+T> = None | Some(value: T)
}
