/** The optional value used wherever the source returns java.util.Optional or a nullable reference. */
module Wrappers {

  datatype Option<+T> = None | Some(value: T)
}
