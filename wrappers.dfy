/** Option values shared by the three game engines. */
module Wrappers {

  datatype Option<+T> = None | Some(value: T)

}
