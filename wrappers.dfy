/** The optional value used wherever a system call may fail or a parse may stop. */
module Wrappers {

  datatype Option<+T> = None | Some(value: T)
}
