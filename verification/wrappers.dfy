/** The optional value used for the float-dependent steps, which may fail. */
module Wrappers {

  /** `None` stands for a step that throws, or whose number is rejected. */
  datatype Option<+T> = None | Some(value: T)
}
