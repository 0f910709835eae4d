/** The optional value used for the query helpers' optional inputs and outputs. */
module Wrappers {

  /** `None` stands for an absent (`undefined`) value. */
  datatype Option<+T> = None | Some(value: T)
}
