/** The Option datatype shared by the models: None stands for JavaScript's
    `null`/`undefined`, or for a number the source computes as NaN or Infinity. */
module Wrappers {

  datatype Option<+T> = None | Some(value: T)
}
