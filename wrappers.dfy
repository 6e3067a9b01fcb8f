/** The absent-or-present value used for the pipeline's `None` results. */
module Wrappers {

  datatype Option<+T> = None | Some(value: T)
}
