/** The option type shared by every component of the model. */
module Outcomes {
  datatype Option<+T> = None | Some(value: T)
}
