/** The one failure-carrying datatype the model needs: an optional value. */
module Wrappers {

  /** `None` stands for a conversion that did not produce a value. */
  datatype Option<+T> = None | Some(value: T)
}
