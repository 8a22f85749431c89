/** Values shared by the modules of the model. */
module Basics {

  /** A JavaScript value that may be `undefined`: an unset environment
      variable, an absent request header, an anchor without `href`, the
      `NaN` that `parseInt` returns when no digits are found. */
  datatype Option<+T> = None | Some(value: T)
}
