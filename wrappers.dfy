/** The optional-value wrapper used throughout the model: a JavaScript value
    that may be null/undefined, or a built-in call that may throw. */
module Wrappers {

  datatype Option<+T> = None | Some(value: T)

}
