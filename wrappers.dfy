/** The optional-value wrapper used for Python operations that can raise
    (a date constructor, an overflowing date addition, a failed search). */
module Wrappers {

  datatype Option<+T> = None | Some(value: T)
}
