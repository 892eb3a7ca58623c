/** Stock optional-value wrapper, used for the results of strconv.ParseFloat and of delimiter guessing. */
module Wrappers {
  datatype Option<+T> = None | Some(value: T)
}
