/** The optional-value type shared by the model: PHP's `false`/no-match
    results and JavaScript's `null` references are both `None`. */
module Wrappers {

  datatype Option<+T> = None | Some(value: T)
}
