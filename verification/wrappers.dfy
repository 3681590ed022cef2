/** The optional-value type used where the program returns "nothing" (a
    missing posting row, a string that is not a decimal numeral). */
module Wrappers {

  datatype Option<+T> = None | Some(value: T)
}
