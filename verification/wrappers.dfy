/** The optional value used for the Swift optionals (`Date?`, `URL?`) and for
    operations that may fail (a parse that does not match). */
module Wrappers {

  datatype Option<+T> = None | Some(value: T)
}
