/** The optional-value datatype used wherever the application may see "no value":
    an unparseable date (JavaScript's Invalid Date), an empty list head, a missing label. */
module Wrappers {

  datatype Option<+T> = None | Some(value: T)

}
