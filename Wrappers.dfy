/** The optional result the source expresses with `std::optional` or by returning `nullptr`. */
module Wrappers {

  datatype Option<+T> = None | Some(value: T)
}
