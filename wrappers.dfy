/** The optional value used where the widget leaves a field or an argument undefined. */
module Wrappers {

  datatype Option<+T> = None | Some(value: T)

}
