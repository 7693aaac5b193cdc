/** The optional value used wherever the page reads something that may be absent:
    a missing DOM attribute, an empty storage slot, a status text that does not parse. */
module Wrappers {

  datatype Option<T> = None | Some(value: T)
}
