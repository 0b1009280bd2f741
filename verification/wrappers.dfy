/** The optional value Python expresses as `str | None`. */
module Wrappers {

  datatype Option<T> = None | Some(value: T)
}
