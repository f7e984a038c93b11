/** The optional value the Rust code expresses with `Option`. */
module Wrappers {

  datatype Option<T> = None | Some(value: T)

}
