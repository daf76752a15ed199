/** The C code returns NULL for "no such element" and uses NULL parent links;
    both are modelled with this Option type. */
module Wrappers {
  datatype Option<+T> = None | Some(value: T)
}
