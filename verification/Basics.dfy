/** Small shared definitions. */
module Basics {

  datatype Option<T> = None | Some(value: T)

  function Min(a: nat, b: nat): nat {
    if a < b then a else b
  }

  function One(b: bool): nat {
    if b then 1 else 0
  }
}
