/** Small definitions shared by all modules. */
module Prelude {

  datatype Option<+T> = None | Some(value: T)

  type Byte = b: int | 0 <= b < 256

  function Min(a: nat, b: nat): nat
  {
    if a < b then a else b
  }
}
