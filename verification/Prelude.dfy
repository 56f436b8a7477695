/** Types and functions that several parts of the model share. */
module Prelude {

  datatype Option<+T> = None | Some(value: T)

  type Byte = x: int | 0 <= x < 256

  const W: nat := 0x1_0000_0000

  type u32 = x: int | 0 <= x < 0x1_0000_0000

  function Min(a: nat, b: nat): nat {
    if a < b then a else b
  }

  function Max(a: nat, b: nat): nat {
    if a < b then b else a
  }
}
