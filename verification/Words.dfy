/** Machine integers. */
module Words {

  const U32: nat := 0x1_0000_0000
  const U64: nat := 0x1_0000_0000_0000_0000

  type byte = x: nat | x < 256
  type u32 = x: nat | x < U32
  type u64 = x: nat | x < U64
  type int32 = x: int | -0x8000_0000 <= x < 0x8000_0000
  type int64 = x: int | -0x8000_0000_0000_0000 <= x < 0x8000_0000_0000_0000

  function U32Of(x: int): (r: nat)
    ensures r < U32
  {
    x % U32
  }

  /** The result of 32-bit signed arithmetic, which wraps around. */
  function Int32(x: int): (r: int)
    ensures -0x8000_0000 <= r < 0x8000_0000
  {
    (x + 0x8000_0000) % U32 - 0x8000_0000
  }

  datatype Option<T> = None | Some(value: T)
}
