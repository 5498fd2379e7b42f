/** The C integer types used by the kernel and the user programs, and optional values. */
module Words {
  datatype Option<+T> = None | Some(value: T)

  const TWO_TO_THE_31: int := 0x8000_0000
  const TWO_TO_THE_32: int := 0x1_0000_0000

  type byte = x: int | 0 <= x < 256

  type uint16 = x: int | 0 <= x < 0x1_0000

  type uint32 = x: int | 0 <= x < TWO_TO_THE_32

  type int32 = x: int | -TWO_TO_THE_31 <= x < TWO_TO_THE_31

  /** The conversion C applies when a signed value meets an unsigned one. */
  function ToUint32(x: int): uint32 {
    x % TWO_TO_THE_32
  }

  /** The conversion C applies when an unsigned result is returned as `int32_t`. */
  function ToInt32(x: uint32): int32 {
    if x < TWO_TO_THE_31 then x else x - TWO_TO_THE_32
  }
}
