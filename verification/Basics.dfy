/** Machine integers and the option type shared by every module. */
module Basics {
  type uint8 = x: int | 0 <= x < 0x100
  type uint16 = x: int | 0 <= x < 0x1_0000
  type uint32 = x: int | 0 <= x < 0x1_0000_0000

  const TWO32: int := 0x1_0000_0000

  datatype Option<+T> = None | Some(value: T)

  /** Unsigned 32-bit wrap-around. */
  function Wrap32(x: int): uint32 {
    x % 0x1_0000_0000
  }

  /** Reinterpretation of the low 32 bits of `x` as a signed integer. */
  function AsInt32(x: int): int {
    if Wrap32(x) < 0x8000_0000 then Wrap32(x) else Wrap32(x) - 0x1_0000_0000
  }

  /** The remainder of a division that truncates toward zero. */
  function TruncRem(x: int, m: int): int
    requires m > 0
  {
    if x >= 0 then x % m else -((-x) % m)
  }

  lemma WrapAdd(a: int, b: int)
    ensures Wrap32(Wrap32(a) as int + b) == Wrap32(a + b)
  {
    assert a + b == Wrap32(a) as int + b + TWO32 * (a / TWO32);
  }

  /** The increment of an unsigned 32-bit counter. */
  function Next32(x: uint32): uint32 {
    if x == 0xFFFF_FFFF then 0 else x + 1
  }
}
