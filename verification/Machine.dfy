/** Fixed-width integers of the engine and the sentinels it uses. */
module Machine {
  const TWO32: int := 0x1_0000_0000
  const TWO64: int := 0x1_0000_0000_0000_0000

  type uint8 = x: int | 0 <= x < 0x100
  type uint16 = x: int | 0 <= x < 0x1_0000
  type uint32 = x: int | 0 <= x < 0x1_0000_0000
  type uint64 = x: int | 0 <= x < 0x1_0000_0000_0000_0000
  type int64 = x: int | -0x8000_0000_0000_0000 <= x < 0x8000_0000_0000_0000

  /** The null index of every intrusive list. */
  const NULL_IDX: uint32 := 0xFFFF_FFFF

  /** The best ask of a book without asks. */
  const INVALID_PRICE: uint32 := 0xFFFF_FFFF

  /** The book id of an unregistered symbol. */
  const INVALID_BOOK_ID: uint16 := 0xFFFF

  datatype Option<+T> = None | Some(value: T)

  function Min(a: int, b: int): (r: int) {
    if a < b then a else b
  }

  /** Unsigned 32-bit negation, as in `-idx` on a uint32_t. */
  function Neg32(x: uint32): uint32 {
    (TWO32 - x) % TWO32
  }

  /** The counter step `++` on a uint64_t. */
  function Next64(x: uint64): uint64 {
    (x + 1) % TWO64
  }
}
