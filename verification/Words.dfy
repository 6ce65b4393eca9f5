/** Fixed-width machine integers as ranges of `int`, and the shared optional value. */
module Words {

  const TWO32: int := 0x1_0000_0000

  type uint32 = x: int | 0 <= x < 0x1_0000_0000

  type byte = x: int | 0 <= x < 256

  /** The six octets of a hardware address that the server compares and prints. */
  type Mac = m: seq<byte> | |m| == 6 witness [0, 0, 0, 0, 0, 0]

  datatype Option<+T> = None | Some(value: T)

  /** `a + b` in a uint32_t. */
  function Add32(a: uint32, b: uint32): uint32 {
    (a + b) % TWO32
  }

  /** `a - b` in a uint32_t. */
  function Sub32(a: uint32, b: uint32): uint32 {
    (a - b) % TWO32
  }
}
