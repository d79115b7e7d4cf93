/** Fixed-width integer types of the 32-bit target and the conversions the
    forwarder applies when it stores values into byte buffers. */
module Bytes {

  /** `uint8_t` */
  type byte = x: int | 0 <= x < 0x100
  /** `uint16_t` */
  type uint16 = x: int | 0 <= x < 0x1_0000
  /** `uint32_t` */
  type uint32 = x: int | 0 <= x < 0x1_0000_0000

  /** Conversion of an integer to `uint8_t`: the value modulo 256. */
  function LowByte(x: int): (b: byte)
    ensures (x - b) % 0x100 == 0
  {
    x % 0x100
  }

  /** Conversion of an integer to `int8_t`, wrapping in two's complement as the
      target's compiler does. */
  function ToInt8(x: int): (r: int)
    ensures -0x80 <= r < 0x80
    ensures (x - r) % 0x100 == 0
  {
    if x % 0x100 < 0x80 then x % 0x100 else x % 0x100 - 0x100
  }

  /** Storing a value through an `int8_t` and then into a `uint8_t` keeps its
      low byte. */
  lemma Int8KeepsLowByte(x: int)
    ensures LowByte(ToInt8(x)) == LowByte(x)
  {
  }

  /** Big-endian bytes of a 16-bit value, `(uint8_t)(n >> 8)` then `(uint8_t)n`. */
  function BigEndian16(n: uint16): (s: seq<byte>)
    ensures |s| == 2
    ensures s[0] as int * 0x100 + s[1] as int == n
  {
    [LowByte(n / 0x100), LowByte(n)]
  }

  /** Two bytes are the big-endian encoding of exactly one 16-bit value. */
  lemma BigEndian16Unique(hi: byte, lo: byte)
    ensures hi as int * 0x100 + lo as int < 0x1_0000
    ensures BigEndian16(hi as int * 0x100 + lo as int) == [hi, lo]
  {
    var n := hi as int * 0x100 + lo as int;
    assert n / 0x100 == hi;
    assert n % 0x100 == lo;
  }

  /** Big-endian bytes of a 32-bit value, `n >> 24`, `n >> 16`, `n >> 8`, `n`,
      each truncated to `uint8_t`. */
  function BigEndian32(n: uint32): (s: seq<byte>)
    ensures |s| == 4
    ensures ((s[0] as int * 0x100 + s[1] as int) * 0x100 + s[2] as int) * 0x100 + s[3] as int == n
  {
    var a := n / 0x100;
    var b := a / 0x100;
    var c := b / 0x100;
    assert n / 0x1_0000 == b && n / 0x100_0000 == c;
    assert c < 0x100;
    [LowByte(n / 0x100_0000), LowByte(n / 0x1_0000), LowByte(n / 0x100), LowByte(n)]
  }
}
