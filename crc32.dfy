/** The CRC-32 that chunking.ts and text.ts take from the `crc-32` package:
    the checksum of IEEE 802.3 (reflected polynomial 0xEDB88320, register
    preset to all ones, result complemented), returned as an unsigned number. */
module Checksum {
  import opened Types

  const POLYNOMIAL: bv32 := 0xEDB8_8320

  /** One shift of the reflected CRC register. */
  function Shift(c: bv32): bv32
  {
    if c & 1 == 1 then (c >> 1) ^ POLYNOMIAL else c >> 1
  }

  /** Feeds one byte into the register, least significant bit first. */
  function FeedByte(c: bv32, b: Byte): bv32
  {
    var x := c ^ (b as bv32);
    Shift(Shift(Shift(Shift(Shift(Shift(Shift(Shift(x))))))))
  }

  /** The register after feeding `data` byte by byte, starting from `c`. */
  function Register(c: bv32, data: seq<Byte>): bv32
    decreases |data|
  {
    if |data| == 0 then c else Register(FeedByte(c, data[0]), data[1..])
  }

  /** `crc32(data)` of web/src/protocol/chunking.ts: `CRC32.buf(data) >>> 0`. */
  function Crc32(data: seq<Byte>): (r: nat)
    ensures r < 0x1_0000_0000
  {
    (Register(0xFFFF_FFFF, data) ^ 0xFFFF_FFFF) as nat
  }

  /** The register can be fed a payload in two parts: the checksum of the whole
      payload is one pass over it, however it is later sliced. */
  lemma {:induction false} RegisterAppend(c: bv32, a: seq<Byte>, b: seq<Byte>)
    ensures Register(c, a + b) == Register(Register(c, a), b)
    decreases |a|
  {
    if |a| == 0 {
      assert a + b == b;
    } else {
      assert (a + b)[0] == a[0];
      assert (a + b)[1..] == a[1..] + b;
      RegisterAppend(FeedByte(c, a[0]), a[1..], b);
    }
  }

  /** The register after each of the first five bytes of "123456789". */
  lemma CheckFeedsHead()
    ensures FeedByte(0xFFFF_FFFF, 0x31) == 0x7C23_1048
    ensures FeedByte(0x7C23_1048, 0x32) == 0xB0AC_BB32
    ensures FeedByte(0xB0AC_BB32, 0x33) == 0x77B7_9C2D
    ensures FeedByte(0x77B7_9C2D, 0x34) == 0x641C_1F5C
    ensures FeedByte(0x641C_1F5C, 0x35) == 0x340A_C5E3
  {
  }

  /** The register after each of the last four bytes of "123456789". */
  lemma CheckFeedsTail()
    ensures FeedByte(0x340A_C5E3, 0x36) == 0xF68D_2C9E
    ensures FeedByte(0xF68D_2C9E, 0x37) == 0xAFFC_9660
    ensures FeedByte(0xAFFC_9660, 0x38) == 0x651F_2550
    ensures FeedByte(0x651F_2550, 0x39) == 0x340B_C6D9
  {
  }

  /** The standard check value: CRC-32 of the ASCII string "123456789". */
  lemma CheckValue()
    ensures Crc32([0x31, 0x32, 0x33, 0x34, 0x35, 0x36, 0x37, 0x38, 0x39]) == 0xCBF4_3926
  {
    CheckFeedsHead();
    CheckFeedsTail();
    var s: seq<Byte> := [0x39];
    assert Register(0x651F_2550, s) == 0x340B_C6D9;
    s := [0x38] + s;
    assert Register(0xAFFC_9660, s) == 0x340B_C6D9;
    s := [0x37] + s;
    assert Register(0xF68D_2C9E, s) == 0x340B_C6D9;
    s := [0x36] + s;
    assert Register(0x340A_C5E3, s) == 0x340B_C6D9;
    s := [0x35] + s;
    assert Register(0x641C_1F5C, s) == 0x340B_C6D9;
    s := [0x34] + s;
    assert Register(0x77B7_9C2D, s) == 0x340B_C6D9;
    s := [0x33] + s;
    assert Register(0xB0AC_BB32, s) == 0x340B_C6D9;
    s := [0x32] + s;
    assert Register(0x7C23_1048, s) == 0x340B_C6D9;
    s := [0x31] + s;
    assert Register(0xFFFF_FFFF, s) == 0x340B_C6D9;
  }
}
