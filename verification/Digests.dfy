/** The message that the HMAC and MAC commands digest, on the chip and in its emulation. */
module Digests {
  import opened Bits
  import opened Protocol

  type Digest = s: seq<byte> | |s| == 32 witness seq(32, _ => 0)

  type Key = s: seq<byte> | |s| == SLOT_BYTE_LEN witness seq(SLOT_BYTE_LEN, _ => 0)

  /** The 88-byte message of the HMAC and MAC commands. */
  function Layout(first: seq<byte>, second: seq<byte>, opcode: byte, mode: byte, low: byte, high: byte, sn: seq<byte>)
    : (m: seq<byte>)
    requires |first| == |second| == 32 && |sn| == 8
    ensures |m| == 88
  {
    first + second + [opcode, mode, low, high] + sn +
    [0x00, 0x00, 0x00, 0xEE] + [0x00, 0x00, 0x00, 0x00] + [0x01, 0x23, 0x00, 0x00]
  }
}
