/** Status codes, opcodes, zones and sizes: atsha204.h, atsha204consts.h, operations.h and configuration.h. */
module Protocol {
  import opened Bits

  /** The ATSHA_ERR_* codes. */
  datatype Status =
    | Ok
    | MemoryAllocationError
    | InvalidInput
    | Communication
    | BadCommunicationStatus
    | WakeNotConfirmed
    | NotImplemented
    | ConfigFileBadFormat
    | DnsGetKey

  type ErrorStatus = s: Status | s != Ok witness Communication

  // Status codes the chip answers with
  const STATUS_SUCCES: byte := 0x00
  const STATUS_PARSE_ERROR: byte := 0x03
  const STATUS_EXEC_ERROR: byte := 0x0F
  const STATUS_WAKE_OK: byte := 0x11
  const STATUS_COMMUNICATION_ERROR: byte := 0xFF

  const OPCODE_READ: byte := 0x02
  const OPCODE_WRITE: byte := 0x12
  const OPCODE_NONCE: byte := 0x16
  const OPCODE_HMAC: byte := 0x11
  const OPCODE_MAC: byte := 0x08
  const OPCODE_RANDOM: byte := 0x1B
  const OPCODE_LOCK: byte := 0x17

  const IO_MEM_CONFIG: byte := 0
  const IO_MEM_OTP: byte := 1
  const IO_MEM_DATA: byte := 2
  const IO_RW_NON_ENC: byte := 0
  const IO_RW_4_BYTES: byte := 0
  const IO_RW_32_BYTES: byte := 128
  const LOCK_CONFIG: byte := 0
  const LOCK_DATA: byte := 1

  const SN_BYTE_LEN: nat := 9
  const SLOT_BYTE_LEN: nat := 32
  const OTP_BYTE_LEN: nat := 4
  const MAX_SLOT_NUMBER: nat := 15
  const MAX_DATA_SIZE: nat := 32

  const OTP_REV_NUMBER: byte := 0x00
  const OTP_SERIAL_NUMBER: byte := 0x01
  const OTP_ORIGIN_KEY_SET: byte := 0x02

  const TRY_SEND_RECV_ON_COMM_ERROR: nat := 5

  /** atsha_big_int: a length and a buffer of fixed size. */
  datatype BigNumber = BigNumber(bytes: nat, data: seq<byte>)

  type BigInt = n: BigNumber | |n.data| == MAX_DATA_SIZE witness BigNumber(0, seq(MAX_DATA_SIZE, _ => 0))

  /** The buffer after a value has been copied to its start. */
  function Store(n: BigInt, value: seq<byte>): BigInt
    requires |value| <= MAX_DATA_SIZE
  {
    BigNumber(|value|, value + n.data[|value|..])
  }
}
