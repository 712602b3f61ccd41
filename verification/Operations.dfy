/** operations.c: command packets for the chip, and what is taken from its answers. */
module Operations {
  import opened Bits
  import opened Checksum
  import opened Packets
  import opened Protocol

  function GetZoneConfig(ioMem: byte, ioEnc: byte, ioCnt: byte): byte {
    ioMem | ioEnc | ioCnt
  }

  const READ_SLOT: byte := GetZoneConfig(IO_MEM_DATA, IO_RW_NON_ENC, IO_RW_32_BYTES)
  const READ_OTP: byte := GetZoneConfig(IO_MEM_OTP, IO_RW_NON_ENC, IO_RW_4_BYTES)
  const READ_CONFIG: byte := GetZoneConfig(IO_MEM_CONFIG, IO_RW_NON_ENC, IO_RW_4_BYTES)
  const READ_SERIAL: byte := GetZoneConfig(IO_MEM_CONFIG, IO_RW_NON_ENC, IO_RW_32_BYTES)
  const WRITE_OTP_32: byte := GetZoneConfig(IO_MEM_OTP, IO_RW_NON_ENC, IO_RW_32_BYTES)

  /** The zones that these select, and how many bytes they move. */
  lemma ZoneBits()
    ensures READ_CONFIG & 0x3 == IO_MEM_CONFIG && READ_CONFIG & IO_RW_32_BYTES == 0
    ensures READ_OTP & 0x3 == IO_MEM_OTP && READ_OTP & IO_RW_32_BYTES == 0
    ensures READ_SLOT & 0x3 == IO_MEM_DATA && READ_SLOT & IO_RW_32_BYTES != 0
    ensures READ_SERIAL & 0x3 == IO_MEM_CONFIG && READ_SERIAL & IO_RW_32_BYTES != 0
    ensures WRITE_OTP_32 & 0x3 == IO_MEM_OTP && WRITE_OTP_32 & IO_RW_32_BYTES != 0
    ensures IO_MEM_CONFIG != IO_MEM_OTP && IO_MEM_CONFIG != IO_MEM_DATA && IO_MEM_OTP != IO_MEM_DATA
    ensures IO_MEM_OTP != 3 && IO_MEM_DATA != 3
  {
  }

  function GetLockConfig(lockWhat: byte): byte {
    0 | lockWhat
  }

  function GetSlotAddress(slotNumber: nat): byte
    requires slotNumber <= MAX_SLOT_NUMBER
  {
    match slotNumber
    case 0 => 0x00
    case 1 => 0x08
    case 2 => 0x10
    case 3 => 0x18
    case 4 => 0x20
    case 5 => 0x28
    case 6 => 0x30
    case 7 => 0x38
    case 8 => 0x40
    case 9 => 0x48
    case 10 => 0x50
    case 11 => 0x58
    case 12 => 0x60
    case 13 => 0x68
    case 14 => 0x70
    case _ => 0x78
  }

  function OpRawRead(zoneConfig: byte, address: byte): Packet {
    CommandPacket(OPCODE_READ, zoneConfig, address as bv16, [])
  }

  function OpRawWrite(zoneConfig: byte, address: byte, data: seq<byte>): Packet
    requires |data| <= MAX_DATA_SIZE
  {
    CommandPacket(OPCODE_WRITE, zoneConfig, address as bv16, data)
  }

  function OpNonce(data: seq<byte>): Packet
    requires |data| <= MAX_DATA_SIZE
  {
    CommandPacket(OPCODE_NONCE, 0x03, 0, data)
  }

  /** The mode byte of HMAC and MAC; bit 5 asks for OTP[0..7] in the digest. */
  function DigestMode(base: byte, useSnInDigest: bool): byte {
    if useSnInDigest then base | 0x20 else base
  }

  function OpHmac(address: byte, useSnInDigest: bool): Packet {
    CommandPacket(OPCODE_HMAC, DigestMode(0x04, useSnInDigest), address as bv16, [])
  }

  function OpMac(address: byte, data: seq<byte>, useSnInDigest: bool): Packet
    requires |data| <= MAX_DATA_SIZE
  {
    CommandPacket(OPCODE_MAC, DigestMode(0x00, useSnInDigest), address as bv16, data)
  }

  function OpSerialNumber(): Packet {
    CommandPacket(OPCODE_READ, READ_SERIAL, 0x0000, [])
  }

  function OpLock(lockConfig: byte, crc: seq<byte>): Packet
    requires |crc| == 2
  {
    var crcInt: bv16 := crc[1] as bv16;
    CommandPacket(OPCODE_LOCK, lockConfig, (crcInt << 8) | (crc[0] as bv16), [])
  }

  // ---- What the receiver finds at which position ----

  lemma SplitWord(low: byte, high: byte)
    ensures LowByte(low as bv16) == low && HighByte(low as bv16) == 0
    ensures LowByte(((high as bv16) << 8) | (low as bv16)) == low
    ensures HighByte(((high as bv16) << 8) | (low as bv16)) == high
  {
  }

  /** Every command packet decodes at the receiver's positions to what it was built from, param2 low byte first. */
  lemma CommandFields(opcode: byte, param1: byte, param2: bv16, data: seq<byte>)
    requires |data| <= 248
    ensures var p := CommandPacket(opcode, param1, param2, data);
            && WellFramed(p) && Accepted(p)
            && p[1] == opcode && p[2] == param1 && p[3] == LowByte(param2) && p[4] == HighByte(param2)
            && p[5..|p| - 2] == data
  {
    hide LowByte, HighByte, CrcBytes, Accepted, WellFramed, FromValue;
    GeneratedAccepted(opcode, param1, param2, data);
    var p := CommandPacket(opcode, param1, param2, data);
    var body := CommandBody(opcode, param1, param2, data);
    assert p[..|p| - 2] == body;
    assert p[5..|p| - 2] == body[5..] == data;
    assert p[1] == body[1] && p[2] == body[2] && p[3] == body[3] && p[4] == body[4];
  }

  /** The slot address is eight times the slot number, so dividing by eight gives it back. */
  lemma SlotAddress(slotNumber: nat)
    requires slotNumber <= MAX_SLOT_NUMBER
    ensures Value(GetSlotAddress(slotNumber)) == 8 * slotNumber
  {
  }

  /** The checksum reaches the lock packet in the order crc[0], crc[1]. */
  lemma LockFields(lockConfig: byte, crc: seq<byte>)
    requires |crc| == 2
    ensures var p := OpLock(lockConfig, crc);
            WellFramed(p) && Accepted(p) && p[1] == OPCODE_LOCK && p[2] == lockConfig && p[3..5] == crc
  {
    hide LowByte, HighByte, CommandPacket, Accepted, WellFramed;
    SplitWord(crc[0], crc[1]);
    CommandFields(OPCODE_LOCK, lockConfig, ((crc[1] as bv16) << 8) | (crc[0] as bv16), []);
    var p := OpLock(lockConfig, crc);
    assert p[3..5] == [p[3], p[4]];
    assert crc == [crc[0], crc[1]];
  }

  // ---- Answers ----

  /** The contents of an answer packet. */
  function Payload(packet: Packet): seq<byte>
    requires |packet| >= 3
  {
    packet[1..|packet| - 2]
  }

  /** read_long_data: copies the contents of an answer, or gives 0 when they are longer than 32 bytes. */
  method ReadLongData(packet: Packet, data: array<byte>) returns (size: nat)
    requires WellFramed(packet) && data.Length == MAX_DATA_SIZE
    modifies data
    ensures size == if |Payload(packet)| > MAX_DATA_SIZE then 0 else |Payload(packet)|
    ensures data[..] ==
            if |Payload(packet)| > MAX_DATA_SIZE then old(data[..]) else Payload(packet) + old(data[..])[size..]
  {
    hide Value;
    ghost var before := data[..];
    size := Value(packet[0]) - 3;
    if size > MAX_DATA_SIZE {
      return 0;
    }
    forall i | 0 <= i < size {
      data[i] := packet[1 + i];
    }
    assert data[..size] == Payload(packet);
    assert data[size..] == before[size..];
    assert data[..] == data[..size] + data[size..];
  }

  /** Every answer of at most 32 bytes is recovered exactly. */
  lemma AnswerRecovered(data: seq<byte>)
    requires |data| <= 252
    ensures WellFramed(AnswerPacket(data)) && Accepted(AnswerPacket(data)) && Payload(AnswerPacket(data)) == data
  {
    hide CrcBytes, Accepted, FromValue;
    SealedAccepted([FromValue(|data| + 3)] + data);
    var p := AnswerPacket(data);
    assert p[..|p| - 2] == [FromValue(|data| + 3)] + data;
  }

  /** just_check_status */
  function JustCheckStatus(packet: Packet): Status
    requires |packet| >= 3
  {
    if packet[1] == STATUS_SUCCES then Ok else BadCommunicationStatus
  }

  /** A byte of a buffer; what follows the buffer reads as 0 here. */
  function ByteAt(s: seq<byte>, i: nat): byte {
    if i < |s| then s[i] else 0
  }

  /** The nine bytes of the serial number, which lie around a hole of four bytes. */
  function Gathered(image: seq<byte>): (sn: seq<byte>)
    ensures |sn| == SN_BYTE_LEN
  {
    [ByteAt(image, 0), ByteAt(image, 1), ByteAt(image, 2), ByteAt(image, 3), ByteAt(image, 8), ByteAt(image, 9),
     ByteAt(image, 10), ByteAt(image, 11), ByteAt(image, 12)]
  }

  method OpSerialNumberRecv(packet: Packet, data: array<byte>) returns (size: nat)
    requires |packet| >= 3 && data.Length == MAX_DATA_SIZE
    modifies data
    ensures size == SN_BYTE_LEN
    ensures data[..] == Gathered(packet[1..]) + old(data[..])[size..]
  {
    ghost var before := data[..];
    var image := packet[1..];
    size := 9;
    data[0] := ByteAt(image, 0);
    data[1] := ByteAt(image, 1);
    data[2] := ByteAt(image, 2);
    data[3] := ByteAt(image, 3);
    data[4] := ByteAt(image, 8);
    data[5] := ByteAt(image, 9);
    data[6] := ByteAt(image, 10);
    data[7] := ByteAt(image, 11);
    data[8] := ByteAt(image, 12);
    assert data[9..] == before[9..];
    assert data[..9] == Gathered(image);
    assert data[..] == data[..9] + data[9..];
  }
}
