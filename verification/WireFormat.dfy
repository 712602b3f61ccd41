/**
 What crosses the wire and what is digested, written out in bytes: the packets of all library calls, the
 88-byte messages, and the statuses that answers are read as.
 */
module WireFormat {
  import opened Bits
  import opened Chip
  import opened ChipLaws
  import opened Device
  import opened Digests
  import opened Emulation
  import opened EmulationLaws
  import opened Operations
  import opened Packets
  import opened Protocol
  import opened Wrappers

  // ---- Packets ----

  /** Count byte, four bytes of header, data, checksum. */
  predicate Carries(p: Packet, header: seq<byte>, data: seq<byte>) {
    && |p| == 7 + |data| && WellFramed(p) && Accepted(p)
    && p[1..5] == header && p[5..|p| - 2] == data
  }

  lemma HeaderOf(opcode: byte, param1: byte, address: byte, data: seq<byte>)
    requires |data| <= 248
    ensures Carries(CommandPacket(opcode, param1, address as bv16, data), [opcode, param1, address, 0x00], data)
  {
    hide CommandPacket, Accepted, WellFramed;
    AddressedCommand(opcode, param1, address, data);
    var p := CommandPacket(opcode, param1, address as bv16, data);
    assert p[1..5] == [p[1], p[2], p[3], p[4]];
  }

  /** A slot address is eight times the slot number, as a byte. */
  lemma AddressByte(slot: nat)
    requires slot <= 15
    ensures GetSlotAddress(slot) == FromValue(8 * slot)
  {
    hide Value, FromValue, GetSlotAddress;
    SlotAddress(slot);
    ValueInjective(GetSlotAddress(slot), FromValue(8 * slot));
  }

  lemma ReadPackets(slot: nat, address: byte)
    requires slot <= 15
    ensures Carries(OpRawRead(READ_SLOT, GetSlotAddress(slot)), [0x02, 0x82, FromValue(8 * slot), 0x00], [])
    ensures Carries(OpRawRead(READ_OTP, address), [0x02, 0x01, address, 0x00], [])
    ensures Carries(OpRawRead(READ_CONFIG, address), [0x02, 0x00, address, 0x00], [])
    ensures Carries(OpSerialNumber(), [0x02, 0x80, 0x00, 0x00], [])
  {
    ZoneBytes();
    hide CommandPacket, Accepted, WellFramed, FromValue, GetSlotAddress, Carries;
    AddressByte(slot);
    HeaderOf(0x02, 0x82, GetSlotAddress(slot), []);
    HeaderOf(0x02, 0x01, address, []);
    HeaderOf(0x02, 0x00, address, []);
    HeaderOf(0x02, 0x80, 0x00, []);
    ZeroWord();
  }

  lemma ZoneBytes()
    ensures READ_SLOT == 0x82 && READ_OTP == 0x01 && READ_CONFIG == 0x00 && READ_SERIAL == 0x80 && WRITE_OTP_32 == 0x81
    ensures GetLockConfig(LOCK_CONFIG) == 0x00 && GetLockConfig(LOCK_DATA) == 0x01
  {
  }

  lemma ZeroWord()
    ensures (0x00 as byte) as bv16 == 0
  {
  }

  lemma WritePackets(slot: nat, address: byte, number: BigInt)
    requires slot <= 15 && number.bytes <= 32
    ensures Carries(SlotWrite(slot, number), [0x12, 0x82, FromValue(8 * slot), 0x00], number.data[..number.bytes])
    ensures Carries(ConfigWrite(address, number), [0x12, 0x00, address, 0x00], number.data[..number.bytes])
    ensures Carries(OpRawWrite(WRITE_OTP_32, address, number.data), [0x12, 0x81, address, 0x00], number.data)
  {
    ZoneBytes();
    hide CommandPacket, Accepted, WellFramed, FromValue, GetSlotAddress, Carries;
    AddressByte(slot);
    HeaderOf(0x12, 0x82, GetSlotAddress(slot), number.data[..number.bytes]);
    HeaderOf(0x12, 0x00, address, number.data[..number.bytes]);
    HeaderOf(0x12, 0x81, address, number.data);
  }

  lemma LockPackets(crc: seq<byte>)
    requires |crc| == 2
    ensures Carries(OpLock(GetLockConfig(LOCK_CONFIG), crc), [0x17, 0x00, crc[0], crc[1]], [])
    ensures Carries(OpLock(GetLockConfig(LOCK_DATA), crc), [0x17, 0x01, crc[0], crc[1]], [])
  {
    ZoneBytes();
    LockPacket(0x00, crc);
    LockPacket(0x01, crc);
  }

  lemma LockPacket(config: byte, crc: seq<byte>)
    requires |crc| == 2
    ensures Carries(OpLock(config, crc), [0x17, config, crc[0], crc[1]], [])
  {
    hide OpLock, Accepted, WellFramed;
    LockFields(config, crc);
    LockLength(config, crc);
    var p := OpLock(config, crc);
    assert p[1..5] == [p[1], p[2]] + p[3..5];
    assert crc == [crc[0], crc[1]];
    assert p[5..|p| - 2] == [];
  }

  lemma DigestPacketBytes(slot: byte, challenge: Key, useSn: bool)
    ensures Carries(OpNonce(challenge), [0x16, 0x03, 0x00, 0x00], challenge)
    ensures Carries(OpHmac(slot, useSn), [0x11, if useSn then 0x24 else 0x04, slot, 0x00], [])
    ensures Carries(OpMac(slot, challenge, useSn), [0x08, if useSn then 0x20 else 0x00, slot, 0x00], challenge)
  {
    DigestModes(useSn);
    hide CommandPacket, Accepted, WellFramed, DigestMode, Carries;
    HeaderOf(0x16, 0x03, 0x00, challenge);
    HeaderOf(0x11, if useSn then 0x24 else 0x04, slot, []);
    HeaderOf(0x08, if useSn then 0x20 else 0x00, slot, challenge);
    ZeroWord();
  }

  // ---- Messages ----

  /** The parts of a message, by position. */
  predicate IsMessage(m: seq<byte>, first: seq<byte>, second: seq<byte>, header: seq<byte>, sn: seq<byte>) {
    && |m| == 88
    && m[..32] == first && m[32..64] == second && m[64..68] == header && m[68..76] == sn
    && m[76..80] == [0x00, 0x00, 0x00, 0xEE] && m[80..84] == [0x00, 0x00, 0x00, 0x00]
    && m[84..88] == [0x01, 0x23, 0x00, 0x00]
  }

  lemma LayoutParts(first: seq<byte>, second: seq<byte>, opcode: byte, mode: byte, low: byte, high: byte, sn: seq<byte>)
    requires |first| == |second| == 32 && |sn| == 8
    ensures IsMessage(Layout(first, second, opcode, mode, low, high, sn), first, second, [opcode, mode, low, high], sn)
  {
    var m := Layout(first, second, opcode, mode, low, high, sn);
    assert m[68..76] == sn;
    assert m[64..68] == [opcode, mode, low, high];
  }

  /** OTP[0..7] as the message carries it. */
  function SnBytes(sn: seq<byte>, useSn: bool): seq<byte>
    requires |sn| == 8
  {
    if useSn then sn else [0x00, 0x00, 0x00, 0x00, 0x00, 0x00, 0x00, 0x00]
  }

  lemma SerialBytes(e: Emulator, useSn: bool)
    requires |e.sn| == 8
    ensures SerialPart(e, useSn) == SnBytes(e.sn, useSn)
  {
  }

  /** A response of the emulated chip is HMAC under the key of the slot of this message, and nothing else. */
  lemma HmacMessage(e: Emulator, slot: nat, challenge: Key, useSn: bool) returns (key: seq<byte>, m: seq<byte>)
    requires |e.sn| == 8 && HmacResponse(e, slot, challenge, useSn).Success?
    ensures slot <= 15 && KeyOf(e, slot) == Success(key)
    ensures e.crypto.hmac(key, m) == Some(HmacResponse(e, slot, challenge, useSn).value)
    ensures IsMessage(m, seq(32, _ => 0x00), challenge,
                      [0x11, if useSn then 0x24 else 0x04, FromValue(slot), 0x00], SnBytes(e.sn, useSn))
  {
    hide Layout, KeyOf, FromValue, SnBytes, SerialPart, IsMessage;
    key := KeyOf(e, slot).value;
    var mode: byte := if useSn then 0x24 else 0x04;
    m := Layout(seq(32, _ => 0x00), challenge, 0x11, mode, FromValue(slot), 0x00, SerialPart(e, useSn));
    LayoutParts(seq(32, _ => 0x00), challenge, 0x11, mode, FromValue(slot), 0x00, SerialPart(e, useSn));
    SerialBytes(e, useSn);
  }

  /** A MAC is SHA-256 of the same with the key in front. */
  lemma MacMessage(e: Emulator, slot: nat, challenge: Key, useSn: bool) returns (key: seq<byte>, m: seq<byte>)
    requires |e.sn| == 8 && MacResponse(e, slot, challenge, useSn).Success?
    ensures slot <= 15 && KeyOf(e, slot) == Success(key)
    ensures e.crypto.sha256(m) == Some(MacResponse(e, slot, challenge, useSn).value)
    ensures IsMessage(m, key, challenge,
                      [0x08, if useSn then 0x20 else 0x00, FromValue(slot), 0x00], SnBytes(e.sn, useSn))
  {
    hide Layout, KeyOf, FromValue, SnBytes, SerialPart, IsMessage;
    key := KeyOf(e, slot).value;
    var mode: byte := if useSn then 0x20 else 0x00;
    m := Layout(key, challenge, 0x08, mode, FromValue(slot), 0x00, SerialPart(e, useSn));
    LayoutParts(key, challenge, 0x08, mode, FromValue(slot), 0x00, SerialPart(e, useSn));
    SerialBytes(e, useSn);
  }

  /** The same for the chip on the bus. */
  lemma ChipMessages(c: Zones, slot: nat, challenge: Key, useSn: bool) returns (m: seq<byte>, n: seq<byte>)
    requires slot <= 15
    ensures ChipHmac(c, slot, challenge, useSn) == c.silicon.hmac(c.data[32 * slot..32 * slot + 32], m)
    ensures IsMessage(m, seq(32, _ => 0x00), challenge,
                      [0x11, if useSn then 0x24 else 0x04, FromValue(slot), 0x00], SnBytes(c.otp[..8], useSn))
    ensures ChipMac(c, slot, challenge, useSn) == c.silicon.sha256(n)
    ensures IsMessage(n, c.data[32 * slot..32 * slot + 32], challenge,
                      [0x08, if useSn then 0x20 else 0x00, FromValue(slot), 0x00], SnBytes(c.otp[..8], useSn))
  {
    hide Layout, FromValue, SnBytes, IsMessage;
    var key := c.data[32 * slot..32 * slot + 32];
    var part := OtpPart(c, useSn);
    assert part == SnBytes(c.otp[..8], useSn) by {
      OtpBytes(c, useSn);
    }
    hide OtpPart;
    var hmacMode: byte, macMode: byte := if useSn then 0x24 else 0x04, if useSn then 0x20 else 0x00;
    m := Layout(seq(32, _ => 0x00), challenge, 0x11, hmacMode, FromValue(slot), 0x00, part);
    n := Layout(key, challenge, 0x08, macMode, FromValue(slot), 0x00, part);
    LayoutParts(seq(32, _ => 0x00), challenge, 0x11, hmacMode, FromValue(slot), 0x00, part);
    LayoutParts(key, challenge, 0x08, macMode, FromValue(slot), 0x00, part);
  }

  lemma OtpBytes(c: Zones, useSn: bool)
    ensures OtpPart(c, useSn) == SnBytes(c.otp[..8], useSn)
  {
  }

  // ---- Statuses and fixed answers ----

  /** A write, lock or nonce has succeeded exactly when the answer says 0. */
  lemma StatusByte(p: Packet)
    requires |p| >= 3
    ensures JustCheckStatus(p) == if p[1] == 0x00 then Ok else BadCommunicationStatus
  {
  }

  /** The contents of an answer of 1 to 32 data bytes are handed over; others read as a failed allocation. */
  lemma Contents(answer: Packet, before: BigInt, status: Status, number: BigInt)
    requires Unpacked(answer, before, status, number)
    ensures status == Ok <==> 1 <= |answer| - 3 <= 32
    ensures status == Ok ==>
              && number.bytes == |answer| - 3 && number.data[..number.bytes] == answer[1..|answer| - 2]
              && number.data[number.bytes..] == before.data[number.bytes..]
    ensures status != Ok ==> status == MemoryAllocationError && number.bytes == 0 && number.data == before.data
  {
  }

  /** What the emulated chip answers to a nonce, to a random command, and to one it does not know. */
  lemma FixedAnswers(e: Emulator, nonce: Key, p: Packet)
    requires IsEmulCommand(p)
    ensures p[1] == 0x16 ==> EmulStep(e, nonce, p) == (Success(AnswerPacket([0x00])), p[5..37])
    ensures p[1] == 0x1B ==>
              EmulStep(e, nonce, p) ==
              (Success(AnswerPacket(
                         [0x55, 0xE3, 0xD9, 0x65, 0x6A, 0x82, 0x69, 0x33] +
                         [0xB2, 0xAF, 0x9B, 0xCA, 0x64, 0x5C, 0x49, 0x0D] +
                         [0x09, 0x27, 0xC3, 0x82, 0x0C, 0x32, 0x58, 0xBC] +
                         [0x8D, 0x23, 0xEE, 0xC4, 0x04, 0xF3, 0xC4, 0x14])), nonce)
    ensures p[1] !in {0x02, 0x08, 0x11, 0x16, 0x1B} ==> EmulStep(e, nonce, p) == (Failure(NotImplemented), nonce)
  {
    hide AnswerPacket, EmulHmac, EmulMac, EmulRead;
  }

  /** The zones a read can name: configuration at address 0 only, data, OTP, and nothing in zone 3. */
  lemma ReadZones(e: Emulator, p: Packet)
    requires IsEmulCommand(p)
    ensures p[2] & 0x03 == 0x00 && p[3] != 0x00 ==> EmulRead(e, p) == Failure(NotImplemented)
    ensures p[2] & 0x03 == 0x01 ==> EmulRead(e, p) == Answered(OtpOf(e, Value(p[3])))
    ensures p[2] & 0x03 == 0x02 ==> EmulRead(e, p) == Answered(KeyOf(e, Value(p[3]) / 8))
    ensures p[2] & 0x03 == 0x03 ==> EmulRead(e, p) == Failure(NotImplemented)
  {
    hide AnswerPacket, OtpOf, KeyOf, ChipSerialOf, SnImage, Value;
  }
}
