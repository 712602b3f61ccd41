/**
 What the packets of the library calls amount to on the emulated chip: each call has a
 meaning that depends on the backing data and its arguments only, and the two kinds of
 backing agree.
 */
module EmulationLaws {
  import opened Bits
  import opened Checksum
  import opened Digests
  import opened Emulation
  import opened Operations
  import opened Packets
  import opened Protocol

  /** The address travels as the low byte of param2. */
  lemma AddressedCommand(opcode: byte, param1: byte, address: byte, data: seq<byte>)
    requires |data| <= 248
    ensures var p := CommandPacket(opcode, param1, address as bv16, data);
            && WellFramed(p) && Accepted(p)
            && p[1] == opcode && p[2] == param1 && p[3] == address && p[4] == 0 && p[5..|p| - 2] == data
  {
    hide LowByte, HighByte, CommandPacket, Accepted, WellFramed;
    SplitWord(address, 0);
    CommandFields(opcode, param1, address as bv16, data);
  }

  lemma SlotReadPacket(e: Emulator, nonce: Key, slot: nat)
    requires slot <= MAX_SLOT_NUMBER
    ensures IsEmulCommand(OpRawRead(READ_SLOT, GetSlotAddress(slot)))
    ensures EmulRead(e, OpRawRead(READ_SLOT, GetSlotAddress(slot))) == Answered(KeyOf(e, slot))
    ensures EmulStep(e, nonce, OpRawRead(READ_SLOT, GetSlotAddress(slot))) == (Answered(KeyOf(e, slot)), nonce)
  {
    hide CommandPacket, AnswerPacket, KeyOf, GetSlotAddress, Value, Accepted;
    AddressedCommand(OPCODE_READ, READ_SLOT, GetSlotAddress(slot), []);
    SlotAddress(slot);
    ZoneBits();
  }

  lemma OtpReadPacket(e: Emulator, nonce: Key, word: byte)
    ensures IsEmulCommand(OpRawRead(READ_OTP, word))
    ensures EmulRead(e, OpRawRead(READ_OTP, word)) == Answered(OtpOf(e, Value(word)))
    ensures EmulStep(e, nonce, OpRawRead(READ_OTP, word)) == (Answered(OtpOf(e, Value(word))), nonce)
  {
    hide CommandPacket, AnswerPacket, OtpOf, Value, Accepted;
    AddressedCommand(OPCODE_READ, READ_OTP, word, []);
    ZoneBits();
  }

  /** The hole is undone: the receiver gathers exactly the nine bytes that were spread. */
  lemma SpreadAndGather(sn: seq<byte>, tail: seq<byte>)
    requires |sn| == SN_BYTE_LEN
    ensures Gathered(SnImage(sn) + tail) == sn
  {
    var image := SnImage(sn) + tail;
    assert image[0] == sn[0] && image[1] == sn[1] && image[2] == sn[2] && image[3] == sn[3];
    assert image[8] == sn[4] && image[9] == sn[5] && image[10] == sn[6] && image[11] == sn[7] && image[12] == sn[8];
  }

  lemma SerialPacket(e: Emulator, nonce: Key)
    ensures IsEmulCommand(OpSerialNumber())
    ensures var (r, n) := EmulStep(e, nonce, OpSerialNumber());
            && n == nonce
            && match ChipSerialOf(e)
               case Failure(status) => r == Failure(status)
               case Success(sn) => r.Success? && |r.value| >= 3 && Gathered(r.value[1..]) == sn
  {
    hide CommandPacket, CrcBytes, ChipSerialOf, SnImage, Gathered, Value, Accepted, FromValue;
    SplitWord(0, 0);
    AddressedCommand(OPCODE_READ, READ_SERIAL, 0, []);
    assert OpSerialNumber() == CommandPacket(OPCODE_READ, READ_SERIAL, (0 as byte) as bv16, []);
    ZoneBits();
    if ChipSerialOf(e).Success? {
      var sn := ChipSerialOf(e).value;
      var a := AnswerPacket(SnImage(sn));
      AnswerShape(SnImage(sn));
      SpreadAndGather(sn, a[1..][SLOT_BYTE_LEN..]);
    }
  }

  lemma AnswerShape(data: seq<byte>)
    requires |data| <= 252
    ensures AnswerPacket(data)[1..] == data + AnswerPacket(data)[1..][|data|..]
  {
    hide CrcBytes, FromValue;
  }

  /** The mode bytes that op_hmac and op_mac send, and the bit the emulator looks at. */
  lemma DigestModes(useSn: bool)
    ensures DigestMode(0x04, useSn) == if useSn then 0x24 else 0x04
    ensures DigestMode(0x00, useSn) == if useSn then 0x20 else 0x00
    ensures (DigestMode(0x04, useSn) & 0x20 != 0) == useSn && (DigestMode(0x00, useSn) & 0x20 != 0) == useSn
  {
  }

  lemma NoncePacket(e: Emulator, nonce: Key, challenge: Key)
    ensures IsEmulCommand(OpNonce(challenge))
    ensures EmulStep(e, nonce, OpNonce(challenge)) == (Success(AnswerPacket([STATUS_SUCCES])), challenge)
  {
    hide CommandPacket, AnswerPacket, Accepted, EmulHmac, EmulMac, EmulRead;
    CommandFields(OPCODE_NONCE, 0x03, 0, challenge);
    var p := OpNonce(challenge);
    assert p[5..|p| - 2] == p[5..37];
  }

  lemma HmacPacket(e: Emulator, slot: nat, challenge: Key, useSn: bool)
    requires slot <= MAX_SLOT_NUMBER
    ensures IsEmulCommand(OpHmac(FromValue(slot), useSn))
    ensures EmulStep(e, challenge, OpHmac(FromValue(slot), useSn)) ==
            (Answered(HmacResponse(e, slot, challenge, useSn)), challenge)
  {
    hide CommandPacket, AnswerPacket, KeyOf, Value, Accepted, Layout, DigestMode, EmulMac, EmulRead, SerialPart;
    DigestModes(useSn);
    AddressedCommand(OPCODE_HMAC, DigestMode(0x04, useSn), FromValue(slot), []);
  }

  /** The challenge is stored by one packet and digested by the next, whatever TempKey held before. */
  lemma HmacPackets(e: Emulator, nonce: Key, slot: nat, challenge: Key, useSn: bool)
    requires slot <= MAX_SLOT_NUMBER
    ensures IsEmulCommand(OpNonce(challenge)) && IsEmulCommand(OpHmac(FromValue(slot), useSn))
    ensures var (stored, tempKey) := EmulStep(e, nonce, OpNonce(challenge));
            && stored == Success(AnswerPacket([STATUS_SUCCES])) && tempKey == challenge
            && EmulStep(e, tempKey, OpHmac(FromValue(slot), useSn)).0 ==
               Answered(HmacResponse(e, slot, challenge, useSn))
  {
    hide CommandPacket, AnswerPacket, EmulStep, HmacResponse, FromValue;
    NoncePacket(e, nonce, challenge);
    HmacPacket(e, slot, challenge, useSn);
  }

  lemma MacPacket(e: Emulator, nonce: Key, slot: nat, challenge: Key, useSn: bool)
    requires slot <= MAX_SLOT_NUMBER
    ensures IsEmulCommand(OpMac(FromValue(slot), challenge, useSn))
    ensures EmulStep(e, nonce, OpMac(FromValue(slot), challenge, useSn)) ==
            (Answered(MacResponse(e, slot, challenge, useSn)), nonce)
  {
    hide CommandPacket, AnswerPacket, KeyOf, Value, Accepted, Layout, DigestMode, EmulHmac, EmulRead, SerialPart;
    DigestModes(useSn);
    AddressedCommand(OPCODE_MAC, DigestMode(0x00, useSn), FromValue(slot), challenge);
    var p := OpMac(FromValue(slot), challenge, useSn);
    assert p[5..|p| - 2] == p[5..37];
  }

  // ---- Which status each failing branch gives ----

  /** A server has the one key it was given, a file has those that parse. */
  lemma KeyStatus(e: Emulator, slot: nat)
    ensures e.backing.ServerBacked? ==> KeyOf(e, slot) == Success(e.backing.key)
    ensures KeyOf(e, slot).Success? || KeyOf(e, slot) == Failure(ConfigFileBadFormat)
  {
  }

  /** A server has no OTP memory. */
  lemma OtpStatus(e: Emulator, word: nat)
    ensures e.backing.ServerBacked? ==> OtpOf(e, word) == Failure(NotImplemented)
    ensures e.backing.FileBacked? ==> OtpOf(e, word).Success? || OtpOf(e, word) == Failure(ConfigFileBadFormat)
  {
  }

  lemma SerialStatus(e: Emulator)
    ensures ChipSerialOf(e).Success? || ChipSerialOf(e) == Failure(ConfigFileBadFormat)
    ensures e.backing.ServerBacked? ==> ChipSerialOf(e).Success?
    ensures e.backing.ServerBacked? && |e.sn| == 8 ==> ChipSerialOf(e).value[..8] == e.sn
  {
  }

  lemma DigestStatus(e: Emulator, slot: nat, challenge: Key, useSn: bool)
    requires slot <= 15
    ensures HmacResponse(e, slot, challenge, useSn).Success? ||
            HmacResponse(e, slot, challenge, useSn) == Failure(BadCommunicationStatus)
    ensures MacResponse(e, slot, challenge, useSn).Success? ||
            MacResponse(e, slot, challenge, useSn) == Failure(BadCommunicationStatus)
  {
    hide KeyOf, Layout, SerialPart, FromValue;
  }

  /**
   A server chip with the key of a slot and the serial number of a file gives every challenge the
   digest that the file gives for that slot.
   */
  lemma ServerAgreesWithFile(text: string, crypto: Crypto, slot: nat, key: Key, sn: seq<byte>,
                             challenge: Key, useSn: bool)
    requires slot <= MAX_SLOT_NUMBER
    requires KeyOf(Emulator(FileBacked(text), [], crypto), slot) == Success(key)
    requires SerialOf(Emulator(FileBacked(text), [], crypto)) == Success(sn)
    ensures var file := Emulator(FileBacked(text), sn, crypto);
            var server := Emulator(ServerBacked(key), sn, crypto);
            && HmacResponse(file, slot, challenge, useSn) == HmacResponse(server, slot, challenge, useSn)
            && MacResponse(file, slot, challenge, useSn) == MacResponse(server, slot, challenge, useSn)
  {
    hide LineBytes, Layout, DigestMode, FromValue;
  }
}
