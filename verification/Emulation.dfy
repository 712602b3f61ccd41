/**
 The emulated chip of emulation.c as a function of its backing data, its TempKey and a
 command packet, and the plain meaning of the library calls that run on it.
 */
module Emulation {
  import opened Bits
  import opened Digests
  import opened HexLine
  import opened Operations
  import opened Packets
  import opened Protocol
  import opened TextFile
  import opened Wrappers

  /** HMAC and SHA256 of OpenSSL; None is their NULL. HMAC reports the length of what it returns. */
  datatype Crypto = Crypto(hmac: (seq<byte>, seq<byte>) -> Option<seq<byte>>, sha256: seq<byte> -> Option<Digest>)

  /** Where an emulated chip keeps its data: in a text file, or in a key handed over by a server. */
  datatype Backing = FileBacked(text: string) | ServerBacked(key: Key)

  datatype Emulator = Emulator(backing: Backing, sn: seq<byte>, crypto: Crypto)

  datatype Result<+T> = Success(value: T) | Failure(status: ErrorStatus)

  // ---- The file format ----

  /** The bytes on one line of the file. */
  function LineBytes(text: string, k: nat, n: nat): (r: Result<seq<byte>>)
    ensures r.Success? ==> |r.value| == n
  {
    match Line(text, k)
    case None => Failure(ConfigFileBadFormat)
    case Some(line) =>
      match ParseLine(line, n)
      case None => Failure(ConfigFileBadFormat)
      case Some(bs) => Success(bs)
  }

  /** The key of a slot: line number slot. */
  function KeyOf(e: Emulator, slot: nat): (r: Result<seq<byte>>)
    ensures r.Success? ==> |r.value| == SLOT_BYTE_LEN
  {
    match e.backing
    case ServerBacked(key) => Success(key)
    case FileBacked(text) => LineBytes(text, slot, SLOT_BYTE_LEN)
  }

  /** A word of OTP memory: line number 16 + word. */
  function OtpOf(e: Emulator, word: nat): (r: Result<seq<byte>>)
    ensures r.Success? ==> |r.value| == OTP_BYTE_LEN
  {
    match e.backing
    case ServerBacked(_) => Failure(NotImplemented)
    case FileBacked(text) => LineBytes(text, 16 + word, OTP_BYTE_LEN)
  }

  /** The serial number of the chip: line number 32. */
  function ChipSerialOf(e: Emulator): (r: Result<seq<byte>>)
    ensures r.Success? ==> |r.value| == SN_BYTE_LEN
  {
    match e.backing
    case ServerBacked(_) => Success(seq(SN_BYTE_LEN, i requires 0 <= i => ByteAt(e.sn, i)))
    case FileBacked(text) => LineBytes(text, 32, SN_BYTE_LEN)
  }

  /** The serial number of our own: OTP words 0 and 1. */
  function SerialOf(e: Emulator): (r: Result<seq<byte>>)
    ensures r.Success? ==> |r.value| == 2 * OTP_BYTE_LEN
  {
    match OtpOf(e, 0)
    case Failure(status) => Failure(status)
    case Success(first) =>
      match OtpOf(e, 1)
      case Failure(status) => Failure(status)
      case Success(second) => Success(first + second)
  }

  /** The serial number as it lies in configuration memory, around a hole of four bytes. */
  function SnImage(sn: seq<byte>): (image: seq<byte>)
    requires |sn| == SN_BYTE_LEN
    ensures |image| == SLOT_BYTE_LEN
  {
    sn[..4] + seq(4, _ => 0) + sn[4..] + seq(19, _ => 0)
  }

  // ---- Digests ----

  /** OTP[0..7] as it enters a digest, when asked for. */
  function SerialPart(e: Emulator, useSn: bool): (s: seq<byte>)
    ensures |s| == 8
  {
    if useSn then seq(8, i requires 0 <= i => ByteAt(e.sn, i)) else seq(8, _ => 0)
  }

  /** The same as the emulator decides it, by bit 5 of the mode byte. */
  function SnPart(e: Emulator, mode: byte): (s: seq<byte>)
    ensures |s| == 8
  {
    SerialPart(e, mode & 0x20 != 0)
  }

  /** What atsha_low_challenge_response gives on an emulated chip. */
  function HmacResponse(e: Emulator, slot: nat, challenge: seq<byte>, useSn: bool): (r: Result<seq<byte>>)
    requires |challenge| == 32
    ensures r.Success? ==> |r.value| == 32
  {
    if slot > MAX_SLOT_NUMBER then Failure(InvalidInput)
    else
      var mode := if useSn then 0x24 else 0x04;
      match KeyOf(e, slot)
      case Failure(_) => Failure(BadCommunicationStatus)
      case Success(key) =>
        var message := Layout(seq(32, _ => 0), challenge, OPCODE_HMAC, mode, FromValue(slot), 0, SerialPart(e, useSn));
        match e.crypto.hmac(key, message)
        case None => Failure(BadCommunicationStatus)
        case Some(digest) => if |digest| != 32 then Failure(BadCommunicationStatus) else Success(digest)
  }

  /** What atsha_low_challenge_response_mac gives on an emulated chip. */
  function MacResponse(e: Emulator, slot: nat, challenge: seq<byte>, useSn: bool): (r: Result<seq<byte>>)
    requires |challenge| == 32
    ensures r.Success? ==> |r.value| == 32
  {
    if slot > MAX_SLOT_NUMBER then Failure(InvalidInput)
    else
      var mode := if useSn then 0x20 else 0x00;
      match KeyOf(e, slot)
      case Failure(_) => Failure(BadCommunicationStatus)
      case Success(key) =>
        match e.crypto.sha256(Layout(key, challenge, OPCODE_MAC, mode, FromValue(slot), 0, SerialPart(e, useSn)))
        case None => Failure(BadCommunicationStatus)
        case Some(digest) => Success(digest)
  }

  // ---- The command interpreter ----

  /** Long enough for the positions the emulator looks at; nonce and MAC carry 32 bytes. */
  predicate IsEmulCommand(p: Packet) {
    7 <= |p| < 0x100 && (p[1] == OPCODE_NONCE || p[1] == OPCODE_MAC ==> |p| >= 37)
  }

  /** An answer packet or the status that replaces it. */
  type Answer = Result<Frame>

  function Answered(r: Result<seq<byte>>): Answer
    requires r.Success? ==> |r.value| <= MAX_DATA_SIZE
  {
    match r
    case Success(bs) => Success(AnswerPacket(bs))
    case Failure(status) => Failure(status)
  }

  function EmulRead(e: Emulator, p: Packet): Answer
    requires IsEmulCommand(p)
  {
    if p[2] & 0x3 == IO_MEM_CONFIG then
      if p[3] != 0x00 then Failure(NotImplemented)
      else
        match ChipSerialOf(e)
        case Failure(status) => Failure(status)
        case Success(sn) => Success(AnswerPacket(SnImage(sn)))
    else if p[2] & 0x3 == IO_MEM_DATA then Answered(KeyOf(e, Value(p[3]) / 8))
    else if p[2] & 0x3 == IO_MEM_OTP then Answered(OtpOf(e, Value(p[3])))
    else Failure(NotImplemented)
  }

  /** The read that the HMAC and MAC commands make through the API, on the handle they run on. */
  function SlotRead(e: Emulator, slot: byte): (r: Result<seq<byte>>)
    ensures r.Success? ==> |r.value| == SLOT_BYTE_LEN
  {
    if Value(slot) > MAX_SLOT_NUMBER then Failure(InvalidInput) else KeyOf(e, Value(slot))
  }

  function EmulHmac(e: Emulator, nonce: Key, p: Packet): Answer
    requires IsEmulCommand(p)
  {
    match SlotRead(e, p[3])
    case Failure(_) => Failure(BadCommunicationStatus)
    case Success(key) =>
      match e.crypto.hmac(key, Layout(seq(32, _ => 0), nonce, OPCODE_HMAC, p[2], p[3], p[4], SnPart(e, p[2])))
      case None => Failure(BadCommunicationStatus)
      case Some(digest) => if |digest| != 32 then Failure(BadCommunicationStatus) else Success(AnswerPacket(digest))
  }

  function EmulMac(e: Emulator, p: Packet): Answer
    requires IsEmulCommand(p) && p[1] == OPCODE_MAC
  {
    match SlotRead(e, p[3])
    case Failure(_) => Failure(BadCommunicationStatus)
    case Success(key) =>
      match e.crypto.sha256(Layout(key, p[5..37], OPCODE_MAC, p[2], p[3], p[4], SnPart(e, p[2])))
      case None => Failure(BadCommunicationStatus)
      case Some(digest) => Success(AnswerPacket(digest))
  }

  const RANDOM_BYTES: seq<byte> := [
    0x55, 0xE3, 0xD9, 0x65, 0x6A, 0x82, 0x69, 0x33] + [
    0xB2, 0xAF, 0x9B, 0xCA, 0x64, 0x5C, 0x49, 0x0D] + [
    0x09, 0x27, 0xC3, 0x82, 0x0C, 0x32, 0x58, 0xBC] + [
    0x8D, 0x23, 0xEE, 0xC4, 0x04, 0xF3, 0xC4, 0x14]

  /** One command: its answer, and TempKey afterwards. */
  function EmulStep(e: Emulator, nonce: Key, p: Packet): (r: (Answer, Key))
    requires IsEmulCommand(p)
  {
    if p[1] == OPCODE_HMAC then (EmulHmac(e, nonce, p), nonce)
    else if p[1] == OPCODE_MAC then (EmulMac(e, p), nonce)
    else if p[1] == OPCODE_READ then (EmulRead(e, p), nonce)
    else if p[1] == OPCODE_NONCE then (Success(AnswerPacket([STATUS_SUCCES])), p[5..37])
    else if p[1] == OPCODE_RANDOM then (Success(AnswerPacket(RANDOM_BYTES)), nonce)
    else (Failure(NotImplemented), nonce)
  }
}
