/**
 The chip at the other end of the bus, as far as the library uses it: three memory zones, locks
 that close only on a matching checksum, TempKey, and digests under keys that stay inside.
 */
module Chip {
  import opened Bits
  import opened Checksum
  import opened Digests
  import opened Operations
  import opened Packets
  import opened Protocol
  import opened Wrappers

  const CONFIG_SIZE: nat := 88
  const DATA_SIZE: nat := 512
  const OTP_SIZE: nat := 64

  /** What is built in: the digest functions, and whether TempKey survives its use by the HMAC command. */
  datatype Silicon = Silicon(hmac: (seq<byte>, seq<byte>) -> Digest, sha256: seq<byte> -> Digest, keepsTempKey: bool)

  datatype Memory = Memory(
    config: seq<byte>, data: seq<byte>, otp: seq<byte>,
    configLocked: bool, dataLocked: bool,
    tempKey: Option<Key>, silicon: Silicon)

  type Zones = m: Memory | |m.config| == CONFIG_SIZE && |m.data| == DATA_SIZE && |m.otp| == OTP_SIZE
    witness Memory(
              seq(CONFIG_SIZE, _ => 0), seq(DATA_SIZE, _ => 0), seq(OTP_SIZE, _ => 0), false, false, None,
              Silicon((_, _) => seq(32, _ => 0), _ => seq(32, _ => 0), true))

  /** Large enough to have an opcode, two parameters and a checksum. */
  predicate IsCommand(p: Packet) {
    7 <= |p| < 0x100
  }

  function StatusAnswer(code: byte): Packet {
    AnswerPacket([code])
  }

  function Overwrite(s: seq<byte>, at: nat, bs: seq<byte>): (r: seq<byte>)
    requires at + |bs| <= |s|
    ensures |r| == |s|
  {
    s[..at] + bs + s[at + |bs|..]
  }

  function ZoneOf(m: Zones, param1: byte): seq<byte> {
    if param1 & 0x3 == IO_MEM_CONFIG then m.config
    else if param1 & 0x3 == IO_MEM_OTP then m.otp
    else m.data
  }

  /** How many bytes a read or write moves. */
  function Count(param1: byte): nat {
    if param1 & IO_RW_32_BYTES != 0 then 32 else 4
  }

  function SlotKey(m: Zones, slot: nat): Key
    requires slot <= MAX_SLOT_NUMBER
  {
    m.data[32 * slot..32 * slot + 32]
  }

  /** The configuration word of a slot starts with the byte that keeps its contents inside. */
  predicate Secret(m: Zones, slot: nat)
    requires slot <= MAX_SLOT_NUMBER
  {
    m.config[20 + 2 * slot] & 0x80 != 0
  }

  /** Configuration can be read at any time, OTP once the data zones are locked, then also slots that are not secret. */
  predicate Readable(m: Zones, param1: byte, at: nat) {
    if param1 & 0x3 == IO_MEM_CONFIG then true
    else if param1 & 0x3 == IO_MEM_OTP then m.dataLocked
    else m.dataLocked && at < DATA_SIZE && !Secret(m, at / 32)
  }

  /** Configuration can be written until it is locked, data and OTP between the two locks. */
  predicate Writable(m: Zones, param1: byte) {
    if param1 & 0x3 == IO_MEM_CONFIG then !m.configLocked
    else param1 & 0x3 != 3 && m.configLocked && !m.dataLocked
  }

  predicate WriteFits(m: Zones, p: Packet)
    requires IsCommand(p)
  {
    |p| - 7 == Count(p[2]) && 4 * Value(p[3]) + Count(p[2]) <= |ZoneOf(m, p[2])|
  }

  function Stored(m: Zones, param1: byte, at: nat, bs: seq<byte>): Zones
    requires at + |bs| <= |ZoneOf(m, param1)|
  {
    if param1 & 0x3 == IO_MEM_CONFIG then m.(config := Overwrite(m.config, at, bs))
    else if param1 & 0x3 == IO_MEM_OTP then m.(otp := Overwrite(m.otp, at, bs))
    else m.(data := Overwrite(m.data, at, bs))
  }

  function ExecuteRead(m: Zones, p: Packet): (answer: Packet)
    requires IsCommand(p)
    ensures |answer| >= 4
  {
    var at, n := 4 * Value(p[3]), Count(p[2]);
    if Readable(m, p[2], at) && at + n <= |ZoneOf(m, p[2])| then AnswerPacket(ZoneOf(m, p[2])[at..at + n])
    else StatusAnswer(STATUS_EXEC_ERROR)
  }

  function ExecuteWrite(m: Zones, p: Packet): (Zones, Packet)
    requires IsCommand(p)
  {
    if Writable(m, p[2]) && WriteFits(m, p) then
      (Stored(m, p[2], 4 * Value(p[3]), p[5..|p| - 2]), StatusAnswer(STATUS_SUCCES))
    else (m, StatusAnswer(STATUS_EXEC_ERROR))
  }

  /** A zone locks only when the checksum in the command is the checksum of what is stored. */
  function ExecuteLock(m: Zones, p: Packet): (Zones, Packet)
    requires IsCommand(p)
  {
    if p[2] == LOCK_CONFIG && !m.configLocked && p[3..5] == CrcBytes(m.config) then
      (m.(configLocked := true), StatusAnswer(STATUS_SUCCES))
    else if p[2] == LOCK_DATA && m.configLocked && !m.dataLocked && p[3..5] == CrcBytes(m.data + m.otp) then
      (m.(dataLocked := true), StatusAnswer(STATUS_SUCCES))
    else (m, StatusAnswer(STATUS_EXEC_ERROR))
  }

  /** A nonce in pass-through mode goes to TempKey as it is. */
  function ExecuteNonce(m: Zones, p: Packet): (Zones, Packet)
    requires IsCommand(p)
  {
    if p[2] == 0x03 && |p| == 39 then (m.(tempKey := Some(p[5..37])), StatusAnswer(STATUS_SUCCES))
    else (m, StatusAnswer(STATUS_PARSE_ERROR))
  }

  /** OTP[0..7] as it enters a digest, when asked for. */
  function OtpPart(m: Zones, useSn: bool): (s: seq<byte>)
    ensures |s| == 8
  {
    if useSn then m.otp[..8] else seq(8, _ => 0)
  }

  /** Digests are given once the data zones are locked. */
  predicate Digestible(m: Zones, p: Packet)
    requires IsCommand(p)
  {
    m.dataLocked && Value(p[3]) <= MAX_SLOT_NUMBER && p[4] == 0
  }

  function TempKeyUsed(m: Zones): Zones {
    if m.silicon.keepsTempKey then m else m.(tempKey := None)
  }

  /** HMAC of TempKey under a key, in the two modes the library sends. */
  function ExecuteHmac(m: Zones, p: Packet): (Zones, Packet)
    requires IsCommand(p)
  {
    if p[2] != 0x04 && p[2] != 0x24 then (m, StatusAnswer(STATUS_PARSE_ERROR))
    else if Digestible(m, p) && m.tempKey.Some? then
      var part := OtpPart(m, p[2] & 0x20 != 0);
      var message := Layout(seq(32, _ => 0), m.tempKey.value, OPCODE_HMAC, p[2], p[3], p[4], part);
      (TempKeyUsed(m), AnswerPacket(m.silicon.hmac(SlotKey(m, Value(p[3])), message)))
    else (m, StatusAnswer(STATUS_EXEC_ERROR))
  }

  /** SHA-256 of a key and the challenge in the command, in the two modes the library sends. */
  function ExecuteMac(m: Zones, p: Packet): (Zones, Packet)
    requires IsCommand(p)
  {
    if (p[2] != 0x00 && p[2] != 0x20) || |p| != 39 then (m, StatusAnswer(STATUS_PARSE_ERROR))
    else if Digestible(m, p) then
      var part := OtpPart(m, p[2] & 0x20 != 0);
      var message := Layout(SlotKey(m, Value(p[3])), p[5..37], OPCODE_MAC, p[2], p[3], p[4], part);
      (m, AnswerPacket(m.silicon.sha256(message)))
    else (m, StatusAnswer(STATUS_EXEC_ERROR))
  }

  /** One command: the memory afterwards and the answer. */
  function Execute(m: Zones, p: Packet): (r: (Zones, Packet))
    requires IsCommand(p)
    ensures |r.1| >= 4
  {
    if p[1] == OPCODE_READ then (m, ExecuteRead(m, p))
    else if p[1] == OPCODE_WRITE then ExecuteWrite(m, p)
    else if p[1] == OPCODE_LOCK then ExecuteLock(m, p)
    else if p[1] == OPCODE_NONCE then ExecuteNonce(m, p)
    else if p[1] == OPCODE_HMAC then ExecuteHmac(m, p)
    else if p[1] == OPCODE_MAC then ExecuteMac(m, p)
    else (m, StatusAnswer(STATUS_PARSE_ERROR))
  }

  lemma ExecuteAnswerAccepted(m: Zones, p: Packet)
    requires IsCommand(p)
    ensures WellFramed(Execute(m, p).1) && Accepted(Execute(m, p).1)
  {
    hide AnswerPacket, WellFramed, Accepted, CrcBytes, Stored, Readable, Writable, WriteFits, Value;
    hide Layout, TempKeyUsed, OtpPart, SlotKey, Digestible;
    AnswersAccepted();
  }

  lemma AnswersAccepted()
    ensures forall d: seq<byte> :: |d| <= 252 ==> WellFramed(AnswerPacket(d)) && Accepted(AnswerPacket(d))
  {
    hide AnswerPacket, WellFramed, Accepted;
    forall d: seq<byte> | |d| <= 252 ensures WellFramed(AnswerPacket(d)) && Accepted(AnswerPacket(d)) {
      AnswerRecovered(d);
    }
  }

  /** A write executed a second time writes the same bytes again. */
  lemma OverwriteTwice(s: seq<byte>, at: nat, bs: seq<byte>)
    requires at + |bs| <= |s|
    ensures Overwrite(Overwrite(s, at, bs), at, bs) == Overwrite(s, at, bs)
  {
  }
}
