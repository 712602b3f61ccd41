/** What the abstract chip answers to the packets of the library calls. */
module ChipLaws {
  import opened Bits
  import opened Chip
  import opened Digests
  import opened EmulationLaws
  import opened Noise
  import opened Operations
  import opened Packets
  import opened Protocol
  import opened Wrappers

  /** Nothing but TempKey has changed. */
  ghost predicate SameMemory(before: Zones, after: Zones) {
    after == before.(tempKey := after.tempKey)
  }

  /** The digest a challenge is answered with: HMAC under the key of a slot. */
  function ChipHmac(m: Zones, slot: nat, challenge: Key, useSn: bool): Digest
    requires slot <= MAX_SLOT_NUMBER
  {
    var mode := if useSn then 0x24 else 0x04;
    var message := Layout(seq(32, _ => 0), challenge, OPCODE_HMAC, mode, FromValue(slot), 0, OtpPart(m, useSn));
    m.silicon.hmac(SlotKey(m, slot), message)
  }

  /** The same with SHA-256, the key being part of the message. */
  function ChipMac(m: Zones, slot: nat, challenge: Key, useSn: bool): Digest
    requires slot <= MAX_SLOT_NUMBER
  {
    var mode := if useSn then 0x20 else 0x00;
    m.silicon.sha256(Layout(SlotKey(m, slot), challenge, OPCODE_MAC, mode, FromValue(slot), 0, OtpPart(m, useSn)))
  }

  /** Digests do not depend on TempKey as it was before. */
  lemma SameDigests(m: Zones, n: Zones, slot: nat, challenge: Key, useSn: bool)
    requires SameMemory(m, n) && slot <= MAX_SLOT_NUMBER
    ensures ChipHmac(n, slot, challenge, useSn) == ChipHmac(m, slot, challenge, useSn)
    ensures ChipMac(n, slot, challenge, useSn) == ChipMac(m, slot, challenge, useSn)
  {
    hide Layout, FromValue;
  }

  lemma MemoryThroughout(a: Zones, b: Zones, c: Zones)
    requires SameMemory(a, b) && SameMemory(b, c)
    ensures SameMemory(a, c)
  {
  }

  /** Nonce, HMAC and MAC touch nothing but TempKey. */
  lemma DigestsKeepMemory(m: Zones, p: Packet)
    requires IsCommand(p)
    ensures p[1] == OPCODE_NONCE || p[1] == OPCODE_HMAC ==> SameMemory(m, Execute(m, p).0)
    ensures p[1] == OPCODE_MAC ==> Execute(m, p).0 == m
  {
    hide AnswerPacket, Layout, Value, OtpPart, SlotKey;
  }

  /** The nonce command puts the challenge into TempKey. */
  lemma NonceOnChip(m: Zones, challenge: Key)
    ensures IsCommand(OpNonce(challenge))
    ensures Execute(m, OpNonce(challenge)) == (m.(tempKey := Some(challenge)), StatusAnswer(STATUS_SUCCES))
  {
    hide CommandPacket, AnswerPacket, Accepted, Value;
    CommandFields(OPCODE_NONCE, 0x03, 0, challenge);
    var p := OpNonce(challenge);
    assert p[5..|p| - 2] == p[5..37];
  }

  /** What comes out of TempKey is the digest of the challenge in it, once the data zones are locked. */
  lemma HmacOnChip(m: Zones, slot: nat, challenge: Key, useSn: bool)
    requires slot <= MAX_SLOT_NUMBER && m.tempKey == Some(challenge)
    ensures IsCommand(OpHmac(FromValue(slot), useSn))
    ensures var (after, answer) := Execute(m, OpHmac(FromValue(slot), useSn));
            && SameMemory(m, after)
            && answer == if m.dataLocked then AnswerPacket(ChipHmac(m, slot, challenge, useSn))
                         else StatusAnswer(STATUS_EXEC_ERROR)
  {
    hide CommandPacket, AnswerPacket, Accepted, Value, Layout, DigestMode, OtpPart, SlotKey;
    DigestModes(useSn);
    AddressedCommand(OPCODE_HMAC, DigestMode(0x04, useSn), FromValue(slot), []);
  }

  lemma MacOnChip(m: Zones, slot: nat, challenge: Key, useSn: bool)
    requires slot <= MAX_SLOT_NUMBER
    ensures IsCommand(OpMac(FromValue(slot), challenge, useSn))
    ensures Execute(m, OpMac(FromValue(slot), challenge, useSn)) ==
            (m, if m.dataLocked then AnswerPacket(ChipMac(m, slot, challenge, useSn))
                else StatusAnswer(STATUS_EXEC_ERROR))
  {
    hide CommandPacket, AnswerPacket, Accepted, Value, Layout, DigestMode, OtpPart, SlotKey;
    DigestModes(useSn);
    AddressedCommand(OPCODE_MAC, DigestMode(0x00, useSn), FromValue(slot), challenge);
    var p := OpMac(FromValue(slot), challenge, useSn);
    assert p[5..|p| - 2] == p[5..37];
  }

  // ---- Reads ----

  /** The answer to a read: what is stored there, or a refusal. */
  function ReadAnswer(stored: Option<seq<byte>>): Packet
    requires stored.Some? ==> |stored.value| <= MAX_DATA_SIZE
  {
    if stored.Some? then AnswerPacket(stored.value) else StatusAnswer(STATUS_EXEC_ERROR)
  }

  /** A secret slot never shows its contents, an open one does once the data zones are locked. */
  function StoredSlot(m: Zones, slot: nat): (r: Option<seq<byte>>)
    ensures r.Some? ==> |r.value| == SLOT_BYTE_LEN
  {
    if slot <= MAX_SLOT_NUMBER && m.dataLocked && !Secret(m, slot) then Some(SlotKey(m, slot)) else None
  }

  /** The address of a slot is where its key begins, counted in words. */
  lemma SlotBegins(slot: nat)
    requires slot <= MAX_SLOT_NUMBER
    ensures 4 * Value(GetSlotAddress(slot)) == 32 * slot
    ensures 32 * slot / 32 == slot && 32 * slot + 32 <= DATA_SIZE
  {
    hide Value, GetSlotAddress;
    SlotAddress(slot);
  }

  lemma SlotReadOnChip(m: Zones, slot: nat)
    requires slot <= MAX_SLOT_NUMBER
    ensures IsCommand(OpRawRead(READ_SLOT, GetSlotAddress(slot)))
    ensures ExecuteRead(m, OpRawRead(READ_SLOT, GetSlotAddress(slot))) == ReadAnswer(StoredSlot(m, slot))
  {
    hide CommandPacket, AnswerPacket, Accepted, WellFramed, Value, GetSlotAddress, Secret;
    AddressedCommand(OPCODE_READ, READ_SLOT, GetSlotAddress(slot), []);
    SlotBegins(slot);
    ZoneBits();
  }

  /** A word of OTP memory. */
  function StoredWord(m: Zones, word: nat): (r: Option<seq<byte>>)
    ensures r.Some? ==> |r.value| == OTP_BYTE_LEN
  {
    if m.dataLocked && word < 16 then Some(m.otp[4 * word..4 * word + 4]) else None
  }

  lemma OtpReadOnChip(m: Zones, word: byte)
    ensures IsCommand(OpRawRead(READ_OTP, word))
    ensures ExecuteRead(m, OpRawRead(READ_OTP, word)) == ReadAnswer(StoredWord(m, Value(word)))
  {
    hide CommandPacket, AnswerPacket, Accepted, Value;
    AddressedCommand(OPCODE_READ, READ_OTP, word, []);
    ZoneBits();
  }

  /** A word of configuration memory. */
  function StoredConfig(m: Zones, word: nat): (r: Option<seq<byte>>)
    ensures r.Some? ==> |r.value| == 4
  {
    if word < 22 then Some(m.config[4 * word..4 * word + 4]) else None
  }

  lemma ConfigReadOnChip(m: Zones, word: byte)
    ensures IsCommand(OpRawRead(READ_CONFIG, word))
    ensures ExecuteRead(m, OpRawRead(READ_CONFIG, word)) == ReadAnswer(StoredConfig(m, Value(word)))
  {
    hide CommandPacket, AnswerPacket, Accepted, Value;
    AddressedCommand(OPCODE_READ, READ_CONFIG, word, []);
    ZoneBits();
  }

  /** The serial number lies in configuration memory, around a hole of four bytes. */
  function SerialOnChip(m: Zones): (sn: seq<byte>)
    ensures |sn| == SN_BYTE_LEN
  {
    m.config[0..4] + m.config[8..13]
  }

  lemma SerialReadOnChip(m: Zones)
    ensures IsCommand(OpSerialNumber())
    ensures ExecuteRead(m, OpSerialNumber()) == AnswerPacket(m.config[..32])
    ensures Gathered(AnswerPacket(m.config[..32])[1..]) == SerialOnChip(m)
  {
    hide CommandPacket, AnswerPacket, Accepted, Value, FromValue;
    SplitWord(0, 0);
    AddressedCommand(OPCODE_READ, READ_SERIAL, 0, []);
    assert OpSerialNumber() == CommandPacket(OPCODE_READ, READ_SERIAL, (0 as byte) as bv16, []);
    ZoneBits();
    ValueOfZero();
    AnswerShape(m.config[..32]);
    GatheredConfig(m, AnswerPacket(m.config[..32])[1..][32..]);
  }

  lemma ValueOfZero()
    ensures Value(0) == 0
  {
  }

  lemma GatheredConfig(m: Zones, tail: seq<byte>)
    ensures Gathered(m.config[..32] + tail) == SerialOnChip(m)
  {
    var image := m.config[..32] + tail;
    var c := m.config;
    assert image[0] == c[0] && image[1] == c[1] && image[2] == c[2] && image[3] == c[3];
    assert image[8] == c[8] && image[9] == c[9] && image[10] == c[10] && image[11] == c[11] && image[12] == c[12];
  }

  /** A read is accepted exactly when there is something to read. */
  lemma ReadAccepted(stored: Option<seq<byte>>)
    requires stored.Some? ==> 2 <= |stored.value| <= MAX_DATA_SIZE
    ensures Accepts(ReadAnswer(stored)) <==> stored.Some?
    ensures stored.Some? ==> Payload(ReadAnswer(stored)) == stored.value
  {
    hide AnswerPacket, Accepted, WellFramed, Accepts;
    if stored.Some? {
      LongAnswerAccepted(stored.value);
    } else {
      ErrorTurnedDown(STATUS_EXEC_ERROR);
    }
  }

  /** The two commands of a challenge, as the retry loop will see them. */
  lemma ChallengeOnChip(m: Zones, slot: nat, challenge: Key, useSn: bool)
    requires slot <= MAX_SLOT_NUMBER
    ensures IsCommand(OpNonce(challenge)) && IsCommand(OpHmac(FromValue(slot), useSn))
    ensures var (stored, done) := Execute(m, OpNonce(challenge));
            && stored == m.(tempKey := Some(challenge)) && done[1] == STATUS_SUCCES && Accepts(done)
    ensures var (after, answer) := Execute(m.(tempKey := Some(challenge)), OpHmac(FromValue(slot), useSn));
            && SameMemory(m, after)
            && (Accepts(answer) <==> m.dataLocked)
            && (m.dataLocked ==> answer == AnswerPacket(ChipHmac(m, slot, challenge, useSn)))
  {
    hide OpNonce, OpHmac, Execute, ChipHmac, AnswerPacket, Accepts, Value, FromValue;
    var stored := m.(tempKey := Some(challenge));
    NonceOnChip(m, challenge);
    SuccessAccepted();
    HmacOnChip(stored, slot, challenge, useSn);
    SameDigests(m, stored, slot, challenge, useSn);
    LongAnswerAccepted(ChipHmac(m, slot, challenge, useSn));
    ErrorTurnedDown(STATUS_EXEC_ERROR);
  }

  lemma MacChallengeOnChip(m: Zones, slot: nat, challenge: Key, useSn: bool)
    requires slot <= MAX_SLOT_NUMBER
    ensures IsCommand(OpMac(FromValue(slot), challenge, useSn))
    ensures var (after, answer) := Execute(m, OpMac(FromValue(slot), challenge, useSn));
            && after == m
            && (Accepts(answer) <==> m.dataLocked)
            && (m.dataLocked ==> answer == AnswerPacket(ChipMac(m, slot, challenge, useSn)))
  {
    hide OpMac, Execute, ChipMac, AnswerPacket, Accepts, Value, FromValue;
    MacOnChip(m, slot, challenge, useSn);
    LongAnswerAccepted(ChipMac(m, slot, challenge, useSn));
    ErrorTurnedDown(STATUS_EXEC_ERROR);
  }
}
