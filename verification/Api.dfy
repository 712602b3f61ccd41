/**
 Opening handles, selecting the slot by DNS record, and whole sequences of calls: the
 parts of api.c and dnsmagic.c that rest on the calls of the handle.
 */
module Api {
  import opened Bits
  import opened Bus
  import opened Chip
  import opened ChipLaws
  import opened Device
  import opened Digests
  import opened Emulation
  import opened EmulationLaws
  import opened KeyOrigin
  import opened Noise
  import opened Protocol
  import opened TextFile
  import opened Wrappers

  const DNS_ERR_CONST: byte := 255
  const DEFAULT_USE_SN_IN_DIGEST: bool := true

  function EmptyNumber(): BigInt {
    BigNumber(0, seq(MAX_DATA_SIZE, _ => 0))
  }

  /** A file from which a handle can be opened: OTP words 0, 1 and 2 can be read. */
  predicate Openable(text: string, crypto: Crypto) {
    var e := Emulator(FileBacked(text), [], crypto);
    SerialOf(e).Success? && OtpOf(e, 2).Success?
  }

  /** The emulated chip that a handle opened from a file stands for. */
  function Opened(text: string, crypto: Crypto): (e: Emulator)
    requires Openable(text, crypto)
    ensures e.backing == FileBacked(text) && e.crypto == crypto && SerialOf(e) == Success(e.sn)
  {
    var blank := Emulator(FileBacked(text), [], crypto);
    SameSerial(blank, Emulator(FileBacked(text), SerialOf(blank).value, crypto));
    Emulator(FileBacked(text), SerialOf(blank).value, crypto)
  }

  lemma SameSerial(e: Emulator, f: Emulator)
    requires e.backing == f.backing
    ensures SerialOf(e) == SerialOf(f)
  {
    hide LineBytes;
  }

  /** atsha_open_emulation: the handle caches the serial number and the key origin found in the file. */
  method OpenEmulation(file: File?, crypto: Crypto) returns (handle: Handle?)
    requires file != null ==> file.Valid()
    modifies file
    ensures file != null ==> file.Valid()
    ensures handle != null <==> file != null && Openable(file.text, crypto)
    ensures handle != null ==>
              && fresh(handle) && fresh(handle.nonce) && handle.file == file && handle.bus == null && handle.Valid()
              && handle.layer == EmulationLayer && !handle.isSrvEmulation && !handle.wakeIsExpected
              && handle.Emulated() == Opened(file.text, crypto)
              && handle.keyOriginCached && handle.keyOrigin == Fold(OtpOf(Opened(file.text, crypto), 2).value)
  {
    hide Transaction, Decoded, Acknowledged, ChallengeRun;
    hide OtpOf, SerialOf, Value, Fold;
    if file == null {
      return null;
    }
    ghost var e := Emulator(FileBacked(file.text), [], crypto);
    OtpWords();
    var h := new Handle(EmulationLayer, false, file, null, seq(SLOT_BYTE_LEN, _ => 0), 0, [], crypto);
    var status, number := h.SerialNumber(EmptyNumber());
    if status != Ok {
      return null;
    }
    h.sn := number.data[..number.bytes];
    assert h.sn == SerialOf(e).value;
    status, number := h.RawOtpRead(OTP_ORIGIN_KEY_SET, EmptyNumber());
    SameOtp(h.Emulated(), e, 2);
    if status != Ok {
      return null;
    }
    assert number.data[..4] == OtpOf(e, 2).value;
    h.keyOrigin := Uint32From4Bytes(number.data);
    FoldOfPrefix(number.data);
    h.keyOriginCached := true;
    return h;
  }

  lemma FoldOfPrefix(data: seq<byte>)
    requires |data| >= 4
    ensures Fold(data[..4]) == Fold(data)
  {
  }

  lemma SameOtp(e: Emulator, f: Emulator, word: nat)
    requires e.backing == f.backing
    ensures OtpOf(e, word) == OtpOf(f, word)
  {
  }

  /** atsha_open_server_emulation: slot, serial number and key as handed over. */
  method OpenServerEmulation(slotId: byte, serialNumber: seq<byte>, key: Key, crypto: Crypto) returns (handle: Handle)
    requires |serialNumber| >= 8
    ensures fresh(handle) && fresh(handle.nonce) && handle.file == null && handle.bus == null && handle.Valid()
    ensures handle.layer == EmulationLayer && handle.isSrvEmulation && handle.slotId == slotId
    ensures handle.Emulated() == Emulator(ServerBacked(key), serialNumber[..8], crypto)
  {
    handle := new Handle(EmulationLayer, true, null, null, key, slotId, serialNumber[..2 * OTP_BYTE_LEN], crypto);
  }

  // ---- Slot selection ----

  /** offset - key_origin in 32-bit arithmetic, cut to a byte; the offset is itself cut to a byte first. */
  function SlotFrom(txt: string, keyOrigin: nat): (slot: nat)
    ensures slot < 256
  {
    (Accumulated(txt) % 256 - keyOrigin) % TWO_TO_THE_32 % 256
  }

  /** The slot of an emulated chip: handed over, or computed from the DNS record and OTP word 2. */
  function SlotOf(e: Emulator, slotId: byte, txt: Option<string>): (slot: nat)
    ensures slot < 256
  {
    if e.backing.ServerBacked? then Value(slotId)
    else
      match txt
      case None => 255
      case Some(record) =>
        match OtpOf(e, 2)
        case Failure(_) => 255
        case Success(origin) => SlotFrom(record, Fold(origin))
  }

  /** A cached key origin is that of the chip on the bus, whose OTP memory no longer changes. */
  ghost predicate OriginOfChip(h: Handle)
    reads h, h.bus
  {
    h.keyOriginCached ==>
      h.bus != null && h.bus.chip.dataLocked && h.keyOrigin == Fold(h.bus.chip.otp[8..12])
  }

  /** atsha_find_slot_number; txt is the TXT record, if the resolver found one. */
  method FindSlotNumber(h: Handle, txt: Option<string>) returns (slot: byte)
    requires h.Valid()
    modifies h, h.nonce, h.file, h.bus
    ensures h.Valid() && h.sn == old(h.sn)
    ensures h.layer == EmulationLayer ==> Value(slot) == SlotOf(old(h.Emulated()), h.slotId, txt)
    ensures h.isSrvEmulation ==> slot == h.slotId
    ensures !h.isSrvEmulation && txt == None ==> Value(slot) == 255
    ensures old(h.keyOriginCached) ==> h.keyOriginCached && h.keyOrigin == old(h.keyOrigin)
    ensures h.layer == Ni2cLayer ==> h.bus.chip == old(h.bus.chip)
    ensures h.layer == Ni2cLayer && Tame(h.bus.world) && old(OriginOfChip(h)) ==> OriginOfChip(h)
    ensures h.layer == Ni2cLayer ==>
              Value(slot) == if txt.Some? && h.keyOriginCached then SlotFrom(txt.value, h.keyOrigin) else 255
  {
    hide OtpOf, Value, Fold, Accumulated, FromValue, Tame, Clean, StoredWord;
    if h.isSrvEmulation {
      return h.slotId;
    }
    Slot255();
    if txt == None {
      return DNS_ERR_CONST;
    }
    var number := NumberFromString(|txt.value|, txt.value);
    assert txt.value[..|txt.value|] == txt.value;
    var offset := number % 256;
    if h.layer == EmulationLayer {
      SameOtp(h.Emulated(), Emulator(FileBacked(h.file.text), [], h.crypto), 2);
    }
    if !h.keyOriginCached {
      var known := CacheKeyOrigin(h);
      if !known {
        return DNS_ERR_CONST;
      }
    }
    slot := FromValue((offset - h.keyOrigin) % TWO_TO_THE_32 % 256);
  }

  /** The branch of atsha_find_slot_number that reads the key origin from OTP memory. */
  method CacheKeyOrigin(h: Handle) returns (known: bool)
    requires h.Valid() && !h.isSrvEmulation && !h.keyOriginCached
    modifies h, h.nonce, h.file, h.bus
    ensures h.Valid() && h.sn == old(h.sn)
    ensures known <==> h.keyOriginCached
    ensures h.layer == EmulationLayer ==> known == OtpOf(old(h.Emulated()), 2).Success?
    ensures h.layer == EmulationLayer && known ==> h.keyOrigin == Fold(OtpOf(old(h.Emulated()), 2).value)
    ensures h.layer == Ni2cLayer ==> h.bus.chip == old(h.bus.chip)
    ensures h.layer == Ni2cLayer && Tame(h.bus.world) ==> OriginOfChip(h)
  {
    hide Transaction, Decoded, Acknowledged, ChallengeRun;
    hide OtpOf, Value, Fold, Tame, Clean;
    OtpWords();
    if h.layer == EmulationLayer {
      SameOtp(h.Emulated(), Emulator(FileBacked(h.file.text), [], h.crypto), 2);
    }
    var status, record := h.RawOtpRead(OTP_ORIGIN_KEY_SET, EmptyNumber());
    if status != Ok {
      return false;
    }
    FoldOfPrefix(record.data);
    h.keyOrigin := Uint32From4Bytes(record.data);
    h.keyOriginCached := true;
    return true;
  }

  lemma Slot255()
    ensures Value(DNS_ERR_CONST) == 255
  {
  }

  /**
   The slot selected from a decimal record is the record minus the big-endian key origin, modulo
   256: neither the 32-bit wrap nor the faulty fold of the origin shows.
   */
  lemma SlotSelection(e: Emulator, slotId: byte, record: string)
    requires e.backing.FileBacked? && OtpOf(e, 2).Success? && IsDecimal(record)
    ensures SlotOf(e, slotId, Some(record)) == (DecimalValue(record) - BigEndian(OtpOf(e, 2).value)) % 256
  {
    hide OtpOf;
    SlotIsDifference(record, OtpOf(e, 2).value);
  }

  /** The slot that a record selects on a chip. */
  function ChipSlot(m: Zones, record: string): (slot: nat)
    ensures slot < 256
  {
    SlotFrom(record, Fold(m.otp[8..12]))
  }

  /** The same for a chip on the bus. */
  lemma ChipSlotSelection(m: Zones, record: string)
    requires IsDecimal(record)
    ensures ChipSlot(m, record) == (DecimalValue(record) - BigEndian(m.otp[8..12])) % 256
  {
    SlotIsDifference(record, m.otp[8..12]);
  }

  /** What atsha_challenge_response gives over a chip on the bus. */
  function ChipResponse(m: Zones, record: string, challenge: BigInt): seq<byte>
    requires ChipSlot(m, record) <= MAX_SLOT_NUMBER
  {
    ChipHmac(m, ChipSlot(m, record), challenge.data, DEFAULT_USE_SN_IN_DIGEST)
  }

  lemma SameChipResponse(m: Zones, n: Zones, record: string, challenge: BigInt)
    requires SameMemory(m, n)
    ensures ChipSlot(n, record) == ChipSlot(m, record)
    ensures ChipSlot(m, record) <= MAX_SLOT_NUMBER ==>
              ChipResponse(n, record, challenge) == ChipResponse(m, record, challenge)
  {
    hide SlotFrom, Fold, ChipHmac;
    if ChipSlot(m, record) <= MAX_SLOT_NUMBER {
      SameDigests(m, n, ChipSlot(m, record), challenge.data, DEFAULT_USE_SN_IN_DIGEST);
    }
  }

  /** What atsha_low_challenge_response gives on an emulated chip, for challenges of any length. */
  function DigestOf(e: Emulator, slot: nat, challenge: BigInt, useSn: bool): (r: Result<seq<byte>>)
    ensures r.Success? ==> |r.value| == 32
  {
    if challenge.bytes != 32 then Failure(InvalidInput) else HmacResponse(e, slot, challenge.data, useSn)
  }

  function MacDigestOf(e: Emulator, slot: nat, challenge: BigInt, useSn: bool): (r: Result<seq<byte>>)
    ensures r.Success? ==> |r.value| == 32
  {
    if challenge.bytes != 32 then Failure(InvalidInput) else MacResponse(e, slot, challenge.data, useSn)
  }

  /** The response for the slot that a record selects; 255 counts as a failed lookup. */
  function SelectedResponse(e: Emulator, slotId: byte, txt: Option<string>, challenge: BigInt): (r: Result<seq<byte>>)
    ensures r.Success? ==> |r.value| == 32
  {
    var slot := SlotOf(e, slotId, txt);
    if slot == 255 then Failure(DnsGetKey) else DigestOf(e, slot, challenge, DEFAULT_USE_SN_IN_DIGEST)
  }

  /** What each branch of slot selection gives, and which status follows. */
  lemma SelectionStatus(e: Emulator, slotId: byte, txt: Option<string>, challenge: BigInt)
    ensures e.backing.ServerBacked? ==> SlotOf(e, slotId, txt) == Value(slotId)
    ensures e.backing.FileBacked? && (txt == None || OtpOf(e, 2).Failure?) ==> SlotOf(e, slotId, txt) == 255
    ensures var slot, r := SlotOf(e, slotId, txt), SelectedResponse(e, slotId, txt, challenge);
            && (slot == 255 ==> r == Failure(DnsGetKey))
            && (slot != 255 && (slot > 15 || challenge.bytes != 32) ==> r == Failure(InvalidInput))
            && (slot <= 15 && challenge.bytes == 32 ==> r == HmacResponse(e, slot, challenge.data, true))
  {
    hide OtpOf, Fold, Value, KeyOf, Layout, SerialPart, FromValue, Accumulated;
  }

  /** atsha_challenge_response: a computed slot of 255 cannot be told from a failed lookup. */
  method ChallengeResponse(h: Handle, txt: Option<string>, challenge: BigInt, before: BigInt)
    returns (status: Status, response: BigInt)
    requires h.Valid()
    modifies h, h.nonce, h.file, h.bus
    ensures h.Valid()
    ensures h.sn == old(h.sn)
    ensures status == Ok ==> !h.wakeIsExpected && response.bytes <= MAX_DATA_SIZE
    ensures h.layer == EmulationLayer ==>
              Given(SelectedResponse(old(h.Emulated()), h.slotId, txt, challenge), before, status, response)
    ensures !h.isSrvEmulation && txt == None ==> status == DnsGetKey && response == before
    ensures old(h.keyOriginCached) ==> h.keyOriginCached && h.keyOrigin == old(h.keyOrigin)
    ensures h.layer == Ni2cLayer ==> SameMemory(old(h.bus.chip), h.bus.chip)
    ensures h.layer == Ni2cLayer && Tame(h.bus.world) && old(OriginOfChip(h)) ==>
              && OriginOfChip(h)
              && (status == Ok ==>
                    && txt.Some? && ChipSlot(h.bus.chip, txt.value) <= MAX_SLOT_NUMBER && challenge.bytes == 32
                    && response == Store(before, ChipResponse(h.bus.chip, txt.value, challenge)))
  {
    hide Transaction, Decoded, Acknowledged, ChallengeRun;
    hide Value, SlotOf, HmacResponse, ChipHmac, SlotFrom, Fold, Tame, Clean;
    ghost var m := if h.layer == Ni2cLayer then Some(h.bus.chip) else None;
    var slotNumber := FindSlotNumber(h, txt);
    Slot255();
    if slotNumber == DNS_ERR_CONST {
      return DnsGetKey, before;
    }
    if Value(slotNumber) == 255 {
      ValueInjective(slotNumber, DNS_ERR_CONST);
    }
    status, response := h.LowChallengeResponse(slotNumber, challenge, before, DEFAULT_USE_SN_IN_DIGEST);
    if h.layer == Ni2cLayer && status == Ok {
      SameDigests(m.value, h.bus.chip, Value(slotNumber), challenge.data, DEFAULT_USE_SN_IN_DIGEST);
    }
  }

  /**
   A handle on the bus, from its first call on: whatever calls came before, an OK response is the chip's
   digest for the slot that the record and OTP word 2 select, whether the origin was cached or read.
   */
  method ChallengeAll(h: Handle, txts: seq<Option<string>>, challenges: seq<BigInt>)
    returns (statuses: seq<Status>, responses: seq<BigInt>)
    requires h.Valid() && h.layer == Ni2cLayer && Tame(h.bus.world) && OriginOfChip(h)
    requires |txts| == |challenges|
    modifies h, h.nonce, h.file, h.bus
    ensures h.Valid() && OriginOfChip(h) && SameMemory(old(h.bus.chip), h.bus.chip)
    ensures |statuses| == |responses| == |txts|
    ensures forall i :: 0 <= i < |txts| && statuses[i] == Ok ==>
              && txts[i].Some? && challenges[i].bytes == 32
              && ChipSlot(old(h.bus.chip), txts[i].value) <= MAX_SLOT_NUMBER
              && responses[i] == Store(EmptyNumber(), ChipResponse(old(h.bus.chip), txts[i].value, challenges[i]))
  {
    hide ChipHmac, ChipSlot, Fold, Tame;
    statuses, responses := [], [];
    for i := 0 to |txts|
      invariant h.Valid() && OriginOfChip(h) && SameMemory(old(h.bus.chip), h.bus.chip)
      invariant |statuses| == |responses| == i
      invariant forall j :: 0 <= j < i && statuses[j] == Ok ==>
                  && txts[j].Some? && challenges[j].bytes == 32
                  && ChipSlot(old(h.bus.chip), txts[j].value) <= MAX_SLOT_NUMBER
                  && responses[j] == Store(EmptyNumber(), ChipResponse(old(h.bus.chip), txts[j].value, challenges[j]))
    {
      ghost var m := h.bus.chip;
      var status, response := ChallengeResponse(h, txts[i], challenges[i], EmptyNumber());
      MemoryThroughout(old(h.bus.chip), m, h.bus.chip);
      if status == Ok {
        SameChipResponse(old(h.bus.chip), h.bus.chip, txts[i].value, challenges[i]);
      }
      statuses, responses := statuses + [status], responses + [response];
    }
  }

  // ---- Sequences of calls ----

  /** What fits a buffer of atsha_big_int. */
  type Contents = s: seq<byte> | |s| <= MAX_DATA_SIZE witness []

  type CrcField = s: seq<byte> | |s| == 2 witness [0, 0]

  datatype Call =
    | SlotReadCall(slot: byte)
    | OtpReadCall(word: byte)
    | ConfigReadCall(word: byte)
    | ChipSerialCall
    | SerialCall
    | HmacCall(slot: byte, challenge: BigInt, useSn: bool)
    | MacCall(slot: byte, challenge: BigInt, useSn: bool)
    | ChallengeCall(txt: Option<string>, challenge: BigInt)
    | SlotWriteCall(slot: byte, contents: Contents)
    | ConfigWriteCall(word: byte, contents: Contents)
    | Otp32WriteCall(word: byte, contents: Contents)
    | LockCall(zone: byte, crc: CrcField)

  /** What a call gives, as a function of the backing data and its arguments. */
  function Meaning(e: Emulator, slotId: byte, call: Call): Result<seq<byte>> {
    match call
    case SlotReadCall(slot) => SlotRead(e, slot)
    case OtpReadCall(word) => OtpOf(e, Value(word))
    case ConfigReadCall(word) => EmulatedConfig(e, word)
    case ChipSerialCall => ChipSerialOf(e)
    case SerialCall => SerialOf(e)
    case HmacCall(slot, challenge, useSn) => DigestOf(e, Value(slot), challenge, useSn)
    case MacCall(slot, challenge, useSn) => MacDigestOf(e, Value(slot), challenge, useSn)
    case ChallengeCall(txt, challenge) => SelectedResponse(e, slotId, txt, challenge)
    case SlotWriteCall(slot, _) => Failure(if Value(slot) > MAX_SLOT_NUMBER then InvalidInput else NotImplemented)
    case ConfigWriteCall(_, _) => Failure(NotImplemented)
    case Otp32WriteCall(_, contents) => Failure(if |contents| != 32 then InvalidInput else NotImplemented)
    case LockCall(_, _) => Failure(NotImplemented)
  }

  /** A number as its caller sets it up. */
  function NumberOf(contents: Contents): BigInt {
    BigNumber(|contents|, contents + seq(MAX_DATA_SIZE - |contents|, _ => 0))
  }

  predicate IsWrite(call: Call) {
    call.SlotWriteCall? || call.ConfigWriteCall? || call.Otp32WriteCall? || call.LockCall?
  }

  predicate IsDigest(call: Call) {
    call.HmacCall? || call.MacCall? || call.ChallengeCall?
  }

  /** A call that wakes the chip at most once; the others are made of several. */
  predicate IsSingle(call: Call) {
    !call.SerialCall? && !call.ChallengeCall?
  }

  /** Whether a call gets past the check of its arguments. */
  predicate Contacts(call: Call) {
    match call
    case SlotReadCall(slot) => Value(slot) <= MAX_SLOT_NUMBER
    case HmacCall(slot, challenge, _) => Value(slot) <= MAX_SLOT_NUMBER && challenge.bytes == 32
    case MacCall(slot, challenge, _) => Value(slot) <= MAX_SLOT_NUMBER && challenge.bytes == 32
    case SlotWriteCall(slot, _) => Value(slot) <= MAX_SLOT_NUMBER
    case Otp32WriteCall(_, contents) => |contents| == 32
    case _ => true
  }

  function StatusOf(result: Result<seq<byte>>): Status {
    if result.Success? then Ok else result.status
  }

  /** What any single call does about the wake flag and the pulses on the bus. */
  predicate WakeStep(call: Call, flag: bool, pulses: nat, result: Result<seq<byte>>,
                     flagAfter: bool, pulsesAfter: nat)
  {
    if Contacts(call) then WakeLaw(flag, pulses, StatusOf(result), flagAfter, pulsesAfter)
    else result.Failure? && flagAfter == flag && pulsesAfter == pulses
  }

  /** One call on a handle in any state. */
  method Perform(h: Handle, call: Call) returns (result: Result<seq<byte>>)
    requires h.Valid()
    modifies h, h.nonce, h.file, h.bus
    ensures h.Valid() && h.sn == old(h.sn)
    ensures h.layer == EmulationLayer ==> result == Meaning(old(h.Emulated()), h.slotId, call)
    ensures result.Success? && !IsWrite(call) ==> !h.wakeIsExpected
    ensures h.layer == Ni2cLayer && IsSingle(call) ==>
              WakeStep(call, old(h.wakeIsExpected), old(h.bus.pulses), result, h.wakeIsExpected, h.bus.pulses)
  {
    if IsWrite(call) {
      result := PerformWrite(h, call);
    } else if IsDigest(call) {
      result := PerformDigest(h, call);
    } else {
      result := PerformRead(h, call);
    }
  }

  method PerformWrite(h: Handle, call: Call) returns (result: Result<seq<byte>>)
    requires h.Valid() && IsWrite(call)
    modifies h`wakeIsExpected, h.nonce, h.file, h.bus
    ensures h.Valid()
    ensures h.layer == EmulationLayer ==> result == Meaning(old(h.Emulated()), h.slotId, call)
    ensures h.layer == Ni2cLayer ==>
              WakeStep(call, old(h.wakeIsExpected), old(h.bus.pulses), result, h.wakeIsExpected, h.bus.pulses)
  {
    hide Transaction, Decoded, Acknowledged, ChallengeRun;
    hide Value, Tame, Clean, Execute, Accepts, Ran, WrittenOnce, Succeeds, SlotWrite, ConfigWrite;
    var status;
    match call {
      case SlotWriteCall(slot, contents) =>
        status := h.RawSlotWrite(slot, NumberOf(contents));
      case ConfigWriteCall(word, contents) =>
        status := h.RawConfWrite(word, NumberOf(contents));
      case Otp32WriteCall(word, contents) =>
        status := h.RawOtp32Write(word, NumberOf(contents));
      case LockCall(zone, crc) =>
        status := h.Lock(zone, crc);
    }
    return if status == Ok then Success([]) else Failure(status);
  }

  method PerformRead(h: Handle, call: Call) returns (result: Result<seq<byte>>)
    requires h.Valid() && !IsWrite(call) && !IsDigest(call)
    modifies h`wakeIsExpected, h.nonce, h.file, h.bus
    ensures h.Valid()
    ensures h.layer == EmulationLayer ==> result == Meaning(old(h.Emulated()), h.slotId, call)
    ensures result.Success? ==> !h.wakeIsExpected
    ensures h.layer == Ni2cLayer && IsSingle(call) ==>
              WakeStep(call, old(h.wakeIsExpected), old(h.bus.pulses), result, h.wakeIsExpected, h.bus.pulses)
  {
    hide Transaction, Decoded, Acknowledged, ChallengeRun;
    hide SlotRead, OtpOf, EmulatedConfig, ChipSerialOf, SerialOf, Value;
    var status, number;
    match call {
      case SlotReadCall(slot) =>
        status, number := h.RawSlotRead(slot, EmptyNumber());
      case OtpReadCall(word) =>
        status, number := h.RawOtpRead(word, EmptyNumber());
      case ConfigReadCall(word) =>
        status, number := h.RawConfRead(word, EmptyNumber());
      case ChipSerialCall =>
        status, number := h.ChipSerialNumber(EmptyNumber());
      case SerialCall =>
        status, number := h.SerialNumber(EmptyNumber());
    }
    return if status == Ok then Success(number.data[..number.bytes]) else Failure(status);
  }

  method PerformDigest(h: Handle, call: Call) returns (result: Result<seq<byte>>)
    requires h.Valid() && IsDigest(call)
    modifies h, h.nonce, h.file, h.bus
    ensures h.Valid() && h.sn == old(h.sn)
    ensures h.layer == EmulationLayer ==> result == Meaning(old(h.Emulated()), h.slotId, call)
    ensures result.Success? ==> !h.wakeIsExpected
    ensures h.layer == Ni2cLayer && IsSingle(call) ==>
              WakeStep(call, old(h.wakeIsExpected), old(h.bus.pulses), result, h.wakeIsExpected, h.bus.pulses)
  {
    hide Transaction, Decoded, Acknowledged, ChallengeRun;
    hide HmacResponse, MacResponse, SelectedResponse, Value;
    var status, number;
    match call {
      case HmacCall(slot, challenge, useSn) =>
        status, number := h.LowChallengeResponse(slot, challenge, EmptyNumber(), useSn);
      case MacCall(slot, challenge, useSn) =>
        status, number := h.LowChallengeResponseMac(slot, challenge, EmptyNumber(), useSn);
      case ChallengeCall(txt, challenge) =>
        status, number := ChallengeResponse(h, txt, challenge, EmptyNumber());
    }
    return if status == Ok then Success(number.data[..number.bytes]) else Failure(status);
  }

  /**
   History independence: in any sequence of calls every call gives what it means on its own,
   whatever TempKey, file position, wake flag and cached key origin the calls before it have left, failed
   writes and locks included.
   */
  method PerformAll(h: Handle, calls: seq<Call>) returns (results: seq<Result<seq<byte>>>)
    requires h.Valid() && h.layer == EmulationLayer
    modifies h, h.nonce, h.file, h.bus
    ensures h.Valid() && h.Emulated() == old(h.Emulated())
    ensures |results| == |calls|
    ensures forall i :: 0 <= i < |calls| ==> results[i] == Meaning(old(h.Emulated()), h.slotId, calls[i])
    ensures calls != [] && results[|calls| - 1].Success? ==> !h.wakeIsExpected
  {
    hide Meaning;
    results := [];
    for i := 0 to |calls|
      invariant h.Valid() && h.Emulated() == old(h.Emulated())
      invariant |results| == i
      invariant forall j :: 0 <= j < i ==> results[j] == Meaning(old(h.Emulated()), h.slotId, calls[j])
      invariant i > 0 && results[i - 1].Success? ==> !h.wakeIsExpected
    {
      WritesFail(h.Emulated(), h.slotId, calls[i]);
      var result := Perform(h, calls[i]);
      results := results + [result];
    }
  }

  lemma WritesFail(e: Emulator, slotId: byte, call: Call)
    ensures IsWrite(call) ==> Meaning(e, slotId, call).Failure?
  {
  }

  /** All calls from number i up to number j failed. */
  predicate AllFailed(results: seq<Result<seq<byte>>>, i: nat, j: nat)
    requires i <= j <= |results|
  {
    forall k :: i <= k < j ==> results[k].Failure?
  }

  /**
   The wake flag over a run on the bus, one entry before each call and one after the last. Once a call
   has failed behind its argument checks, be it because the chip never woke up, no pulse is sent any more
   until some call succeeds.
   */
  method RunOnBus(h: Handle, calls: seq<Call>)
    returns (results: seq<Result<seq<byte>>>, flags: seq<bool>, pulses: seq<nat>)
    requires h.Valid() && h.layer == Ni2cLayer
    requires forall i :: 0 <= i < |calls| ==> IsSingle(calls[i])
    modifies h, h.nonce, h.file, h.bus
    ensures h.Valid()
    ensures |results| == |calls| && |flags| == |pulses| == |calls| + 1
    ensures flags[0] == old(h.wakeIsExpected) && pulses[0] == old(h.bus.pulses)
    ensures flags[|calls|] == h.wakeIsExpected && pulses[|calls|] == h.bus.pulses
    ensures forall i :: 0 <= i < |calls| && Contacts(calls[i]) ==> (flags[i + 1] <==> results[i].Failure?)
    ensures forall i, j :: 0 <= i <= j <= |calls| && flags[i] && AllFailed(results, i, j) ==>
              flags[j] && pulses[j] == pulses[i]
    ensures forall i :: 0 <= i < |calls| ==> pulses[i] <= pulses[i + 1] <= pulses[i] + EXCHANGES
  {
    hide Contacts;
    results, flags, pulses := [], [h.wakeIsExpected], [h.bus.pulses];
    for n := 0 to |calls|
      invariant h.Valid()
      invariant |results| == n && |flags| == |pulses| == n + 1
      invariant flags[0] == old(h.wakeIsExpected) && pulses[0] == old(h.bus.pulses)
      invariant flags[n] == h.wakeIsExpected && pulses[n] == h.bus.pulses
      invariant forall i :: 0 <= i < n && Contacts(calls[i]) ==> (flags[i + 1] <==> results[i].Failure?)
      invariant forall i, j :: 0 <= i <= j <= n && flags[i] && AllFailed(results, i, j) ==>
                  flags[j] && pulses[j] == pulses[i]
      invariant forall i :: 0 <= i < n ==> pulses[i] <= pulses[i + 1] <= pulses[i] + EXCHANGES
    {
      ghost var before := results;
      var result := Perform(h, calls[n]);
      results, flags, pulses := results + [result], flags + [h.wakeIsExpected], pulses + [h.bus.pulses];
      forall i, j | 0 <= i <= j <= n && AllFailed(results, i, j) ensures AllFailed(before, i, j) {
        assert forall k :: i <= k < j ==> results[k] == before[k];
      }
      forall i | 0 <= i <= n && AllFailed(results, i, n + 1) ensures AllFailed(before, i, n) && results[n].Failure? {
        assert forall k :: i <= k < n ==> results[k] == before[k];
      }
    }
  }

  // ---- The two backings ----

  predicate IsDigestCall(call: Call, slot: byte) {
    (call.HmacCall? || call.MacCall?) && call.slot == slot
  }

  /** A challenge put to a server handle, itself or by way of its slot number. */
  predicate SameRequest(call: Call, other: Call, slot: byte) {
    other == call || (other.ChallengeCall? && call == HmacCall(slot, other.challenge, true))
  }

  /** What a server chip needs of a file to stand for one of its slots. */
  lemma DigestsAgree(text: string, crypto: Crypto, slot: byte, key: Key, slotId: byte, call: Call, other: Call)
    requires Openable(text, crypto) && Value(slot) <= 15
    requires IsDigestCall(call, slot) && SameRequest(call, other, slot)
    requires KeyOf(Opened(text, crypto), Value(slot)) == Success(key)
    ensures Meaning(Emulator(ServerBacked(key), Opened(text, crypto).sn, crypto), slot, other) ==
            Meaning(Opened(text, crypto), slotId, call)
  {
    hide SerialOf, HmacResponse, MacResponse, Value;
    var e := Opened(text, crypto);
    SameKey(e, Emulator(FileBacked(text), [], crypto), Value(slot));
    SameSerial(e, Emulator(FileBacked(text), [], crypto));
    ServerAgreesWithFile(text, crypto, Value(slot), key, e.sn, call.challenge.data, call.useSn);
  }

  /** Only slot selection looks at the slot a server handle was opened for. */
  lemma SlotIdIgnored(e: Emulator, a: byte, b: byte, call: Call)
    requires !call.ChallengeCall?
    ensures Meaning(e, a, call) == Meaning(e, b, call)
  {
    hide SlotRead, OtpOf, ChipSerialOf, SerialOf, HmacResponse, MacResponse, EmulatedConfig, Value;
  }

  lemma SameKey(e: Emulator, f: Emulator, slot: nat)
    requires e.backing == f.backing
    ensures KeyOf(e, slot) == KeyOf(f, slot)
  {
  }

  /**
   A server handle opened with what a file handle reads out, the key of a slot and the serial number,
   answers every sequence of challenges for that slot as the file handle does, and the challenges that
   select the slot themselves as well, whatever the record. It can be opened exactly when the file opens
   and has that key.
   */
  method BackingsAgree(file: File, crypto: Crypto, slot: byte, calls: seq<Call>, others: seq<Call>)
    returns (ok: bool, fromFile: seq<Result<seq<byte>>>, fromServer: seq<Result<seq<byte>>>)
    requires file.Valid() && |calls| == |others|
    requires forall i :: 0 <= i < |calls| ==> IsDigestCall(calls[i], slot) && SameRequest(calls[i], others[i], slot)
    modifies file
    ensures ok <==> Openable(file.text, crypto) && SlotRead(Opened(file.text, crypto), slot).Success?
    ensures ok ==> fromServer == fromFile && |fromFile| == |calls|
    ensures ok ==> forall i :: 0 <= i < |calls| ==> fromFile[i] == Meaning(Opened(file.text, crypto), slot, calls[i])
  {
    hide Transaction, Decoded, Acknowledged, ChallengeRun;
    hide Openable, Opened, KeyOf, SerialOf, Meaning, Value;
    ok, fromFile, fromServer := false, [], [];
    var handle := OpenEmulation(file, crypto);
    if handle == null {
      return;
    }
    ghost var e := handle.Emulated();
    var status, number := handle.RawSlotRead(slot, EmptyNumber());
    if status != Ok {
      return;
    }
    var key := number.data;
    StoredWhole(EmptyNumber(), SlotRead(e, slot).value);
    var serial;
    status, serial := handle.SerialNumber(EmptyNumber());
    assert serial.data[..serial.bytes] == e.sn;
    var server := OpenServerEmulation(slot, serial.data[..serial.bytes], key, crypto);
    assert e.sn[..8] == e.sn;
    ok := true;
    fromFile := PerformAll(handle, calls);
    fromServer := PerformAll(server, others);
    forall i | 0 <= i < |calls|
      ensures fromServer[i] == fromFile[i] == Meaning(Opened(file.text, crypto), slot, calls[i])
    {
      DigestsAgree(file.text, crypto, slot, key, handle.slotId, calls[i], others[i]);
      SlotIdIgnored(e, handle.slotId, slot, calls[i]);
    }
  }
}
