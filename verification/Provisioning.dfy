/**
 chiptools/init.c: a configuration file is written into a chip and locked there. The
 library works on its own copy of the configuration zone and on the bytes of the file;
 the chip decides by checksum whether it agrees.
 */
module Provisioning {
  import opened Api
  import opened Bits
  import opened Checksum
  import opened Chip
  import opened ChipLaws
  import opened Device
  import opened Digests
  import opened Emulation
  import opened EmulationLaws
  import opened HexLine
  import opened Noise
  import opened Operations
  import opened Packets
  import opened Protocol
  import opened TextFile
  import opened Wrappers

  const BYTESIZE_KEY: nat := 32
  const BYTESIZE_OTP: nat := 4
  const BYTESIZE_CNF: nat := 4
  const SLOT_CNT: nat := 16
  const CONFIG_CNT: nat := 22
  const SLOT_CONFIG: byte := 0x80
  const OTPMODE_READONLY: byte := 0xAA

  // ---- Reading the file ----

  /** The bytes of the next k lines, n on each. */
  function Table(s: string, n: nat, k: nat): (r: Option<seq<byte>>)
    ensures r.Some? ==> |r.value| == n * k
    decreases |s|, k
  {
    if k == 0 then Some([])
    else
      match FirstLine(s)
      case None => None
      case Some(line) =>
        match ParseLine(line, n)
        case None => None
        case Some(bs) => Prepend(bs, Table(s[FirstLength(s)..], n, k - 1))
  }

  /** read_config: sixteen lines into one flat buffer. */
  method ReadConfig(conf: File, data: array<byte>, lineCnt: nat) returns (ok: bool)
    requires conf.Valid() && data.Length == SLOT_CNT * lineCnt
    modifies conf, data
    ensures conf.Valid()
    ensures ok <==> Table(old(conf.Rest()), lineCnt, SLOT_CNT).Some?
    ensures ok ==> data[..] == Table(old(conf.Rest()), lineCnt, SLOT_CNT).value
    ensures ok ==> conf.Rest() == After(old(conf.Rest()), SLOT_CNT)
  {
    hide ParseLine, Table, After;
    var item := 0;
    ghost var all := Table(conf.Rest(), lineCnt, SLOT_CNT);
    PrependNothing(all);
    AfterNone(conf.Rest());
    while item < SLOT_CNT
      invariant item <= SLOT_CNT && conf.Valid()
      invariant lineCnt * item <= data.Length
      invariant all == Prepend(data[..lineCnt * item], Table(conf.Rest(), lineCnt, SLOT_CNT - item))
      invariant conf.Rest() == After(old(conf.Rest()), item)
    {
      ghost var rest := conf.Rest();
      ghost var read := data[..lineCnt * item];
      AfterOneMore(old(conf.Rest()), item);
      TableNext(rest, lineCnt, SLOT_CNT - item);
      var line := conf.Fgets();
      if line == None {
        return false;
      }
      Row(lineCnt, item);
      var parsed := ReadBytes(line.value, data, lineCnt * item, lineCnt);
      if !parsed {
        return false;
      }
      ghost var bs := data[lineCnt * item..lineCnt * item + lineCnt];
      PrependPrepend(read, bs, Table(conf.Rest(), lineCnt, SLOT_CNT - item - 1));
      item := item + 1;
      assert data[..lineCnt * item] == read + bs;
    }
    TableNone(conf.Rest(), lineCnt);
    assert data[..lineCnt * item] + [] == data[..];
    return true;
  }

  lemma Row(n: nat, item: nat)
    requires item < SLOT_CNT
    ensures n * item + n == n * (item + 1) <= SLOT_CNT * n
  {
  }

  lemma AfterNone(s: string)
    ensures After(s, 0) == s
  {
  }

  lemma TableNone(s: string, n: nat)
    ensures Table(s, n, 0) == Some([])
  {
  }

  lemma TableNext(s: string, n: nat, k: nat)
    requires k > 0
    ensures Table(s, n, k) ==
            if FirstLine(s).None? || ParseLine(FirstLine(s).value, n).None? then None
            else Prepend(ParseLine(FirstLine(s).value, n).value, Table(s[FirstLength(s)..], n, k - 1))
  {
  }

  /** Row i of the table is what line i parses to. */
  lemma {:induction false} TableRow(s: string, n: nat, k: nat, i: nat)
    requires Table(s, n, k).Some? && i < k
    ensures n * i + n <= n * k
    ensures LineBytes(s, i, n) == Success(Table(s, n, k).value[n * i..n * i + n])
    decreases k
  {
    hide ParseLine, After;
    TableNext(s, n, k);
    LineNext(s, i, n);
    hide Table, LineBytes, FirstLine, FirstLength;
    var t := Table(s, n, k).value;
    RowFits(n, i, k);
    if i > 0 {
      var rest := s[FirstLength(s)..];
      TableRow(rest, n, k - 1, i - 1);
      RowFits(n, i - 1, k - 1);
      RowOfTail(t[..n], Table(rest, n, k - 1).value, n * (i - 1), n);
    }
  }

  lemma RowOfTail(head: seq<byte>, tail: seq<byte>, at: nat, n: nat)
    requires |head| == n && at + n <= |tail|
    ensures (head + tail)[at + n..at + n + n] == tail[at..at + n]
  {
  }

  /** Line i of a text is line i - 1 of what follows its first line. */
  lemma LineNext(s: string, i: nat, n: nat)
    ensures i > 0 ==> LineBytes(s, i, n) == LineBytes(s[FirstLength(s)..], i - 1, n)
    ensures i == 0 && FirstLine(s).Some? && ParseLine(FirstLine(s).value, n).Some? ==>
              LineBytes(s, i, n) == Success(ParseLine(FirstLine(s).value, n).value)
  {
    hide ParseLine;
  }

  lemma RowFits(n: nat, i: nat, k: nat)
    requires i < k
    ensures n * i + n <= n * k
    ensures i > 0 ==> n * i == n * (i - 1) + n
  {
    assert n * (i + 1) <= n * k;
  }

  // ---- What the chip makes of the packets ----

  lemma LockBits()
    ensures GetLockConfig(LOCK_CONFIG) == LOCK_CONFIG && GetLockConfig(LOCK_DATA) == LOCK_DATA
    ensures LOCK_DATA != LOCK_CONFIG
  {
  }

  /** A chip accepts a write exactly when the zone is open; then the bytes are in place and nothing else has changed. */
  ghost predicate WriteOutcome(m: Zones, p: Packet, open: bool, written: Zones)
    requires IsCommand(p)
  {
    if open then Execute(m, p).0 == written && Succeeds(m, p)
    else Execute(m, p).0 == m && Execute(m, p).1[1] != STATUS_SUCCES
  }

  lemma ChipWrite(m: Zones, p: Packet)
    requires IsCommand(p) && p[1] == OPCODE_WRITE
    requires WriteFits(m, p)
    ensures WriteOutcome(m, p, Writable(m, p[2]), Stored(m, p[2], 4 * Value(p[3]), p[5..|p| - 2]))
  {
    hide Value, StatusAnswer, Stored, Accepts, Writable;
    SuccessAccepted();
  }

  lemma ChipConfigWrite(m: Zones, address: byte, bs: seq<byte>)
    requires Value(address) < CONFIG_CNT && |bs| == 4
    ensures WriteOutcome(m, OpRawWrite(READ_CONFIG, address, bs), !m.configLocked,
                         m.(config := Overwrite(m.config, 4 * Value(address), bs)))
  {
    hide CommandPacket, Value, Accepted, WellFramed, Overwrite, WriteOutcome;
    AddressedCommand(OPCODE_WRITE, READ_CONFIG, address, bs);
    ZoneBits();
    ChipWrite(m, OpRawWrite(READ_CONFIG, address, bs));
  }

  lemma ChipSlotWrite(m: Zones, slot: nat, bs: seq<byte>)
    requires slot < SLOT_CNT && |bs| == 32
    ensures WriteOutcome(m, OpRawWrite(READ_SLOT, GetSlotAddress(slot), bs), m.configLocked && !m.dataLocked,
                         m.(data := Overwrite(m.data, 32 * slot, bs)))
  {
    hide CommandPacket, Value, Accepted, WellFramed, Overwrite, WriteOutcome, GetSlotAddress;
    AddressedCommand(OPCODE_WRITE, READ_SLOT, GetSlotAddress(slot), bs);
    SlotAddress(slot);
    ZoneBits();
    ChipWrite(m, OpRawWrite(READ_SLOT, GetSlotAddress(slot), bs));
  }

  lemma ChipOtpWrite(m: Zones, address: byte, bs: seq<byte>)
    requires (Value(address) == 0 || Value(address) == 8) && |bs| == 32
    ensures WriteOutcome(m, OpRawWrite(WRITE_OTP_32, address, bs), m.configLocked && !m.dataLocked,
                         m.(otp := Overwrite(m.otp, 4 * Value(address), bs)))
  {
    hide CommandPacket, Value, Accepted, WellFramed, Overwrite, WriteOutcome;
    AddressedCommand(OPCODE_WRITE, WRITE_OTP_32, address, bs);
    ZoneBits();
    ChipWrite(m, OpRawWrite(WRITE_OTP_32, address, bs));
  }

  /** The lock commands succeed exactly when the checksum sent is that of the zone as it stands. */
  lemma ChipLock(m: Zones, lockWhat: byte, crc: seq<byte>)
    requires |crc| == 2 && (lockWhat == LOCK_CONFIG || lockWhat == LOCK_DATA)
    ensures lockWhat == LOCK_CONFIG ==>
              WriteOutcome(m, OpLock(GetLockConfig(lockWhat), crc), !m.configLocked && crc == CrcBytes(m.config),
                           m.(configLocked := true))
    ensures lockWhat == LOCK_DATA ==>
              WriteOutcome(m, OpLock(GetLockConfig(lockWhat), crc),
                           m.configLocked && !m.dataLocked && crc == CrcBytes(m.data + m.otp), m.(dataLocked := true))
  {
    hide OpLock, CrcBytes, StatusAnswer, Accepted, Accepts;
    LockFields(GetLockConfig(lockWhat), crc);
    LockLength(GetLockConfig(lockWhat), crc);
    LockBits();
    SuccessAccepted();
  }

  // ---- Configuration zone ----

  /** A handle on a bus, of which nothing else is known. */
  ghost predicate Ready(h: Handle)
    reads h, h.file
  {
    h.Valid() && h.layer == Ni2cLayer
  }

  /** The configuration with the OTP mode byte set. */
  function OtpModeSet(config: seq<byte>): (r: seq<byte>)
    requires |config| == CONFIG_SIZE
    ensures |r| == CONFIG_SIZE
  {
    config[0x04 * BYTESIZE_CNF + 2 := OTPMODE_READONLY]
  }

  /** The configuration with the slot words from 5 up to an address set. */
  function SlotsSet(config: seq<byte>, upto: nat): (r: seq<byte>)
    requires |config| == CONFIG_SIZE && 5 <= upto <= CONFIG_CNT
    ensures |r| == CONFIG_SIZE
  {
    config[..20] + seq(4 * upto - 20, _ => SLOT_CONFIG) + config[4 * upto..]
  }

  /** What provisioning turns the configuration zone into. */
  function Personalised(config: seq<byte>): (r: seq<byte>)
    requires |config| == CONFIG_SIZE
    ensures |r| == CONFIG_SIZE
    ensures forall i :: 0 <= i < CONFIG_SIZE ==>
              r[i] == if i == 18 then 0xAA else if 20 <= i < 52 then 0x80 else config[i]
  {
    SlotsSet(OtpModeSet(config), 13)
  }

  /** Nothing but configuration bytes has changed. */
  ghost predicate SameButConfig(m: Zones, n: Zones) {
    n == m.(config := n.config)
  }

  /** A write to the configuration zone, whatever it carries. */
  lemma ConfigWriteFrame(m: Zones, address: byte, number: BigInt)
    requires number.bytes <= MAX_DATA_SIZE
    ensures IsCommand(ConfigWrite(address, number))
    ensures SameButConfig(m, Execute(m, ConfigWrite(address, number)).0)
  {
    hide CommandPacket, Value, Accepted, WellFramed, Overwrite, StatusAnswer;
    AddressedCommand(OPCODE_WRITE, READ_CONFIG, address, number.data[..number.bytes]);
    ZoneBits();
  }

  lemma SameThroughout(a: Zones, b: Zones, c: Zones)
    requires SameButConfig(a, b) && SameButConfig(b, c)
    ensures SameButConfig(a, c)
  {
  }

  lemma OtpModeWrite(config: seq<byte>, record: seq<byte>)
    requires |config| == CONFIG_SIZE && record == config[16..20][2 := OTPMODE_READONLY]
    ensures Overwrite(config, 16, record) == OtpModeSet(config)
  {
  }

  lemma SlotWordWrite(config: seq<byte>, n: nat, record: seq<byte>)
    requires |config| == CONFIG_SIZE && 5 <= n < CONFIG_CNT
    requires record == seq(4, _ => SLOT_CONFIG)
    ensures Overwrite(SlotsSet(config, n), 4 * n, record) == SlotsSet(config, n + 1)
  {
  }

  /** A configuration record comes from the chip. */
  method FetchRecord(h: Handle, address: byte, before: BigInt) returns (ok: bool, record: BigInt)
    requires Ready(h) && Value(address) < CONFIG_CNT
    modifies h`wakeIsExpected, h.nonce, h.file, h.bus
    ensures Ready(h) && h.bus.chip == old(h.bus.chip)
    ensures ok ==> record.bytes <= MAX_DATA_SIZE
    ensures FitsRecords(h.bus.world) && ok ==> record.bytes <= 4
    ensures Tame(h.bus.world) && ok ==>
              && record.bytes == 4
              && record.data[..4] == h.bus.chip.config[4 * Value(address)..4 * Value(address) + 4]
    ensures Tame(h.bus.world) && Clean(h.bus.world) ==> ok
  {
    hide Transaction, Decoded, Tame, Clean, FitsRecords, Value, OpRawRead;
    var status;
    status, record := h.RawConfRead(address, before);
    return status == Ok, record;
  }

  /** A configuration record goes back to the chip. */
  method WriteRecord(h: Handle, address: byte, record: BigInt) returns (ok: bool)
    requires Ready(h) && record.bytes <= MAX_DATA_SIZE && Value(address) < CONFIG_CNT
    modifies h`wakeIsExpected, h.nonce, h.file, h.bus
    ensures Ready(h) && SameButConfig(old(h.bus.chip), h.bus.chip)
    ensures Tame(h.bus.world) && record.bytes == 4 && ok ==>
              && !old(h.bus.chip).configLocked
              && h.bus.chip.config == Overwrite(old(h.bus.chip).config, 4 * Value(address), record.data[..4])
    ensures Tame(h.bus.world) && Clean(h.bus.world) && record.bytes == 4 && !old(h.bus.chip).configLocked ==> ok
  {
    hide Transaction, Acknowledged, Tame, Clean, Overwrite, Execute, OpRawWrite, Value, Succeeds;
    ConfigWriteFrame(h.bus.chip, address, record);
    if record.bytes == 4 {
      ChipConfigWrite(h.bus.chip, address, record.data[..4]);
    }
    var status := h.RawConfWrite(address, record);
    return status == Ok;
  }

  /** set_otp_mode: read, change one byte, write back, and do the same to the copy. */
  method SetOtpMode(h: Handle, config: array<byte>) returns (ok: bool)
    requires Ready(h) && config.Length == CONFIG_SIZE && config != h.nonce
    requires Tame(h.bus.world) ==> config[..] == h.bus.chip.config
    modifies h`wakeIsExpected, h.nonce, h.file, h.bus, config
    ensures Ready(h) && SameButConfig(old(h.bus.chip), h.bus.chip)
    ensures Tame(h.bus.world) && ok ==>
              && h.bus.chip.config == OtpModeSet(old(h.bus.chip).config) && config[..] == h.bus.chip.config
              && !old(h.bus.chip).configLocked
    ensures Tame(h.bus.world) && Clean(h.bus.world) && !old(h.bus.chip).configLocked ==> ok
  {
    ghost var tame := Tame(h.bus.world);
    hide Tame, Clean, FitsRecords, Overwrite, Value;
    ghost var m := h.bus.chip;
    var address := FromValue(0x04);
    var record;
    ok, record := FetchRecord(h, address, EmptyNumber());
    if !ok {
      return;
    }
    record := record.(data := record.data[2 := OTPMODE_READONLY]);
    if tame {
      assert record.data[..4] == m.config[16..20][2 := OTPMODE_READONLY];
      OtpModeWrite(m.config, record.data[..4]);
    }
    ok := WriteRecord(h, address, record);
    if !ok {
      return;
    }
    config[0x04 * BYTESIZE_CNF + 2] := OTPMODE_READONLY;
  }

  /** set_slot_config: the eight words of slot configuration. */
  method SetSlotConfig(h: Handle, config: array<byte>) returns (ok: bool)
    requires Ready(h) && config.Length == CONFIG_SIZE && config != h.nonce
    requires Tame(h.bus.world) ==> config[..] == h.bus.chip.config
    modifies h`wakeIsExpected, h.nonce, h.file, h.bus, config
    ensures Ready(h) && SameButConfig(old(h.bus.chip), h.bus.chip)
    ensures Tame(h.bus.world) && ok ==>
              h.bus.chip.config == SlotsSet(old(h.bus.chip).config, 13) && config[..] == h.bus.chip.config
    ensures Tame(h.bus.world) && Clean(h.bus.world) && !old(h.bus.chip).configLocked ==> ok
  {
    ghost var tame := Tame(h.bus.world);
    hide Tame, Clean, Overwrite, SlotsSet, Handle.Valid;
    ghost var c := h.bus.chip.config;
    NoSlotsSet(c);
    for addr := 0x05 to 0x0D
      invariant Ready(h) && SameButConfig(old(h.bus.chip), h.bus.chip)
      invariant tame ==> h.bus.chip.config == SlotsSet(c, addr) == config[..]
    {
      ghost var m := h.bus.chip;
      ok := SetSlotWord(h, addr, config);
      SameThroughout(old(h.bus.chip), m, h.bus.chip);
      if !ok {
        return;
      }
      SlotWordWrite(c, addr, seq(4, _ => SLOT_CONFIG));
    }
    return true;
  }

  /** One turn of the loop of set_slot_config. */
  method SetSlotWord(h: Handle, addr: nat, config: array<byte>) returns (ok: bool)
    requires Ready(h) && config.Length == CONFIG_SIZE && config != h.nonce && addr < CONFIG_CNT
    requires Tame(h.bus.world) ==> config[..] == h.bus.chip.config
    modifies h`wakeIsExpected, h.nonce, h.file, h.bus, config
    ensures Ready(h) && SameButConfig(old(h.bus.chip), h.bus.chip)
    ensures Tame(h.bus.world) && ok ==>
              && h.bus.chip.config == Overwrite(old(h.bus.chip).config, 4 * addr, seq(4, _ => SLOT_CONFIG))
              && config[..] == h.bus.chip.config
    ensures Tame(h.bus.world) && Clean(h.bus.world) && !old(h.bus.chip).configLocked ==> ok
  {
    hide Tame, Clean, FitsRecords, Overwrite, Value;
    var address := FromValue(addr);
    var record;
    ok, record := FetchRecord(h, address, EmptyNumber());
    if !ok {
      return;
    }
    record := BigNumber(record.bytes, [SLOT_CONFIG, SLOT_CONFIG, SLOT_CONFIG, SLOT_CONFIG] + record.data[4..]);
    ghost var word := seq(4, _ => SLOT_CONFIG);
    assert record.data[..4] == word;
    ok := WriteRecord(h, address, record);
    if !ok {
      return;
    }
    MarkSlot(config, addr);
  }

  /** The four assignments to the copy. */
  method MarkSlot(config: array<byte>, addr: nat)
    requires config.Length == CONFIG_SIZE && addr < CONFIG_CNT
    modifies config
    ensures config[..] == Overwrite(old(config[..]), 4 * addr, seq(4, _ => SLOT_CONFIG))
  {
    hide Overwrite;
    config[addr * BYTESIZE_CNF + 0] := SLOT_CONFIG;
    config[addr * BYTESIZE_CNF + 1] := SLOT_CONFIG;
    config[addr * BYTESIZE_CNF + 2] := SLOT_CONFIG;
    config[addr * BYTESIZE_CNF + 3] := SLOT_CONFIG;
    CopyFollows(old(config[..]), config[..], 4 * addr, seq(4, _ => SLOT_CONFIG));
  }

  lemma NoSlotsSet(config: seq<byte>)
    requires |config| == CONFIG_SIZE
    ensures SlotsSet(config, 5) == config
  {
  }

  /** The copy after the same four bytes have been set in it. */
  lemma CopyFollows(before: seq<byte>, after: seq<byte>, at: nat, word: seq<byte>)
    requires |after| == |before| && |word| == 4 && at + 4 <= |before|
    requires after == before[at := word[0]][at + 1 := word[1]][at + 2 := word[2]][at + 3 := word[3]]
    ensures after == Overwrite(before, at, word)
  {
  }

  /**
   create_and_lock_config: the copy is read from the chip word by word, kept in step with every
   write, and its checksum closes the lock. If the lock closes at all, even unnoticed because the
   answer was lost, it closes over the personalised configuration.
   */
  method CreateAndLockConfig(h: Handle) returns (ok: bool)
    requires Ready(h) && FitsRecords(h.bus.world)
    modifies h`wakeIsExpected, h.nonce, h.file, h.bus
    ensures Ready(h)
    ensures h.bus.chip == old(h.bus.chip).(config := h.bus.chip.config, configLocked := h.bus.chip.configLocked)
    ensures old(h.bus.chip).configLocked ==> h.bus.chip.configLocked
    ensures Tame(h.bus.world) ==>
              && (old(h.bus.chip).configLocked ==> !ok)
              && (h.bus.chip.configLocked && !old(h.bus.chip).configLocked ==>
                    h.bus.chip.config == Personalised(old(h.bus.chip).config))
              && (ok ==> h.bus.chip.configLocked)
    ensures Tame(h.bus.world) && Clean(h.bus.world) && !old(h.bus.chip).configLocked ==> ok
  {
    ghost var tame := Tame(h.bus.world);
    hide Tame, Clean, FitsRecords, Execute, CrcBytes, Succeeds, SlotsSet, OtpModeSet, OpLock;
    var config := new byte[CONFIG_CNT * BYTESIZE_CNF](_ => 0);
    var read := ReadWholeConfig(h, config);
    if !read {
      return false;
    }
    var mode := SetOtpMode(h, config);
    if !mode {
      return false;
    }
    var slots := SetSlotConfig(h, config);
    if !slots {
      return false;
    }
    ok := LockConfig(h, config);
  }

  /** The end of create_and_lock_config. */
  method LockConfig(h: Handle, config: array<byte>) returns (ok: bool)
    requires Ready(h) && config.Length == CONFIG_SIZE
    modifies h`wakeIsExpected, h.nonce, h.file, h.bus
    ensures Ready(h)
    ensures h.bus.chip == old(h.bus.chip) || h.bus.chip == old(h.bus.chip).(configLocked := true)
    ensures Tame(h.bus.world) && ok ==> h.bus.chip.configLocked && !old(h.bus.chip).configLocked
    ensures Tame(h.bus.world) && Clean(h.bus.world) && !old(h.bus.chip).configLocked ==>
              (old(config[..]) == h.bus.chip.config ==> ok)
  {
    hide Transaction, Decoded, Acknowledged, ChallengeRun;
    hide Tame, Clean, Execute, CrcBytes, Succeeds, OpLock;
    var crc := new byte[2];
    CalculateCrc(CONFIG_CNT * BYTESIZE_CNF, config[..], crc);
    assert config[..][..CONFIG_CNT * BYTESIZE_CNF] == config[..];
    ChipLock(h.bus.chip, LOCK_CONFIG, crc[..]);
    var status := h.Lock(LOCK_CONFIG, crc[..]);
    return status == Ok;
  }

  /** The first loop of create_and_lock_config. */
  method ReadWholeConfig(h: Handle, config: array<byte>) returns (ok: bool)
    requires Ready(h) && FitsRecords(h.bus.world) && config.Length == CONFIG_SIZE && config != h.nonce
    modifies h`wakeIsExpected, h.nonce, h.file, h.bus, config
    ensures Ready(h) && h.bus.chip == old(h.bus.chip)
    ensures Tame(h.bus.world) && ok ==> config[..] == h.bus.chip.config
    ensures Tame(h.bus.world) && Clean(h.bus.world) ==> ok
  {
    ghost var tame := Tame(h.bus.world);
    hide Tame, Clean, FitsRecords, Handle.Valid;
    var item := 0;
    var record: BigInt := EmptyNumber();
    for addr := 0x00 to 0x16
      invariant Ready(h) && h.bus.chip == old(h.bus.chip)
      invariant item == addr
      invariant tame ==> config[..item * BYTESIZE_CNF] == h.bus.chip.config[..item * BYTESIZE_CNF]
    {
      ok, record := ReadRecord(h, addr, record, config);
      if !ok {
        return;
      }
      item := item + 1;
    }
    return true;
  }

  /** One turn of that loop. */
  method ReadRecord(h: Handle, addr: nat, before: BigInt, config: array<byte>) returns (ok: bool, record: BigInt)
    requires Ready(h) && FitsRecords(h.bus.world) && config.Length == CONFIG_SIZE && config != h.nonce
    requires addr < CONFIG_CNT
    requires Tame(h.bus.world) ==> config[..addr * BYTESIZE_CNF] == h.bus.chip.config[..addr * BYTESIZE_CNF]
    modifies h`wakeIsExpected, h.nonce, h.file, h.bus, config
    ensures Ready(h) && h.bus.chip == old(h.bus.chip)
    ensures Tame(h.bus.world) && ok ==>
              config[..(addr + 1) * BYTESIZE_CNF] == h.bus.chip.config[..(addr + 1) * BYTESIZE_CNF]
    ensures Tame(h.bus.world) && Clean(h.bus.world) ==> ok
  {
    ghost var tame := Tame(h.bus.world);
    hide Tame, Clean, FitsRecords, Value;
    ghost var read := config[..addr * BYTESIZE_CNF];
    ok, record := FetchRecord(h, FromValue(addr), before);
    if !ok {
      return;
    }
    ghost var word := h.bus.chip.config[4 * addr..4 * addr + 4];
    CopyRecord(config, addr * BYTESIZE_CNF, record.data[..record.bytes]);
    if tame {
      assert config[..4 * addr + 4] == read + word;
      OneWordMore(h.bus.chip.config, 4 * addr);
    }
  }

  lemma OneWordMore(s: seq<byte>, at: nat)
    requires at + 4 <= |s|
    ensures s[..at] + s[at..at + 4] == s[..at + 4]
  {
  }

  /** memcpy of a record into the copy of the configuration. */
  method CopyRecord(config: array<byte>, at: nat, record: seq<byte>)
    requires at + |record| <= config.Length
    modifies config
    ensures config[..at + |record|] == old(config[..at]) + record
  {
    forall j | 0 <= j < |record| {
      config[at + j] := record[j];
    }
  }

  // ---- Data and OTP zones ----

  /** Nothing but data and OTP bytes has changed. */
  ghost predicate SameButData(m: Zones, n: Zones) {
    n == m.(data := n.data, otp := n.otp)
  }

  lemma PrefixOverwritten(zone: seq<byte>, image: seq<byte>, at: nat, n: nat)
    requires |zone| == |image| && at + n <= |zone| && zone[..at] == image[..at]
    ensures Overwrite(zone, at, image[at..at + n])[..at + n] == image[..at + n]
  {
    assert image[..at + n] == image[..at] + image[at..at + n];
  }

  lemma DataThroughout(a: Zones, b: Zones, c: Zones)
    requires SameButData(a, b) && SameButData(b, c)
    ensures SameButData(a, c)
  {
  }

  method WriteKeys(h: Handle, data: seq<byte>) returns (ok: bool)
    requires Ready(h) && |data| == DATA_SIZE
    modifies h`wakeIsExpected, h.nonce, h.file, h.bus
    ensures Ready(h) && SameButData(old(h.bus.chip), h.bus.chip) && h.bus.chip.otp == old(h.bus.chip).otp
    ensures Tame(h.bus.world) && ok ==> h.bus.chip.data == data && h.bus.chip.configLocked && !h.bus.chip.dataLocked
    ensures (Tame(h.bus.world) && Clean(h.bus.world) &&
             old(h.bus.chip).configLocked && !old(h.bus.chip).dataLocked) ==> ok
  {
    ghost var tame := Tame(h.bus.world);
    hide Tame, Clean, Overwrite, Handle.Valid;
    for item := 0 to SLOT_CNT
      invariant Ready(h) && SameButData(old(h.bus.chip), h.bus.chip) && h.bus.chip.otp == old(h.bus.chip).otp
      invariant tame ==> h.bus.chip.data[..item * BYTESIZE_KEY] == data[..item * BYTESIZE_KEY]
      invariant tame && item > 0 ==> h.bus.chip.configLocked && !h.bus.chip.dataLocked
    {
      ghost var m := h.bus.chip;
      ok := WriteKey(h, item, data[item * BYTESIZE_KEY..item * BYTESIZE_KEY + BYTESIZE_KEY]);
      DataThroughout(old(h.bus.chip), m, h.bus.chip);
      if !ok {
        return;
      }
      if tame {
        PrefixOverwritten(m.data, data, item * BYTESIZE_KEY, BYTESIZE_KEY);
      }
    }
    assert tame ==> h.bus.chip.data[..SLOT_CNT * BYTESIZE_KEY] == h.bus.chip.data;
    assert data[..SLOT_CNT * BYTESIZE_KEY] == data;
    return true;
  }

  /** One turn of the first loop of write_and_lock_data. */
  method WriteKey(h: Handle, item: nat, key: Key) returns (ok: bool)
    requires Ready(h) && item < SLOT_CNT
    modifies h`wakeIsExpected, h.nonce, h.file, h.bus
    ensures Ready(h) && SameButData(old(h.bus.chip), h.bus.chip) && h.bus.chip.otp == old(h.bus.chip).otp
    ensures Tame(h.bus.world) && ok ==>
              && h.bus.chip.data == Overwrite(old(h.bus.chip).data, 32 * item, key)
              && h.bus.chip.configLocked && !h.bus.chip.dataLocked
    ensures (Tame(h.bus.world) && Clean(h.bus.world) &&
             old(h.bus.chip).configLocked && !old(h.bus.chip).dataLocked) ==> ok
  {
    hide Transaction, Decoded, Acknowledged, ChallengeRun;
    hide Tame, Clean, Execute, Overwrite, OpRawWrite, Value, Succeeds, GetSlotAddress;
    var number := BigNumber(BYTESIZE_KEY, key);
    assert number.data[..number.bytes] == key;
    ChipSlotWrite(h.bus.chip, item, key);
    var status := h.RawSlotWrite(FromValue(item), number);
    return status == Ok;
  }

  method WriteOtp(h: Handle, otp: seq<byte>) returns (ok: bool)
    requires Ready(h) && |otp| == OTP_SIZE
    modifies h`wakeIsExpected, h.nonce, h.file, h.bus
    ensures Ready(h) && SameButData(old(h.bus.chip), h.bus.chip) && h.bus.chip.data == old(h.bus.chip).data
    ensures Tame(h.bus.world) && ok ==> h.bus.chip.otp == otp && h.bus.chip.configLocked && !h.bus.chip.dataLocked
    ensures (Tame(h.bus.world) && Clean(h.bus.world) &&
             old(h.bus.chip).configLocked && !old(h.bus.chip).dataLocked) ==> ok
  {
    ghost var tame := Tame(h.bus.world);
    hide Tame, Clean, Overwrite, Handle.Valid;
    var base := 0;
    while base < 64
      invariant base == 0 || base == 32 || base == 64
      invariant Ready(h) && SameButData(old(h.bus.chip), h.bus.chip) && h.bus.chip.data == old(h.bus.chip).data
      invariant tame ==> h.bus.chip.otp[..base] == otp[..base]
      invariant tame && base > 0 ==> h.bus.chip.configLocked && !h.bus.chip.dataLocked
    {
      ghost var m := h.bus.chip;
      ok := WriteOtpBlock(h, base, otp[base..base + 32]);
      DataThroughout(old(h.bus.chip), m, h.bus.chip);
      if !ok {
        return;
      }
      if tame {
        PrefixOverwritten(m.otp, otp, base, 32);
      }
      base := base + 32;
    }
    assert tame ==> h.bus.chip.otp[..base] == h.bus.chip.otp && otp[..base] == otp;
    return true;
  }

  /** One turn of the second loop of write_and_lock_data. */
  method WriteOtpBlock(h: Handle, base: nat, block: Key) returns (ok: bool)
    requires Ready(h) && (base == 0 || base == 32)
    modifies h`wakeIsExpected, h.nonce, h.file, h.bus
    ensures Ready(h) && SameButData(old(h.bus.chip), h.bus.chip) && h.bus.chip.data == old(h.bus.chip).data
    ensures Tame(h.bus.world) && ok ==>
              && h.bus.chip.otp == Overwrite(old(h.bus.chip).otp, base, block)
              && h.bus.chip.configLocked && !h.bus.chip.dataLocked
    ensures (Tame(h.bus.world) && Clean(h.bus.world) &&
             old(h.bus.chip).configLocked && !old(h.bus.chip).dataLocked) ==> ok
  {
    hide Transaction, Decoded, Acknowledged, ChallengeRun;
    hide Tame, Clean, Execute, Overwrite, OpRawWrite, Value, Succeeds;
    var number := BigNumber(BYTESIZE_KEY, block);
    var address := FromValue(base / 4);
    ChipOtpWrite(h.bus.chip, address, block);
    var status := h.RawOtp32Write(address, number);
    return status == Ok;
  }

  /**
   write_and_lock_data: keys, OTP words, then the lock over both. On any bus the lock closes only over
   zones with the checksum of the given bytes.
   */
  method WriteAndLockData(h: Handle, data: seq<byte>, otp: seq<byte>) returns (ok: bool)
    requires Ready(h) && |data| == DATA_SIZE && |otp| == OTP_SIZE
    modifies h`wakeIsExpected, h.nonce, h.file, h.bus
    ensures Ready(h)
    ensures h.bus.chip == old(h.bus.chip).(
              data := h.bus.chip.data, otp := h.bus.chip.otp, dataLocked := h.bus.chip.dataLocked)
    ensures old(h.bus.chip).dataLocked ==> h.bus.chip.dataLocked
    ensures h.bus.chip.dataLocked && !old(h.bus.chip).dataLocked ==>
              CrcBytes(h.bus.chip.data + h.bus.chip.otp) == CrcBytes(data + otp)
    ensures Tame(h.bus.world) ==>
              && (old(h.bus.chip).dataLocked ==> !ok)
              && (h.bus.chip.dataLocked && !old(h.bus.chip).dataLocked ==>
                    h.bus.chip.data == data && h.bus.chip.otp == otp)
              && (ok ==> h.bus.chip.dataLocked)
    ensures (Tame(h.bus.world) && Clean(h.bus.world) &&
             old(h.bus.chip).configLocked && !old(h.bus.chip).dataLocked) ==> ok
  {
    hide Tame, Clean, Execute, CrcBytes, Succeeds, OpLock;
    var keys := WriteKeys(h, data);
    if !keys {
      return false;
    }
    var words := WriteOtp(h, otp);
    if !words {
      return false;
    }
    var crc := new byte[2];
    var both := data + otp;
    CalculateCrc(DATA_SIZE + OTP_SIZE, both, crc);
    assert both[..DATA_SIZE + OTP_SIZE] == both;
    ChipLock(h.bus.chip, LOCK_DATA, crc[..]);
    var status := h.Lock(LOCK_DATA, crc[..]);
    return status == Ok;
  }

  // ---- The whole run ----

  /** The keys and the OTP words a file holds. */
  function KeysOf(text: string): (r: Option<seq<byte>>)
    ensures r.Some? ==> |r.value| == DATA_SIZE
  {
    Table(text, BYTESIZE_KEY, SLOT_CNT)
  }

  function WordsOf(text: string): (r: Option<seq<byte>>)
    ensures r.Some? ==> |r.value| == OTP_SIZE
  {
    Table(After(text, SLOT_CNT), BYTESIZE_OTP, SLOT_CNT)
  }

  predicate Provisionable(text: string) {
    KeysOf(text).Some? && WordsOf(text).Some?
  }

  /** A chip that has been provisioned from a file: what Init leaves behind. */
  predicate ProvisionedFrom(m: Zones, text: string) {
    && Provisionable(text)
    && m.configLocked && m.dataLocked
    && m.data == KeysOf(text).value && m.otp == WordsOf(text).value
    && forall i :: 20 <= i < 52 ==> m.config[i] == SLOT_CONFIG
  }

  lemma ProvisioningDone(m: Zones, text: string, config: seq<byte>)
    requires Provisionable(text) && m.configLocked && m.dataLocked
    requires m.data == KeysOf(text).value && m.otp == WordsOf(text).value
    requires |config| == CONFIG_SIZE && m.config == Personalised(config)
    ensures ProvisionedFrom(m, text)
  {
    hide KeysOf, WordsOf;
  }

  /** The two calls of read_config: keys first, OTP words after them. */
  method ReadFile(conf: File, data: array<byte>, otp: array<byte>) returns (ok: bool)
    requires conf.Valid() && conf.Rest() == conf.text && data != otp
    requires data.Length == DATA_SIZE && otp.Length == OTP_SIZE
    modifies conf, data, otp
    ensures conf.Valid()
    ensures ok <==> Provisionable(conf.text)
    ensures ok ==> data[..] == KeysOf(conf.text).value && otp[..] == WordsOf(conf.text).value
  {
    hide Table, After;
    var keys := ReadConfig(conf, data, BYTESIZE_KEY);
    if !keys {
      return false;
    }
    ok := ReadConfig(conf, otp, BYTESIZE_OTP);
  }

  /**
   init: on a tame bus success means that both zones are locked, the configuration is the personalised
   one and the memory holds exactly the bytes of the file. A lock that has closed, whatever is reported,
   has closed over the right contents; on any bus it has closed over contents with the right checksum.
   On a clean bus a well-formed file succeeds exactly on a chip with both locks open.
   */
  method Init(h: Handle, conf: File?) returns (ok: bool)
    requires Ready(h) && FitsRecords(h.bus.world)
    requires conf != null ==> conf.Valid() && conf != h.file && conf.Rest() == conf.text
    modifies h`wakeIsExpected, h.nonce, h.file, h.bus, conf
    ensures Ready(h)
    ensures h.bus.chip.tempKey == old(h.bus.chip).tempKey && h.bus.chip.silicon == old(h.bus.chip).silicon
    ensures h.bus.chip.dataLocked && !old(h.bus.chip).dataLocked ==>
              && conf != null && Provisionable(conf.text)
              && CrcBytes(h.bus.chip.data + h.bus.chip.otp) ==
                 CrcBytes(KeysOf(conf.text).value + WordsOf(conf.text).value)
    ensures Tame(h.bus.world) && ok ==>
              && conf != null && ProvisionedFrom(h.bus.chip, conf.text)
              && h.bus.chip.config == Personalised(old(h.bus.chip).config)
    ensures Tame(h.bus.world) && h.bus.chip.configLocked && !old(h.bus.chip).configLocked ==>
              h.bus.chip.config == Personalised(old(h.bus.chip).config)
    ensures Tame(h.bus.world) && h.bus.chip.dataLocked && !old(h.bus.chip).dataLocked ==>
              && conf != null && Provisionable(conf.text)
              && h.bus.chip.data == KeysOf(conf.text).value
              && h.bus.chip.otp == WordsOf(conf.text).value
    ensures Tame(h.bus.world) && Clean(h.bus.world) ==>
              (ok <==>
               && conf != null && Provisionable(conf.text)
               && !old(h.bus.chip).configLocked && !old(h.bus.chip).dataLocked)
  {
    ghost var tame := Tame(h.bus.world);
    hide Tame, Clean, FitsRecords, KeysOf, WordsOf, Personalised, ProvisionedFrom, CrcBytes;
    if conf == null {
      return false;
    }
    var data := new byte[SLOT_CNT * BYTESIZE_KEY](_ => 0);
    var otp := new byte[SLOT_CNT * BYTESIZE_OTP](_ => 0);
    var read := ReadFile(conf, data, otp);
    if !read {
      return false;
    }
    var locked := CreateAndLockConfig(h);
    if !locked {
      return false;
    }
    ok := WriteAndLockData(h, data[..], otp[..]);
    if tame && ok {
      ProvisioningDone(h.bus.chip, conf.text, old(h.bus.chip).config);
    }
  }

  /** After provisioning, the emulator opened on the same file has the keys and OTP words of the chip. */
  lemma EmulatorMatchesChip(text: string, sn: seq<byte>, crypto: Crypto, m: Zones, i: nat)
    requires ProvisionedFrom(m, text) && i < SLOT_CNT
    ensures var e := Emulator(FileBacked(text), sn, crypto);
            KeyOf(e, i) == Success(SlotKey(m, i)) && OtpOf(e, i) == Success(m.otp[4 * i..4 * i + 4])
  {
    hide ParseLine, Table, After;
    TableRow(text, BYTESIZE_KEY, SLOT_CNT, i);
    TableRow(After(text, SLOT_CNT), BYTESIZE_OTP, SLOT_CNT, i);
    AfterAfter(text, SLOT_CNT, i);
  }

  /** Such a file opens, and the serial number of the handle is that of the chip. */
  lemma ProvisionedOpens(text: string, crypto: Crypto, m: Zones)
    requires ProvisionedFrom(m, text)
    ensures Openable(text, crypto) && Opened(text, crypto).sn == m.otp[..8]
  {
    hide ProvisionedFrom, KeyOf;
    EmulatorMatchesChip(text, [], crypto, m, 0);
    EmulatorMatchesChip(text, [], crypto, m, 1);
    EmulatorMatchesChip(text, [], crypto, m, 2);
    hide OtpOf;
    assert m.otp[..8] == m.otp[0..4] + m.otp[4..8];
  }

  /** A provisioned chip and the emulator opened on the same file read out the same OTP words. */
  lemma ReadsAgree(text: string, crypto: Crypto, m: Zones, word: nat)
    requires ProvisionedFrom(m, text) && word < SLOT_CNT
    ensures Openable(text, crypto) && StoredWord(m, word).Some?
    ensures OtpOf(Opened(text, crypto), word) == Success(StoredWord(m, word).value)
  {
    ProvisionedOpens(text, crypto, m);
    EmulatorMatchesChip(text, Opened(text, crypto).sn, crypto, m, word);
  }

  /** A provisioned chip never reads a key out. */
  lemma KeysStayInside(text: string, m: Zones, slot: nat)
    requires ProvisionedFrom(m, text)
    ensures StoredSlot(m, slot) == None
  {
    hide Provisionable, KeysOf, WordsOf;
    SecretBit();
  }

  lemma SecretBit()
    ensures SLOT_CONFIG & 0x80 != 0
  {
  }

  /** The digests of the emulator are computed with the functions built into the chip. */
  ghost predicate SameFunctions(crypto: Crypto, silicon: Silicon) {
    && (forall k: seq<byte>, d: seq<byte> :: crypto.hmac(k, d) == Some(silicon.hmac(k, d)))
    && forall d: seq<byte> :: crypto.sha256(d) == Some(silicon.sha256(d))
  }

  /** The emulator stands in for the chip: it gives every challenge the chip's own digest. */
  lemma DigestsMatchChip(text: string, crypto: Crypto, m: Zones, slot: nat, challenge: Key, useSn: bool)
    requires ProvisionedFrom(m, text) && SameFunctions(crypto, m.silicon) && slot < SLOT_CNT
    ensures Openable(text, crypto)
    ensures HmacResponse(Opened(text, crypto), slot, challenge, useSn) == Success(ChipHmac(m, slot, challenge, useSn))
    ensures MacResponse(Opened(text, crypto), slot, challenge, useSn) == Success(ChipMac(m, slot, challenge, useSn))
  {
    hide ProvisionedFrom, Layout, FromValue;
    ProvisionedOpens(text, crypto, m);
    var e := Opened(text, crypto);
    EmulatorMatchesChip(text, e.sn, crypto, m, slot);
    hide Openable, Opened, KeyOf, OtpOf;
    SerialPartMatches(e, m, useSn);
  }

  lemma SerialPartMatches(e: Emulator, m: Zones, useSn: bool)
    requires e.sn == m.otp[..8]
    ensures SerialPart(e, useSn) == OtpPart(m, useSn)
  {
  }

  /**
   A challenge put to a provisioned chip over a tame bus and to the emulator opened on the same file:
   the emulator always answers, and when the chip's answer gets through it is the same.
   */
  method ChipAndEmulator(h: Handle, conf: File, crypto: Crypto, slot: nat, challenge: Key, useSn: bool)
    returns (status: Status, fromChip: BigInt, fromEmulator: Result<seq<byte>>)
    requires Ready(h) && conf.Valid() && conf != h.file
    requires ProvisionedFrom(h.bus.chip, conf.text) && SameFunctions(crypto, h.bus.chip.silicon) && slot < SLOT_CNT
    modifies h`wakeIsExpected, h.nonce, h.file, h.bus, conf
    ensures Ready(h) && ProvisionedFrom(h.bus.chip, conf.text)
    ensures fromEmulator == Success(ChipHmac(old(h.bus.chip), slot, challenge, useSn))
    ensures Tame(h.bus.world) && status == Ok ==> fromChip == Store(EmptyNumber(), fromEmulator.value)
    ensures Tame(h.bus.world) && Clean(h.bus.world) ==> status == Ok
  {
    hide Transaction, Decoded, Acknowledged, ChallengeRun;
    hide Tame, Clean, Openable, Opened, KeysOf, WordsOf, Provisionable, ChipHmac, HmacResponse, SameFunctions, Value;
    DigestsMatchChip(conf.text, crypto, h.bus.chip, slot, challenge, useSn);
    var emulation := OpenEmulation(conf, crypto);
    fromEmulator := Perform(emulation, HmacCall(FromValue(slot), BigNumber(32, challenge), useSn));
    status, fromChip := h.LowChallengeResponse(FromValue(slot), BigNumber(32, challenge), EmptyNumber(), useSn);
  }

  /** A zone in which one to three bits differ from the library's image does not lock. */
  lemma MiswrittenZoneRefused(m: Zones, image: seq<byte>, lockWhat: byte)
    requires lockWhat == LOCK_CONFIG || lockWhat == LOCK_DATA
    requires |image| == |if lockWhat == LOCK_CONFIG then m.config else m.data + m.otp|
    requires 1 <= Distance(BitsOf(image), BitsOf(if lockWhat == LOCK_CONFIG then m.config else m.data + m.otp)) <= 3
    ensures Execute(m, OpLock(GetLockConfig(lockWhat), CrcBytes(image))).0 == m
    ensures Execute(m, OpLock(GetLockConfig(lockWhat), CrcBytes(image))).1[1] != STATUS_SUCCES
  {
    hide OpLock, CrcBytes, Execute, Distance, BitsOf;
    ImageErrorsDetected(image, if lockWhat == LOCK_CONFIG then m.config else m.data + m.otp);
    ChipLock(m, lockWhat, CrcBytes(image));
  }

  lemma {:induction false} AfterAfter(s: string, k: nat, m: nat)
    ensures After(After(s, k), m) == After(s, k + m)
    decreases k
  {
    if k > 0 {
      AfterAfter(s[FirstLength(s)..], k - 1, m);
    }
  }
}
