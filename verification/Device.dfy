/**
 struct atsha_handle and the layers that share it: the calls of api.c, the retry loops of
 communication.c, and the emulated chip of emulation.c, which calls back into the API on
 the same handle.
 */
module Device {
  import opened Bits
  import opened Bus
  import opened Checksum
  import opened Chip
  import opened ChipLaws
  import opened Digests
  import opened Emulation
  import opened EmulationLaws
  import opened HexLine
  import opened KeyOrigin
  import opened Noise
  import opened Operations
  import opened Packets
  import opened Protocol
  import opened TextFile
  import opened Wrappers

  datatype Layer = EmulationLayer | Ni2cLayer

  /** How emul_command reports an answer. */
  predicate Reported(a: Answer, status: Status, answer: Option<Packet>) {
    match a
    case Success(p) => status == Ok && answer == Some(p)
    case Failure(code) => status == code && answer == None
  }

  /** How a call hands a value to its caller: into the buffer on OK, nothing otherwise. */
  predicate Given(r: Result<seq<byte>>, before: BigInt, status: Status, number: BigInt) {
    match r
    case Success(value) => status == Ok && |value| <= MAX_DATA_SIZE && number == Store(before, value)
    case Failure(code) => status == code && number == before
  }

  /** Any packet the library builds. */
  predicate IsLibraryCommand(p: Packet) {
    IsCommand(p) && IsEmulCommand(p)
  }

  /** Emulated HMAC and MAC call back into the API; the other commands do not. */
  function Rank(p: Packet): nat
    requires IsLibraryCommand(p)
  {
    if p[1] == OPCODE_HMAC || p[1] == OPCODE_MAC then 1 else 0
  }

  class Handle {
    const layer: Layer
    const isSrvEmulation: bool
    const file: File?
    const bus: Wire?
    const key: Key
    const slotId: byte
    const crypto: Crypto
    const nonce: array<byte>
    var sn: seq<byte>
    var keyOrigin: nat
    var keyOriginCached: bool
    var wakeIsExpected: bool

    ghost predicate Valid()
      reads this, file
    {
      && nonce.Length == SLOT_BYTE_LEN
      && (layer == Ni2cLayer ==> bus != null && !isSrvEmulation)
      && (layer == EmulationLayer && !isSrvEmulation ==> file != null && file.Valid())
      && (layer == EmulationLayer && !isSrvEmulation && keyOriginCached ==>
            OtpOf(Emulator(FileBacked(file.text), [], crypto), 2).Success? &&
            keyOrigin == Fold(OtpOf(Emulator(FileBacked(file.text), [], crypto), 2).value))
    }

    /** The emulated chip this handle stands for. */
    ghost function Emulated(): Emulator
      reads this, file
      requires Valid() && layer == EmulationLayer
    {
      Emulator(if isSrvEmulation then ServerBacked(key) else FileBacked(file.text), sn, crypto)
    }

    constructor (layer: Layer, isSrvEmulation: bool, file: File?, bus: Wire?, key: Key, slotId: byte, sn: seq<byte>,
                 crypto: Crypto)
      requires layer == Ni2cLayer ==> bus != null && !isSrvEmulation
      requires layer == EmulationLayer && !isSrvEmulation ==> file != null && file.Valid()
      ensures Valid() && fresh(nonce)
      ensures this.layer == layer && this.isSrvEmulation == isSrvEmulation && this.file == file && this.bus == bus
      ensures this.key == key && this.slotId == slotId && this.sn == sn && this.crypto == crypto
      ensures keyOrigin == 0 && !keyOriginCached && !wakeIsExpected
    {
      this.layer, this.isSrvEmulation, this.file, this.bus := layer, isSrvEmulation, file, bus;
      this.key, this.slotId, this.sn, this.crypto := key, slotId, sn, crypto;
      nonce := new byte[SLOT_BYTE_LEN](_ => 0);
      keyOrigin, keyOriginCached, wakeIsExpected := 0, false, false;
    }

    // ---- communication.c ----

    /** wake: after it, successful or not, wake is not sent again until idle. */
    method Wake() returns (status: Status)
      requires Valid()
      modifies this`wakeIsExpected, bus
      ensures Valid() && wakeIsExpected
      ensures layer == EmulationLayer ==> status == Ok
      ensures layer == Ni2cLayer ==> bus.chip == old(bus.chip)
      ensures layer == Ni2cLayer && old(wakeIsExpected) ==> status == Ok && bus.tick == old(bus.tick)
      ensures layer == Ni2cLayer && !old(wakeIsExpected) ==>
                (status, bus.tick) == WakeRun(bus.world, old(bus.tick), EXCHANGES, Communication)
      ensures layer == Ni2cLayer && Clean(bus.world) ==> status == Ok
      ensures layer == Ni2cLayer && old(wakeIsExpected) ==> bus.pulses == old(bus.pulses)
      ensures layer == Ni2cLayer ==> old(bus.pulses) <= bus.pulses <= old(bus.pulses) + 7
      ensures layer == Ni2cLayer && !old(wakeIsExpected) && status != Ok ==> bus.pulses == old(bus.pulses) + 7
    {
      hide Accepted;
      var tries: int := TRY_SEND_RECV_ON_COMM_ERROR + 1;
      if wakeIsExpected {
        return Ok;
      }
      if layer == EmulationLayer {
        wakeIsExpected := true;
        return Ok;
      }
      ghost var first := bus.tick;
      ghost var last: ErrorStatus := Communication;
      status := Communication;
      while tries >= 0
        invariant -1 <= tries <= TRY_SEND_RECV_ON_COMM_ERROR + 1
        invariant status == last && bus.chip == old(bus.chip)
        invariant WakeRun(bus.world, first, EXCHANGES, Communication) == WakeRun(bus.world, bus.tick, tries + 1, last)
        invariant Clean(bus.world) ==> tries == TRY_SEND_RECV_ON_COMM_ERROR + 1
        invariant bus.pulses + tries == old(bus.pulses) + TRY_SEND_RECV_ON_COMM_ERROR + 1
      {
        tries := tries - 1;
        var reply := bus.Ni2cWake();
        match reply {
          case Failed(code) =>
            status, last := code, code;
          case Delivered(answer) =>
            FramePasses(answer);
            var packetOk := CheckPacket(answer);
            if !packetOk || answer[1] != STATUS_WAKE_OK {
              status, last := Communication, Communication;
              continue;
            }
            wakeIsExpected := true;
            return Ok;
        }
      }
      wakeIsExpected := true;
    }

    /** idle: the loop never counts its tries down, so it goes on until the lower layer reports OK. */
    method Idle() returns (status: Status)
      requires Valid()
      modifies this`wakeIsExpected, bus
      ensures Valid() && status == Ok && !wakeIsExpected
      ensures bus != null ==> bus.Now() == old(bus.Now()) && bus.pulses == old(bus.pulses)
    {
      var tries := TRY_SEND_RECV_ON_COMM_ERROR;
      while true
        invariant Valid() && (bus != null ==> bus.Now() == old(bus.Now()) && bus.pulses == old(bus.pulses))
        decreases if bus == null then 0 else bus.idleFaults
      {
        if layer == EmulationLayer {
          wakeIsExpected := false;
          return Ok;
        }
        status := bus.Ni2cIdle();
        if status == Ok {
          wakeIsExpected := false;
          return status;
        }
        if tries < 0 {
          return status;
        }
      }
    }

    /** command: the emulated chip, or up to seven exchanges on the bus. */
    method Command(packet: Packet) returns (status: Status, answer: Option<Packet>)
      requires Valid() && IsLibraryCommand(packet)
      modifies this`wakeIsExpected, nonce, file, bus
      ensures Valid()
      ensures layer == EmulationLayer ==>
                Reported(EmulStep(old(Emulated()), old(nonce[..]), packet).0, status, answer) &&
                nonce[..] == EmulStep(old(Emulated()), old(nonce[..]), packet).1
      ensures layer == Ni2cLayer ==>
                Outcome(status, answer, bus.Now()) ==
                CommandRun(bus.world, old(bus.Now()), packet, EXCHANGES, Communication)
      ensures layer == Ni2cLayer ==>
                && old(bus.tick) < bus.tick <= old(bus.tick) + 7
                && (status != Ok && status != BadCommunicationStatus ==> bus.tick == old(bus.tick) + 7)
      ensures layer == Ni2cLayer ==> wakeIsExpected == old(wakeIsExpected) && bus.pulses == old(bus.pulses)
      decreases Rank(packet), 3
    {
      hide Accepted, EmulStep, Execute, IsEmulCommand, IsCommand;
      if layer == EmulationLayer {
        status, answer := EmulCommand(packet);
        return;
      }
      var tries: int := TRY_SEND_RECV_ON_COMM_ERROR + 1;
      ghost var last: ErrorStatus := Communication;
      ghost var first := bus.Now();
      CommandCount(bus.world, first, packet, EXCHANGES, Communication);
      status, answer := Communication, None;
      while tries >= 0
        invariant -1 <= tries <= TRY_SEND_RECV_ON_COMM_ERROR + 1
        invariant status == last && answer == None && Valid()
        invariant wakeIsExpected == old(wakeIsExpected) && bus.pulses == old(bus.pulses)
        invariant CommandRun(bus.world, first, packet, EXCHANGES, Communication) ==
                  CommandRun(bus.world, bus.Now(), packet, tries + 1, last)
      {
        tries := tries - 1;
        var reply := bus.Ni2cCommand(packet);
        match reply {
          case Failed(code) =>
            status, last := code, code;
          case Delivered(bytes) =>
            FramePasses(bytes);
            var packetOk := CheckPacket(bytes);
            if !packetOk {
              status, last := Communication, Communication;
              continue;
            }
            if Value(bytes[0]) == 4 {
              if IsRejectedStatus(bytes[1]) {
                status, last := BadCommunicationStatus, BadCommunicationStatus;
                continue;
              } else if bytes[1] == STATUS_WAKE_OK {
                return BadCommunicationStatus, None;
              }
            }
            return Ok, Some(bytes);
        }
      }
    }

    // ---- emulation.c ----

    method EmulCommand(packet: Packet) returns (status: Status, answer: Option<Packet>)
      requires Valid() && layer == EmulationLayer && IsLibraryCommand(packet)
      modifies this`wakeIsExpected, nonce, file, bus
      ensures Valid()
      ensures Reported(EmulStep(old(Emulated()), old(nonce[..]), packet).0, status, answer)
      ensures nonce[..] == EmulStep(old(Emulated()), old(nonce[..]), packet).1
      decreases Rank(packet), 2
    {
      hide Reported, EmulRead, EmulHmac, EmulMac, AnswerPacket;
      if packet[1] == OPCODE_HMAC {
        status, answer := EmulHmacCommand(packet);
      } else if packet[1] == OPCODE_MAC {
        status, answer := EmulMacCommand(packet);
      } else if packet[1] == OPCODE_READ {
        status, answer := EmulReadCommand(packet);
      } else if packet[1] == OPCODE_NONCE {
        status, answer := EmulNonce(packet);
      } else if packet[1] == OPCODE_RANDOM {
        status, answer := EmulRandom();
      } else {
        status, answer := NotImplemented, None;
        ReportedFailure(NotImplemented);
      }
    }

    method EmulNonce(packet: Packet) returns (status: Status, answer: Option<Packet>)
      requires Valid() && layer == EmulationLayer && IsLibraryCommand(packet) && packet[1] == OPCODE_NONCE
      modifies nonce
      ensures Valid()
      ensures Reported(Success(AnswerPacket([STATUS_SUCCES])), status, answer)
      ensures nonce[..] == packet[5..37]
    {
      forall i | 0 <= i < SLOT_BYTE_LEN {
        nonce[i] := packet[5 + i];
      }
      var a := GenerateAnswerPacket([STATUS_SUCCES]);
      return Ok, Some(a[..]);
    }

    method EmulRandom() returns (status: Status, answer: Option<Packet>)
      ensures Reported(Success(AnswerPacket(RANDOM_BYTES)), status, answer)
    {
      var a := GenerateAnswerPacket(RANDOM_BYTES);
      return Ok, Some(a[..]);
    }

    /** The message of emul_hmac and emul_mac, filled in position by position. */
    method FillMessage(first: seq<byte>, second: seq<byte>, opcode: byte, packet: Packet) returns (message: array<byte>)
      requires Valid() && layer == EmulationLayer && IsLibraryCommand(packet)
      requires |first| == |second| == 32
      ensures fresh(message)
      ensures message[..] ==
              Layout(first, second, opcode, packet[2], packet[3], packet[4], SnPart(Emulated(), packet[2]))
    {
      hide SnPart, Layout, ByteAt, HasSerial;
      message := new byte[88](_ => 0);
      CopyInto(message, 0, first);
      CopyInto(message, 32, second);
      assert message[..64] == message[..32] + message[32..64] == first + second;
      var header := [opcode, packet[2], packet[3], packet[4]];
      CopyInto(message, 64, header);
      ghost var m0 := message[..];
      assert m0[..64] == message[..64] && m0[64..68] == message[64..68];
      label L:
      FillSerial(message, packet[2] & 0x20 != 0);
      ghost var m1 := message[..];
      assert m1[..68] == message[..68] && m0[..68] == old@L(message[..68]);
      assert m1[..76] == message[..76];
      FillTail(message);
      assert message[..][..76] == message[..76] && message[..][76..] == message[76..];
      FilledMessage(first, second, header, m0, m1, message[..], Emulated(), packet[2]);
    }

    static method CopyInto(message: array<byte>, at: nat, source: seq<byte>)
      requires at + |source| <= message.Length
      modifies message
      ensures message[..at] == old(message[..at]) && message[at..at + |source|] == source
    {
      for i := 0 to |source|
        invariant message[..at] == old(message[..at]) && message[at..at + i] == source[..i]
      {
        message[at + i] := source[i];
      }
    }

    /** OTP[0..7], or zeros when the mode does not ask for it. */
    method FillSerial(message: array<byte>, useSn: bool)
      requires message.Length == 88
      modifies message
      ensures message[..68] == old(message[..68])
      ensures HasSerial(message[..], useSn, sn)
    {
      hide ByteAt;
      if useSn {
        message[68], message[69] := ByteAt(sn, 0), ByteAt(sn, 1);
        message[70], message[71] := ByteAt(sn, 2), ByteAt(sn, 3);
        message[72], message[73] := ByteAt(sn, 4), ByteAt(sn, 5);
        message[74], message[75] := ByteAt(sn, 6), ByteAt(sn, 7);
      } else {
        message[68], message[69], message[70], message[71] := 0x00, 0x00, 0x00, 0x00;
        message[72], message[73], message[74], message[75] := 0x00, 0x00, 0x00, 0x00;
      }
    }

    /** The part of the message that no command varies. */
    method FillTail(message: array<byte>)
      requires message.Length == 88
      modifies message
      ensures message[..76] == old(message[..76])
      ensures message[76..] == [0x00, 0x00, 0x00, 0xEE] + [0x00, 0x00, 0x00, 0x00] + [0x01, 0x23, 0x00, 0x00]
    {
      FillFour(message, 76, 0x00, 0x00, 0x00, 0xEE);
      ghost var m0 := message[..];
      assert m0[76..80] == message[76..80] && m0[..76] == message[..76];
      FillFour(message, 80, 0x00, 0x00, 0x00, 0x00);
      ghost var m1 := message[..];
      assert m1[80..84] == message[80..84] && m1[..80] == message[..80] && m0[..80] == m1[..80];
      FillFour(message, 84, 0x01, 0x23, 0x00, 0x00);
      ghost var m2 := message[..];
      assert m2[84..88] == message[84..88] && m2[..84] == message[..84] && m1[..84] == m2[..84];
      TailFilled(m0, m1, m2);
      assert m2[76..] == message[76..] && m2[..76] == message[..76];
    }

    static method FillFour(message: array<byte>, at: nat, b0: byte, b1: byte, b2: byte, b3: byte)
      requires at + 4 <= message.Length
      modifies message
      ensures message[..at] == old(message[..at])
      ensures message[at..at + 4] == [b0, b1, b2, b3]
    {
      message[at], message[at + 1], message[at + 2], message[at + 3] := b0, b1, b2, b3;
    }

    method EmulHmacCommand(packet: Packet) returns (status: Status, answer: Option<Packet>)
      requires Valid() && layer == EmulationLayer && IsLibraryCommand(packet) && packet[1] == OPCODE_HMAC
      modifies this`wakeIsExpected, nonce, file, bus
      ensures Valid()
      ensures Reported(EmulHmac(old(Emulated()), old(nonce[..]), packet), status, answer)
      ensures nonce[..] == old(nonce[..])
      decreases 1, 1
    {
      hide Transaction, Decoded;
      hide Layout, SnPart, AnswerPacket, SlotRead, Value, Store;
      ghost var e := Emulated();
      var message := FillMessage(seq(32, _ => 0), nonce[..], OPCODE_HMAC, packet);
      ghost var text := message[..];
      var empty := BigNumber(0, seq(MAX_DATA_SIZE, _ => 0));
      var read, number := RawSlotRead(packet[3], empty);
      if read != Ok {
        return BadCommunicationStatus, None;
      }
      StoredWhole(empty, SlotRead(e, packet[3]).value);
      match crypto.hmac(number.data[..number.bytes], message[..]) {
        case None =>
          return BadCommunicationStatus, None;
        case Some(output) =>
          if |output| != 32 {
            return BadCommunicationStatus, None;
          }
          var a := GenerateAnswerPacket(output);
          return Ok, Some(a[..]);
      }
    }

    method EmulMacCommand(packet: Packet) returns (status: Status, answer: Option<Packet>)
      requires Valid() && layer == EmulationLayer && IsLibraryCommand(packet) && packet[1] == OPCODE_MAC
      modifies this`wakeIsExpected, nonce, file, bus
      ensures Valid()
      ensures Reported(EmulMac(old(Emulated()), packet), status, answer)
      ensures nonce[..] == old(nonce[..])
      decreases 1, 1
    {
      hide Transaction, Decoded;
      hide Layout, SnPart, AnswerPacket, SlotRead, Value, Store;
      ghost var e := Emulated();
      var empty := BigNumber(0, seq(MAX_DATA_SIZE, _ => 0));
      var read, number := RawSlotRead(packet[3], empty);
      if read != Ok {
        return BadCommunicationStatus, None;
      }
      StoredWhole(empty, SlotRead(e, packet[3]).value);
      assert number.data[..number.bytes] == number.data;
      var message := FillMessage(number.data, packet[5..37], OPCODE_MAC, packet);
      match crypto.sha256(message[..]) {
        case None =>
          return BadCommunicationStatus, None;
        case Some(output) =>
          var a := GenerateAnswerPacket(output);
          return Ok, Some(a[..]);
      }
    }

    /** The serial number, read into place around its hole by two counters. */
    method ReadSerial(buffer: string, image: array<byte>) returns (ok: bool)
      requires image.Length == SLOT_BYTE_LEN && forall j :: 0 <= j < image.Length ==> image[j] == 0
      modifies image
      ensures ok <==> ParseLine(buffer, SN_BYTE_LEN).Some?
      ensures ok ==> image[..] == SnImage(ParseLine(buffer, SN_BYTE_LEN).value)
    {
      hide HexNumber, PartialImage, SnImage;
      var snInMemoryLen := SN_BYTE_LEN + 4;
      var line := buffer[..Strlen(buffer)];
      var lineP, lineEndP := 0, |line|;
      var i := 0;
      ghost var taken: seq<byte> := [];
      ImageOfNone(image[..]);
      PrependNothing(Parse(line, 0, SN_BYTE_LEN));
      while i < snInMemoryLen
        invariant i <= snInMemoryLen && lineP <= lineEndP
        invariant |taken| == if i <= 4 then i else if i < 8 then 4 else i - 4
        invariant image[..] == PartialImage(taken)
        invariant ParseLine(buffer, SN_BYTE_LEN) == Prepend(taken, Parse(line, lineP, SN_BYTE_LEN - |taken|))
        decreases snInMemoryLen - i, lineEndP - lineP
      {
        if 4 <= i <= 7 {
          i := i + 1;
          continue;
        }
        if IsDelimiter(CharAt(line, lineP)) {
          lineP := lineP + 1;
          continue;
        }
        ghost var b := HexNumber(CharAt(line, lineP), CharAt(line, lineP + 1));
        image[i] := HexNumber(CharAt(line, lineP), CharAt(line, lineP + 1));
        i := i + 1;
        lineP := lineP + 2;
        if lineP >= lineEndP {
          return false;
        }
        PrependPrepend(taken, [b], Parse(line, lineP, SN_BYTE_LEN - |taken| - 1));
        ImageOneMore(taken, b);
        taken := taken + [b];
      }
      ImageOfAll(taken);
      assert taken + [] == taken;
      return true;
    }

    /** One line of the file, as bytes in a fresh buffer. */
    method ReadLineBytes(skip: nat, n: nat) returns (status: Status, data: array<byte>)
      requires Valid() && layer == EmulationLayer && !isSrvEmulation
      modifies file
      ensures Valid() && fresh(data) && data.Length == n
      ensures match LineBytes(file.text, skip, n)
              case Success(bs) => status == Ok && data[..] == bs
              case Failure(code) => status == code
    {
      hide ParseLine, After;
      data := new byte[n](_ => 0);
      var skipped := file.SkipLines(skip);
      if !skipped {
        return ConfigFileBadFormat, data;
      }
      var line := file.Fgets();
      if line == None {
        return ConfigFileBadFormat, data;
      }
      var read := ReadBytes(line.value, data, 0, n);
      assert data[0..n] == data[..];
      status := if read then Ok else ConfigFileBadFormat;
    }

    /** The serial number of a file handle, put into a zeroed buffer around the hole. */
    method ReadFileSerial(image: array<byte>) returns (ok: bool)
      requires Valid() && layer == EmulationLayer && !isSrvEmulation
      requires image.Length == SLOT_BYTE_LEN && forall j :: 0 <= j < image.Length ==> image[j] == 0
      requires image != nonce
      modifies file, image
      ensures Valid()
      ensures match LineBytes(file.text, 32, SN_BYTE_LEN)
              case Success(bs) => ok && image[..] == SnImage(bs)
              case Failure(code) => !ok && code == ConfigFileBadFormat
    {
      hide ParseLine, SnImage, After;
      var skipped := file.SkipLines(2 * 16);
      if !skipped {
        return false;
      }
      var line := file.Fgets();
      if line == None {
        return false;
      }
      ok := ReadSerial(line.value, image);
    }

    /** The branch of emul_read that reads the serial number. */
    method EmulReadSerial(packet: Packet) returns (status: Status, answer: Option<Packet>)
      requires Valid() && layer == EmulationLayer && IsLibraryCommand(packet) && packet[2] & 0x3 == IO_MEM_CONFIG
      modifies file
      ensures Valid()
      ensures Reported(EmulRead(old(Emulated()), packet), status, answer)
    {
      hide AnswerPacket, LineBytes, SnImage, Value, ByteAt;
      if packet[3] != 0x00 {
        return NotImplemented, None;
      }
      var image := new byte[SLOT_BYTE_LEN](_ => 0);
      if isSrvEmulation {
        var held := sn;
        PlaceSerial(seq(SN_BYTE_LEN, i requires 0 <= i => ByteAt(held, i)), image);
        assert seq(SN_BYTE_LEN, i requires 0 <= i => ByteAt(held, i)) == ChipSerialOf(Emulated()).value;
      } else {
        var read := ReadFileSerial(image);
        if !read {
          return ConfigFileBadFormat, None;
        }
      }
      var a := GenerateAnswerPacket(image[..]);
      return Ok, Some(a[..]);
    }

    /** The branches of emul_read that read a key or an OTP word. */
    method EmulReadLine(packet: Packet) returns (status: Status, answer: Option<Packet>)
      requires Valid() && layer == EmulationLayer && IsLibraryCommand(packet)
      requires packet[2] & 0x3 == IO_MEM_DATA || packet[2] & 0x3 == IO_MEM_OTP
      modifies file
      ensures Valid()
      ensures Reported(EmulRead(old(Emulated()), packet), status, answer)
    {
      hide AnswerPacket, LineBytes, Value;
      var data;
      if packet[2] & 0x3 == IO_MEM_DATA {
        if isSrvEmulation {
          var a := GenerateAnswerPacket(key);
          return Ok, Some(a[..]);
        }
        status, data := ReadLineBytes(Value(packet[3]) / 8, SLOT_BYTE_LEN);
      } else {
        if isSrvEmulation {
          return NotImplemented, None;
        }
        status, data := ReadLineBytes(16 + Value(packet[3]), OTP_BYTE_LEN);
      }
      if status != Ok {
        return status, None;
      }
      var a := GenerateAnswerPacket(data[..]);
      return Ok, Some(a[..]);
    }

    method EmulReadCommand(packet: Packet) returns (status: Status, answer: Option<Packet>)
      requires Valid() && layer == EmulationLayer && IsLibraryCommand(packet) && packet[1] == OPCODE_READ
      modifies file
      ensures Valid()
      ensures Reported(EmulRead(old(Emulated()), packet), status, answer)
    {
      hide Answered, KeyOf, OtpOf, ChipSerialOf, AnswerPacket, SnImage, Value;
      var readFrom := packet[2] & 0x3;
      if readFrom == IO_MEM_CONFIG {
        status, answer := EmulReadSerial(packet);
      } else if readFrom == IO_MEM_DATA || readFrom == IO_MEM_OTP {
        status, answer := EmulReadLine(packet);
      } else {
        return NotImplemented, None;
      }
    }

    /** The nine assignments of the server branch; the ninth byte lies behind the eight that a server handle holds. */
    static method PlaceSerial(serial: seq<byte>, image: array<byte>)
      requires |serial| == SN_BYTE_LEN
      requires image.Length == SLOT_BYTE_LEN && forall j :: 0 <= j < image.Length ==> image[j] == 0
      modifies image
      ensures image[..] == SnImage(serial)
    {
      image[0], image[1], image[2], image[3] := serial[0], serial[1], serial[2], serial[3];
      image[8], image[9], image[10], image[11] := serial[4], serial[5], serial[6], serial[7];
      image[12] := serial[8];
      ImagePositions(serial);
      hide SnImage;
      assert forall j :: 0 <= j < SLOT_BYTE_LEN ==> image[j] == SnImage(serial)[j];
    }

    // ---- api.c ----

    /** command, with what it amounts to on a tame and on a clean bus. */
    method Send(packet: Packet) returns (status: Status, answer: Option<Packet>)
      requires Valid() && IsLibraryCommand(packet)
      modifies this`wakeIsExpected, nonce, file, bus
      ensures Valid()
      ensures status == Ok ==> answer.Some? && WellFramed(answer.value)
      ensures layer == EmulationLayer ==>
                Reported(EmulStep(old(Emulated()), old(nonce[..]), packet).0, status, answer) &&
                nonce[..] == EmulStep(old(Emulated()), old(nonce[..]), packet).1
      ensures layer == Ni2cLayer ==>
                Outcome(status, answer, bus.Now()) ==
                CommandRun(bus.world, old(bus.Now()), packet, EXCHANGES, Communication)
      ensures layer == Ni2cLayer ==> wakeIsExpected == old(wakeIsExpected) && bus.pulses == old(bus.pulses)
      ensures layer == Ni2cLayer ==> Ran(old(bus.chip), bus.chip, packet)
      ensures layer == Ni2cLayer && (packet[1] == OPCODE_NONCE || packet[1] == OPCODE_HMAC) ==>
                SameMemory(old(bus.chip), bus.chip)
      ensures layer == Ni2cLayer && Tame(bus.world) ==>
                SentOnce(old(bus.chip), bus.chip, packet, status, answer)
      ensures layer == Ni2cLayer && packet[1] == OPCODE_READ && FitsRecords(bus.world) && status == Ok ==>
                |answer.value| <= 7 || |answer.value| <= |ExecuteRead(old(bus.chip), packet)|
      ensures layer == Ni2cLayer && Clean(bus.world) && Accepts(Execute(old(bus.chip), packet).1) ==> status == Ok
      decreases Rank(packet), 4
    {
      ghost var opcode := packet[1];
      hide EmulStep, Execute, Accepts, IsEmulCommand, IsCommand, Clean, Tame, FitsRecords, CommandRun;
      ghost var line := if layer == Ni2cLayer then Some(bus.Now()) else None;
      status, answer := Command(packet);
      if layer == Ni2cLayer {
        DigestsKeepMemory(old(bus.chip), packet);
        RunAnswered(bus.world, line.value, packet, EXCHANGES, Communication);
        CommandEffect(bus.world, line.value, packet, EXCHANGES, Communication);
        if FitsRecords(bus.world) && opcode == OPCODE_READ {
          ReadFits(bus.world, line.value, packet, EXCHANGES, Communication);
        }
        if Tame(bus.world) {
          CommandOnce(bus.world, line.value, packet, EXCHANGES, Communication);
        }
        if Clean(bus.world) && Accepts(Execute(old(bus.chip), packet).1) {
          CommandClean(bus.world, line.value, packet, EXCHANGES, Communication);
        }
      }
    }

    /** The opening of most calls: wake the chip, then send it a command. */
    method Transact(packet: Packet) returns (status: Status, answer: Option<Packet>)
      requires Valid() && IsLibraryCommand(packet)
      modifies this`wakeIsExpected, nonce, file, bus
      ensures Valid()
      ensures status == Ok ==> answer.Some? && WellFramed(answer.value)
      ensures layer == EmulationLayer ==>
                Reported(EmulStep(old(Emulated()), old(nonce[..]), packet).0, status, answer) &&
                nonce[..] == EmulStep(old(Emulated()), old(nonce[..]), packet).1
      ensures layer == Ni2cLayer ==>
                Outcome(status, answer, bus.Now()) ==
                Transaction(bus.world, old(bus.Now()), old(wakeIsExpected), packet)
      ensures layer == Ni2cLayer ==> wakeIsExpected && old(bus.pulses) <= bus.pulses <= old(bus.pulses) + 7
      ensures layer == Ni2cLayer && old(wakeIsExpected) ==> bus.pulses == old(bus.pulses)
      ensures layer == Ni2cLayer ==> Ran(old(bus.chip), bus.chip, packet)
      ensures layer == Ni2cLayer && Tame(bus.world) ==>
                SentOnce(old(bus.chip), bus.chip, packet, status, answer)
      ensures layer == Ni2cLayer && packet[1] == OPCODE_READ && FitsRecords(bus.world) && status == Ok ==>
                |answer.value| <= 7 || |answer.value| <= |ExecuteRead(old(bus.chip), packet)|
      ensures layer == Ni2cLayer && Clean(bus.world) && Accepts(Execute(old(bus.chip), packet).1) ==> status == Ok
      decreases Rank(packet), 5
    {
      hide EmulStep, Execute, ExecuteRead, Accepts, IsEmulCommand, IsCommand, Clean, Tame, FitsRecords;
      hide CommandRun, WakeRun;
      status := Wake();
      if status != Ok {
        return status, None;
      }
      status, answer := Send(packet);
    }

    /**
     The shared body of the read calls: decode the answer into the caller's buffer, then let the chip
     idle. The ghost arguments name the value an emulated chip has there, and what a real one stores.
     */
    method ReadCall(packet: Packet, before: BigInt, ghost meant: Result<seq<byte>>, ghost stored: Option<seq<byte>>)
      returns (status: Status, number: BigInt)
      requires Valid() && IsLibraryCommand(packet) && packet[1] == OPCODE_READ
      requires meant.Success? ==> 0 < |meant.value| <= MAX_DATA_SIZE
      requires stored.Some? ==> 2 <= |stored.value| <= MAX_DATA_SIZE
      requires layer == EmulationLayer ==> EmulRead(Emulated(), packet) == Answered(meant)
      requires layer == Ni2cLayer ==> ExecuteRead(bus.chip, packet) == ReadAnswer(stored)
      modifies this`wakeIsExpected, nonce, file, bus
      ensures Valid()
      ensures status == Ok ==> !wakeIsExpected
      ensures status == Ok ==> number.bytes <= MAX_DATA_SIZE
      ensures layer == Ni2cLayer ==>
                WakeLaw(old(wakeIsExpected), old(bus.pulses), status, wakeIsExpected, bus.pulses)
      ensures layer == EmulationLayer ==> nonce[..] == old(nonce[..]) && Given(meant, before, status, number)
      ensures layer == Ni2cLayer ==> bus.chip == old(bus.chip)
      ensures layer == Ni2cLayer ==>
                Decoded(Transaction(bus.world, old(bus.Now()), old(wakeIsExpected), packet), before, status, number)
      ensures layer == Ni2cLayer && Tame(bus.world) ==>
                ReadOut(stored, before, status, number)
      ensures layer == Ni2cLayer && FitsRecords(bus.world) && status == Ok ==>
                number.bytes <= 4 || (stored.Some? && number.bytes <= |stored.value|)
      ensures layer == Ni2cLayer && Tame(bus.world) && Clean(bus.world) && stored.Some? ==> status == Ok
      decreases Rank(packet), 6
    {
      hide Transaction, Unpacked, ReadAnswer, Accepts, EmulRead, ExecuteRead, AnswerPacket;
      hide Clean, Tame, FitsRecords, Value;
      ReadAccepted(stored);
      ReadLength(stored);
      var answer;
      status, answer := Transact(packet);
      if status != Ok {
        return status, before;
      }
      status, number := TakeContents(answer.value, before);
      if layer == EmulationLayer {
        UnpackedValue(meant.value, before, status, number);
      } else if Tame(bus.world) {
        ReadUnpacked(stored, before, status, number);
      }
      UnpackedSize(answer.value, before, status, number);
    }

    /** The shared body of the write and lock calls. */
    method WriteCall(packet: Packet) returns (status: Status)
      requires Valid() && IsLibraryCommand(packet) && (packet[1] == OPCODE_WRITE || packet[1] == OPCODE_LOCK)
      modifies this`wakeIsExpected, nonce, file, bus
      ensures Valid()
      ensures status == Ok ==> !wakeIsExpected
      ensures layer == Ni2cLayer ==>
                WakeLaw(old(wakeIsExpected), old(bus.pulses), status, wakeIsExpected, bus.pulses)
      ensures layer == EmulationLayer ==> status == NotImplemented && nonce[..] == old(nonce[..])
      ensures layer == Ni2cLayer ==> Ran(old(bus.chip), bus.chip, packet)
      ensures layer == Ni2cLayer ==>
                status == Acknowledged(Transaction(bus.world, old(bus.Now()), old(wakeIsExpected), packet))
      ensures layer == Ni2cLayer && Tame(bus.world) ==> WrittenOnce(old(bus.chip), bus.chip, packet, status)
      ensures layer == Ni2cLayer && Tame(bus.world) && Clean(bus.world) ==>
                (Succeeds(old(bus.chip), packet) ==> status == Ok)
    {
      hide Transaction, Accepts, Execute, Clean, Tame, Value;
      var answer;
      status, answer := Transact(packet);
      if status != Ok {
        return;
      }
      status := JustCheckStatus(answer.value);
      if status != Ok {
        return;
      }
      var idled := Idle();
    }

    method RawSlotRead(slotNumber: byte, before: BigInt) returns (status: Status, number: BigInt)
      requires Valid()
      modifies this`wakeIsExpected, nonce, file, bus
      ensures Valid()
      ensures status == Ok ==> !wakeIsExpected
      ensures status == Ok ==> number.bytes <= MAX_DATA_SIZE
      ensures layer == Ni2cLayer && Value(slotNumber) <= MAX_SLOT_NUMBER ==>
                WakeLaw(old(wakeIsExpected), old(bus.pulses), status, wakeIsExpected, bus.pulses)
      ensures Value(slotNumber) > MAX_SLOT_NUMBER ==>
                wakeIsExpected == old(wakeIsExpected) && (bus != null ==> bus.pulses == old(bus.pulses))
      ensures Value(slotNumber) > MAX_SLOT_NUMBER ==> status == InvalidInput && number == before
      ensures layer == EmulationLayer ==> nonce[..] == old(nonce[..])
      ensures layer == EmulationLayer ==> Given(SlotRead(old(Emulated()), slotNumber), before, status, number)
      ensures layer == EmulationLayer ==> (status == InvalidInput <==> Value(slotNumber) > 15)
      ensures layer == EmulationLayer ==> status in {Ok, InvalidInput, ConfigFileBadFormat}
      ensures isSrvEmulation && Value(slotNumber) <= 15 ==> status == Ok && number == BigNumber(32, key)
      ensures layer == Ni2cLayer && Value(slotNumber) <= MAX_SLOT_NUMBER ==>
                Decoded(Transaction(bus.world, old(bus.Now()), old(wakeIsExpected),
                                    OpRawRead(READ_SLOT, GetSlotAddress(Value(slotNumber)))),
                        before, status, number)
      ensures layer == Ni2cLayer ==> bus.chip == old(bus.chip)
      ensures layer == Ni2cLayer && Tame(bus.world) ==>
                ReadOut(StoredSlot(bus.chip, Value(slotNumber)), before, status, number)
      ensures layer == Ni2cLayer && Tame(bus.world) && Clean(bus.world) ==>
                (StoredSlot(bus.chip, Value(slotNumber)).Some? ==> status == Ok)
      decreases 1, 0
    {
      hide Transaction, Decoded, OpRawRead, KeyOf, StoredSlot, GetSlotAddress, Value, EmulRead, IsEmulCommand;
      hide Tame, Clean, FitsRecords, ExecuteRead, ReadAnswer, Answered;
      if Value(slotNumber) > MAX_SLOT_NUMBER {
        BadSlot(Value(slotNumber), before);
        return InvalidInput, before;
      }
      ghost var slot := Value(slotNumber);
      ghost var meant: Result<seq<byte>> := Failure(Communication);
      ghost var stored: Option<seq<byte>> := None;
      if layer == EmulationLayer {
        meant := KeyOf(Emulated(), slot);
        KeyStatus(Emulated(), slot);
        if meant.Success? {
          StoredWhole(before, meant.value);
        }
      } else {
        stored := StoredSlot(bus.chip, slot);
        SlotReadOnChip(bus.chip, slot);
      }
      SlotReadCommand(if layer == EmulationLayer then Some(Emulated()) else None, slot);
      var packet := OpRawRead(READ_SLOT, GetSlotAddress(Value(slotNumber)));
      status, number := ReadCall(packet, before, meant, stored);
    }

    method RawOtpRead(address: byte, before: BigInt) returns (status: Status, number: BigInt)
      requires Valid()
      modifies this`wakeIsExpected, nonce, file, bus
      ensures Valid()
      ensures status == Ok ==> !wakeIsExpected
      ensures status == Ok ==> number.bytes <= MAX_DATA_SIZE
      ensures layer == Ni2cLayer ==>
                WakeLaw(old(wakeIsExpected), old(bus.pulses), status, wakeIsExpected, bus.pulses)
      ensures layer == EmulationLayer ==> nonce[..] == old(nonce[..])
      ensures layer == EmulationLayer ==> Given(OtpOf(old(Emulated()), Value(address)), before, status, number)
      ensures isSrvEmulation ==> status == NotImplemented && number == before
      ensures layer == EmulationLayer && !isSrvEmulation ==> status in {Ok, ConfigFileBadFormat}
      ensures layer == EmulationLayer && status == Ok ==> number.bytes == 4
      ensures layer == Ni2cLayer ==>
                Decoded(Transaction(bus.world, old(bus.Now()), old(wakeIsExpected), OpRawRead(READ_OTP, address)),
                        before, status, number)
      ensures layer == Ni2cLayer ==> bus.chip == old(bus.chip)
      ensures layer == Ni2cLayer && Tame(bus.world) ==>
                ReadOut(StoredWord(bus.chip, Value(address)), before, status, number)
      ensures layer == Ni2cLayer && Tame(bus.world) && Clean(bus.world) ==>
                (StoredWord(bus.chip, Value(address)).Some? ==> status == Ok)
    {
      hide Transaction, Decoded, OpRawRead, OtpOf, StoredWord, Value, EmulRead, IsEmulCommand, Answered;
      hide Tame, Clean, FitsRecords, ExecuteRead, ReadAnswer;
      ghost var meant: Result<seq<byte>> := Failure(Communication);
      ghost var stored: Option<seq<byte>> := None;
      if layer == EmulationLayer {
        meant := OtpOf(Emulated(), Value(address));
        OtpStatus(Emulated(), Value(address));
      } else {
        stored := StoredWord(bus.chip, Value(address));
        OtpReadOnChip(bus.chip, address);
      }
      OtpReadCommand(if layer == EmulationLayer then Some(Emulated()) else None, address);
      var packet := OpRawRead(READ_OTP, address);
      status, number := ReadCall(packet, before, meant, stored);
    }

    method RawConfRead(address: byte, before: BigInt) returns (status: Status, number: BigInt)
      requires Valid()
      modifies this`wakeIsExpected, nonce, file, bus
      ensures Valid()
      ensures status == Ok ==> !wakeIsExpected
      ensures status == Ok ==> number.bytes <= MAX_DATA_SIZE
      ensures layer == Ni2cLayer ==>
                WakeLaw(old(wakeIsExpected), old(bus.pulses), status, wakeIsExpected, bus.pulses)
      ensures layer == EmulationLayer ==> nonce[..] == old(nonce[..])
      ensures layer == EmulationLayer ==> Given(EmulatedConfig(old(Emulated()), address), before, status, number)
      ensures layer == EmulationLayer ==>
                if address == 0x00 then status in {Ok, ConfigFileBadFormat} else status == NotImplemented
      ensures layer == Ni2cLayer ==>
                Decoded(Transaction(bus.world, old(bus.Now()), old(wakeIsExpected), OpRawRead(READ_CONFIG, address)),
                        before, status, number)
      ensures layer == Ni2cLayer ==> bus.chip == old(bus.chip)
      ensures layer == Ni2cLayer && Tame(bus.world) ==>
                ReadOut(StoredConfig(bus.chip, Value(address)), before, status, number)
      ensures layer == Ni2cLayer && FitsRecords(bus.world) && status == Ok ==> number.bytes <= 4
      ensures layer == Ni2cLayer && Tame(bus.world) && Clean(bus.world) ==>
                (StoredConfig(bus.chip, Value(address)).Some? ==> status == Ok)
    {
      hide Transaction, Decoded, OpRawRead, EmulatedConfig, StoredConfig, Value, EmulRead, IsEmulCommand, Answered;
      hide Tame, Clean, FitsRecords, ExecuteRead, ReadAnswer;
      ghost var meant: Result<seq<byte>> := Failure(Communication);
      ghost var stored: Option<seq<byte>> := None;
      if layer == EmulationLayer {
        meant := EmulatedConfig(Emulated(), address);
        ConfigStatus(Emulated(), address);
      } else {
        stored := StoredConfig(bus.chip, Value(address));
        ConfigReadOnChip(bus.chip, address);
      }
      ConfigReadCommand(if layer == EmulationLayer then Some(Emulated()) else None, address);
      var packet := OpRawRead(READ_CONFIG, address);
      status, number := ReadCall(packet, before, meant, stored);
    }

    method RawSlotWrite(slotNumber: byte, number: BigInt) returns (status: Status)
      requires Valid() && number.bytes <= MAX_DATA_SIZE
      modifies this`wakeIsExpected, nonce, file, bus
      ensures Valid()
      ensures status == Ok ==> !wakeIsExpected
      ensures layer == Ni2cLayer && Value(slotNumber) <= MAX_SLOT_NUMBER ==>
                WakeLaw(old(wakeIsExpected), old(bus.pulses), status, wakeIsExpected, bus.pulses)
      ensures Value(slotNumber) > MAX_SLOT_NUMBER ==>
                wakeIsExpected == old(wakeIsExpected) && (bus != null ==> bus.pulses == old(bus.pulses))
      ensures Value(slotNumber) > MAX_SLOT_NUMBER ==> status == InvalidInput
      ensures layer == EmulationLayer && Value(slotNumber) <= MAX_SLOT_NUMBER ==> status == NotImplemented
      ensures layer == EmulationLayer ==> nonce[..] == old(nonce[..])
      ensures layer == Ni2cLayer && Value(slotNumber) <= MAX_SLOT_NUMBER ==>
                status == Acknowledged(Transaction(bus.world, old(bus.Now()), old(wakeIsExpected),
                                                   SlotWrite(Value(slotNumber), number)))
      ensures layer == Ni2cLayer && Value(slotNumber) <= MAX_SLOT_NUMBER ==>
                Ran(old(bus.chip), bus.chip, SlotWrite(Value(slotNumber), number))
      ensures layer == Ni2cLayer && Tame(bus.world) && Value(slotNumber) <= MAX_SLOT_NUMBER ==>
                WrittenOnce(old(bus.chip), bus.chip, SlotWrite(Value(slotNumber), number), status)
      ensures layer == Ni2cLayer && Tame(bus.world) && Clean(bus.world) && Value(slotNumber) <= MAX_SLOT_NUMBER ==>
                (Succeeds(old(bus.chip), SlotWrite(Value(slotNumber), number)) ==> status == Ok)
    {
      hide Transaction, Acknowledged;
      hide CommandPacket, Value, GetSlotAddress, Tame, Clean, Execute, Accepts, Accepted;
      if Value(slotNumber) > MAX_SLOT_NUMBER {
        return InvalidInput;
      }
      var address := GetSlotAddress(Value(slotNumber));
      var packet := OpRawWrite(READ_SLOT, address, number.data[..number.bytes]);
      AddressedCommand(OPCODE_WRITE, READ_SLOT, address, number.data[..number.bytes]);
      status := WriteCall(packet);
    }

    method RawConfWrite(address: byte, number: BigInt) returns (status: Status)
      requires Valid() && number.bytes <= MAX_DATA_SIZE
      modifies this`wakeIsExpected, nonce, file, bus
      ensures Valid()
      ensures status == Ok ==> !wakeIsExpected
      ensures layer == Ni2cLayer ==>
                WakeLaw(old(wakeIsExpected), old(bus.pulses), status, wakeIsExpected, bus.pulses)
      ensures layer == EmulationLayer ==> status == NotImplemented && nonce[..] == old(nonce[..])
      ensures layer == Ni2cLayer ==>
                status == Acknowledged(Transaction(bus.world, old(bus.Now()), old(wakeIsExpected),
                                                   ConfigWrite(address, number)))
      ensures layer == Ni2cLayer ==> Ran(old(bus.chip), bus.chip, ConfigWrite(address, number))
      ensures layer == Ni2cLayer && Tame(bus.world) ==>
                WrittenOnce(old(bus.chip), bus.chip, ConfigWrite(address, number), status)
      ensures layer == Ni2cLayer && Tame(bus.world) && Clean(bus.world) ==>
                (Succeeds(old(bus.chip), ConfigWrite(address, number)) ==> status == Ok)
    {
      hide Transaction, Acknowledged;
      hide CommandPacket, Value, Tame, Clean, Execute, Accepts, Accepted;
      var packet := OpRawWrite(READ_CONFIG, address, number.data[..number.bytes]);
      AddressedCommand(OPCODE_WRITE, READ_CONFIG, address, number.data[..number.bytes]);
      status := WriteCall(packet);
    }

    method RawOtp32Write(address: byte, number: BigInt) returns (status: Status)
      requires Valid()
      modifies this`wakeIsExpected, nonce, file, bus
      ensures Valid()
      ensures status == Ok ==> !wakeIsExpected
      ensures layer == Ni2cLayer && number.bytes == 32 ==>
                WakeLaw(old(wakeIsExpected), old(bus.pulses), status, wakeIsExpected, bus.pulses)
      ensures number.bytes != 32 ==>
                wakeIsExpected == old(wakeIsExpected) && (bus != null ==> bus.pulses == old(bus.pulses))
      ensures number.bytes != 32 ==> status == InvalidInput
      ensures layer == EmulationLayer && number.bytes == 32 ==> status == NotImplemented
      ensures layer == EmulationLayer ==> nonce[..] == old(nonce[..])
      ensures layer == Ni2cLayer && number.bytes == 32 ==>
                status == Acknowledged(Transaction(bus.world, old(bus.Now()), old(wakeIsExpected),
                                                   OpRawWrite(WRITE_OTP_32, address, number.data)))
      ensures layer == Ni2cLayer && number.bytes == 32 ==>
                Ran(old(bus.chip), bus.chip, OpRawWrite(WRITE_OTP_32, address, number.data))
      ensures layer == Ni2cLayer && Tame(bus.world) && number.bytes == 32 ==>
                WrittenOnce(old(bus.chip), bus.chip, OpRawWrite(WRITE_OTP_32, address, number.data), status)
      ensures layer == Ni2cLayer && Tame(bus.world) && Clean(bus.world) && number.bytes == 32 ==>
                (Succeeds(old(bus.chip), OpRawWrite(WRITE_OTP_32, address, number.data)) ==> status == Ok)
    {
      hide Transaction, Acknowledged;
      hide CommandPacket, Value, Tame, Clean, Execute, Accepts, Accepted;
      if number.bytes != 32 {
        return InvalidInput;
      }
      assert number.data[..number.bytes] == number.data;
      var packet := OpRawWrite(WRITE_OTP_32, address, number.data[..number.bytes]);
      AddressedCommand(OPCODE_WRITE, WRITE_OTP_32, address, number.data);
      status := WriteCall(packet);
    }

    /** atsha_lock_config and atsha_lock_data, which differ in the zone they name. */
    method Lock(lockWhat: byte, crc: seq<byte>) returns (status: Status)
      requires Valid() && |crc| == 2
      modifies this`wakeIsExpected, nonce, file, bus
      ensures Valid()
      ensures status == Ok ==> !wakeIsExpected
      ensures layer == Ni2cLayer ==>
                WakeLaw(old(wakeIsExpected), old(bus.pulses), status, wakeIsExpected, bus.pulses)
      ensures layer == EmulationLayer ==> status == NotImplemented && nonce[..] == old(nonce[..])
      ensures layer == Ni2cLayer ==>
                status == Acknowledged(Transaction(bus.world, old(bus.Now()), old(wakeIsExpected),
                                                   OpLock(GetLockConfig(lockWhat), crc)))
      ensures layer == Ni2cLayer ==> Ran(old(bus.chip), bus.chip, OpLock(GetLockConfig(lockWhat), crc))
      ensures layer == Ni2cLayer && Tame(bus.world) ==>
                WrittenOnce(old(bus.chip), bus.chip, OpLock(GetLockConfig(lockWhat), crc), status)
      ensures layer == Ni2cLayer && Tame(bus.world) && Clean(bus.world) ==>
                (Succeeds(old(bus.chip), OpLock(GetLockConfig(lockWhat), crc)) ==> status == Ok)
    {
      hide Transaction, Acknowledged;
      hide OpLock, Value, Tame, Clean, Execute, Accepts, Accepted, WellFramed;
      var packet := OpLock(GetLockConfig(lockWhat), crc);
      LockFields(GetLockConfig(lockWhat), crc);
      LockLength(GetLockConfig(lockWhat), crc);
      status := WriteCall(packet);
    }

    method ChipSerialNumber(before: BigInt) returns (status: Status, number: BigInt)
      requires Valid()
      modifies this`wakeIsExpected, nonce, file, bus
      ensures Valid()
      ensures status == Ok ==> !wakeIsExpected
      ensures status == Ok ==> number.bytes <= MAX_DATA_SIZE
      ensures layer == Ni2cLayer ==>
                WakeLaw(old(wakeIsExpected), old(bus.pulses), status, wakeIsExpected, bus.pulses)
      ensures layer == EmulationLayer ==> nonce[..] == old(nonce[..])
      ensures layer == EmulationLayer ==> Given(ChipSerialOf(old(Emulated())), before, status, number)
      ensures layer == EmulationLayer ==> status in {Ok, ConfigFileBadFormat}
      ensures isSrvEmulation ==> status == Ok && number.bytes == 9
      ensures isSrvEmulation && |sn| == 8 ==> number.data[..8] == sn
      ensures layer == Ni2cLayer ==> bus.chip == old(bus.chip)
      ensures layer == Ni2cLayer && Tame(bus.world) ==>
                ReadOut(Some(SerialOnChip(bus.chip)), before, status, number)
      ensures layer == Ni2cLayer && Tame(bus.world) && Clean(bus.world) ==> status == Ok
    {
      hide OpSerialNumber, ChipSerialOf, EmulStep, Value, Gathered, Tame, Clean, ExecuteRead, SerialOnChip;
      hide AnswerPacket, IsEmulCommand, Accepts;
      if layer == EmulationLayer {
        SerialPacket(Emulated(), nonce[..]);
        SerialStatus(Emulated());
      } else {
        SerialReadOnChip(bus.chip);
        LongAnswerAccepted(bus.chip.config[..32]);
      }
      SerialLength();
      var packet := OpSerialNumber();
      var answer;
      status, answer := Transact(packet);
      if status != Ok {
        return status, before;
      }
      var buffer := new byte[MAX_DATA_SIZE](i requires 0 <= i < MAX_DATA_SIZE => before.data[i]);
      assert buffer[..] == before.data;
      var size := OpSerialNumberRecv(answer.value, buffer);
      number := BigNumber(size, buffer[..]);
      if size == 0 {
        return MemoryAllocationError, number;
      }
      var idled := Idle();
    }

    /** atsha_serial_number: OTP words 0 and 1. */
    method SerialNumber(before: BigInt) returns (status: Status, number: BigInt)
      requires Valid()
      modifies this`wakeIsExpected, nonce, file, bus
      ensures Valid()
      ensures status == Ok ==> !wakeIsExpected
      ensures layer == Ni2cLayer && status != Ok ==> wakeIsExpected
      ensures status == Ok ==> number.bytes == 8
      ensures layer == EmulationLayer ==> nonce[..] == old(nonce[..])
      ensures layer == EmulationLayer ==>
                match SerialOf(old(Emulated()))
                case Success(value) => status == Ok && number == Store(before, value)
                case Failure(code) => status == code
      ensures isSrvEmulation ==> status == NotImplemented
      ensures layer == EmulationLayer && !isSrvEmulation ==> status in {Ok, ConfigFileBadFormat}
      ensures layer == Ni2cLayer ==> bus.chip == old(bus.chip)
      ensures layer == Ni2cLayer && Tame(bus.world) && status == Ok ==>
                bus.chip.dataLocked && number == Store(before, bus.chip.otp[..8])
      ensures layer == Ni2cLayer && Tame(bus.world) && Clean(bus.world) && bus.chip.dataLocked ==> status == Ok
    {
      hide Transaction, Decoded, OpRawRead, FitsRecords, Value, OtpOf, Tame, Clean, StoredWord;
      ghost var e := if layer == EmulationLayer then Some(Emulated()) else None;
      OtpWords();
      if layer == Ni2cLayer {
        SerialWords(bus.chip);
      }
      var empty := BigNumber(0, seq(MAX_DATA_SIZE, _ => 0));
      var part;
      number := before;
      status, part := RawOtpRead(OTP_REV_NUMBER, empty);
      if status != Ok {
        return;
      }
      ghost var first := part.data[..4];
      number := BigNumber(number.bytes, part.data[..4] + number.data[4..]);
      status, part := RawOtpRead(OTP_SERIAL_NUMBER, empty);
      if status != Ok {
        return;
      }
      ghost var second := part.data[..4];
      BothParts(before, number, first, second);
      number := BigNumber(8, number.data[..4] + part.data[..4] + number.data[8..]);
    }

    /** atsha_low_challenge_response: one packet stores the challenge in TempKey, the next digests it. */
    method LowChallengeResponse(slotNumber: byte, challenge: BigInt, before: BigInt, useSn: bool)
      returns (status: Status, response: BigInt)
      requires Valid()
      modifies this`wakeIsExpected, nonce, file, bus
      ensures Valid()
      ensures status == Ok ==> !wakeIsExpected
      ensures status == Ok ==> response.bytes <= MAX_DATA_SIZE
      ensures layer == Ni2cLayer && Value(slotNumber) <= MAX_SLOT_NUMBER && challenge.bytes == 32 ==>
                WakeLaw(old(wakeIsExpected), old(bus.pulses), status, wakeIsExpected, bus.pulses)
      ensures Value(slotNumber) > MAX_SLOT_NUMBER || challenge.bytes != 32 ==>
                wakeIsExpected == old(wakeIsExpected) && (bus != null ==> bus.pulses == old(bus.pulses))
      ensures Value(slotNumber) > MAX_SLOT_NUMBER || challenge.bytes != 32 ==>
                status == InvalidInput && response == before
      ensures layer == EmulationLayer && challenge.bytes == 32 ==>
                Given(HmacResponse(old(Emulated()), Value(slotNumber), challenge.data, useSn), before, status, response)
      ensures layer == EmulationLayer && Value(slotNumber) <= 15 && challenge.bytes == 32 ==>
                status in {Ok, BadCommunicationStatus}
      ensures layer == Ni2cLayer && Value(slotNumber) <= MAX_SLOT_NUMBER && challenge.bytes == 32 ==>
                Decoded(ChallengeRun(bus.world, old(bus.Now()), old(wakeIsExpected), slotNumber, challenge.data, useSn),
                        before, status, response)
      ensures layer == Ni2cLayer ==> SameMemory(old(bus.chip), bus.chip)
      ensures layer == Ni2cLayer && Tame(bus.world) && status == Ok ==>
                && bus.chip.dataLocked
                && response == Store(before, ChipHmac(old(bus.chip), Value(slotNumber), challenge.data, useSn))
      ensures (layer == Ni2cLayer && Tame(bus.world) && Clean(bus.world) && bus.chip.dataLocked &&
               Value(slotNumber) <= MAX_SLOT_NUMBER && challenge.bytes == 32) ==> status == Ok
    {
      hide Unpacked, Transaction, CommandRun, Payload, WellFramed, Acknowledged;
      hide OpNonce, OpHmac, HmacResponse, ChipHmac;
      hide AnswerPacket, EmulStep, Value, Accepted, Accepts;
      hide Layout, OtpPart, CommandPacket, KeyOf, FromValue, IsEmulCommand, IsCommand;
      hide Tame, Clean, FitsRecords, Execute;
      if Value(slotNumber) > MAX_SLOT_NUMBER {
        HmacOfBadSlot();
        BadSlot(Value(slotNumber), before);
        return InvalidInput, before;
      }
      if challenge.bytes != 32 {
        return InvalidInput, before;
      }
      ghost var slot := Value(slotNumber);
      ghost var e := if layer == EmulationLayer then Some(Emulated()) else None;
      ValueInjective(slotNumber, FromValue(slot));
      if layer == EmulationLayer {
        HmacPackets(Emulated(), nonce[..], slot, challenge.data, useSn);
        DigestStatus(Emulated(), slot, challenge.data, useSn);
      } else {
        ChallengeOnChip(bus.chip, slot, challenge.data, useSn);
      }
      assert challenge.data[..challenge.bytes] == challenge.data;
      DigestPackets(slotNumber, challenge.data, useSn);
      var packet := OpNonce(challenge.data[..challenge.bytes]);
      status := StoreChallenge(packet);
      if status != Ok {
        return status, before;
      }
      var answer;
      packet := OpHmac(slotNumber, useSn);
      ghost var between := if layer == Ni2cLayer then Some(bus.chip) else None;
      status, answer := Send(packet);
      if layer == Ni2cLayer {
        MemoryThroughout(old(bus.chip), between.value, bus.chip);
      }
      if status != Ok {
        return status, before;
      }
      status, response := TakeContents(answer.value, before);
      if layer == EmulationLayer {
        UnpackedValue(HmacResponse(e.value, slot, challenge.data, useSn).value, before, status, response);
      } else if Tame(bus.world) {
        UnpackedValue(ChipHmac(old(bus.chip), slot, challenge.data, useSn), before, status, response);
      }
    }

    /** The first half: wake the chip and put the challenge into TempKey. */
    method StoreChallenge(packet: Packet) returns (status: Status)
      requires Valid() && IsLibraryCommand(packet) && packet[1] == OPCODE_NONCE
      modifies this`wakeIsExpected, nonce, file, bus
      ensures Valid()
      ensures layer == EmulationLayer ==>
                status == Ok && nonce[..] == EmulStep(old(Emulated()), old(nonce[..]), packet).1
      ensures layer == Ni2cLayer ==> wakeIsExpected && old(bus.pulses) <= bus.pulses <= old(bus.pulses) + 7
      ensures layer == Ni2cLayer && old(wakeIsExpected) ==> bus.pulses == old(bus.pulses)
      ensures layer == Ni2cLayer ==> SameMemory(old(bus.chip), bus.chip)
      ensures layer == Ni2cLayer ==>
                var o := Transaction(bus.world, old(bus.Now()), old(wakeIsExpected), packet);
                status == Acknowledged(o) && bus.Now() == o.line
      ensures layer == Ni2cLayer && Tame(bus.world) && status == Ok ==> bus.chip == Execute(old(bus.chip), packet).0
      ensures layer == Ni2cLayer && Tame(bus.world) && Clean(bus.world) ==>
                (Succeeds(old(bus.chip), packet) ==> status == Ok)
    {
      hide Transaction, Accepts, AnswerPacket, EmulHmac, EmulMac, EmulRead, Execute, Tame, Clean, FitsRecords;
      if layer == Ni2cLayer {
        DigestsKeepMemory(bus.chip, packet);
      }
      var answer;
      status, answer := Transact(packet);
      if status != Ok {
        return;
      }
      AnswerRecovered([STATUS_SUCCES]);
      status := JustCheckStatus(answer.value);
    }

    /** The end of all calls that hand something over: decode, then let the chip idle. */
    method TakeContents(answer: Frame, before: BigInt) returns (status: Status, number: BigInt)
      requires Valid()
      modifies this`wakeIsExpected, bus
      ensures Valid()
      ensures Unpacked(answer, before, status, number)
      ensures status == Ok ==> !wakeIsExpected && number.bytes <= MAX_DATA_SIZE
      ensures status != Ok ==> wakeIsExpected == old(wakeIsExpected)
      ensures bus != null ==> bus.Now() == old(bus.Now()) && bus.pulses == old(bus.pulses)
    {
      hide Value;
      var buffer := new byte[MAX_DATA_SIZE](i requires 0 <= i < MAX_DATA_SIZE => before.data[i]);
      assert buffer[..] == before.data;
      var size := ReadLongData(answer, buffer);
      number := BigNumber(size, buffer[..]);
      if size == 0 {
        return MemoryAllocationError, number;
      }
      var idled := Idle();
      status := Ok;
    }

    method LowChallengeResponseMac(slotNumber: byte, challenge: BigInt, before: BigInt, useSn: bool)
      returns (status: Status, response: BigInt)
      requires Valid()
      modifies this`wakeIsExpected, nonce, file, bus
      ensures Valid()
      ensures status == Ok ==> !wakeIsExpected
      ensures status == Ok ==> response.bytes <= MAX_DATA_SIZE
      ensures layer == Ni2cLayer && Value(slotNumber) <= MAX_SLOT_NUMBER && challenge.bytes == 32 ==>
                WakeLaw(old(wakeIsExpected), old(bus.pulses), status, wakeIsExpected, bus.pulses)
      ensures Value(slotNumber) > MAX_SLOT_NUMBER || challenge.bytes != 32 ==>
                wakeIsExpected == old(wakeIsExpected) && (bus != null ==> bus.pulses == old(bus.pulses))
      ensures Value(slotNumber) > MAX_SLOT_NUMBER || challenge.bytes != 32 ==>
                status == InvalidInput && response == before
      ensures layer == EmulationLayer && challenge.bytes == 32 ==>
                Given(MacResponse(old(Emulated()), Value(slotNumber), challenge.data, useSn), before, status, response)
      ensures layer == EmulationLayer && Value(slotNumber) <= 15 && challenge.bytes == 32 ==>
                status in {Ok, BadCommunicationStatus}
      ensures layer == Ni2cLayer && Value(slotNumber) <= MAX_SLOT_NUMBER && challenge.bytes == 32 ==>
                Decoded(Transaction(bus.world, old(bus.Now()), old(wakeIsExpected),
                                    OpMac(slotNumber, challenge.data, useSn)),
                        before, status, response)
      ensures layer == Ni2cLayer ==> bus.chip == old(bus.chip)
      ensures layer == Ni2cLayer && Tame(bus.world) && status == Ok ==>
                && bus.chip.dataLocked
                && response == Store(before, ChipMac(bus.chip, Value(slotNumber), challenge.data, useSn))
      ensures (layer == Ni2cLayer && Tame(bus.world) && Clean(bus.world) && bus.chip.dataLocked &&
               Value(slotNumber) <= MAX_SLOT_NUMBER && challenge.bytes == 32) ==> status == Ok
    {
      hide Unpacked, Transaction, OpMac, MacResponse, ChipMac, AnswerPacket, EmulStep, Value, Accepted, Accepts;
      hide Layout, OtpPart, CommandPacket, KeyOf, FromValue, IsEmulCommand, IsCommand;
      hide Tame, Clean, FitsRecords, Execute;
      if Value(slotNumber) > MAX_SLOT_NUMBER {
        HmacOfBadSlot();
        BadSlot(Value(slotNumber), before);
        return InvalidInput, before;
      }
      if challenge.bytes != 32 {
        return InvalidInput, before;
      }
      ghost var slot := Value(slotNumber);
      ghost var e := if layer == EmulationLayer then Some(Emulated()) else None;
      ValueInjective(slotNumber, FromValue(slot));
      if layer == EmulationLayer {
        MacPacket(Emulated(), nonce[..], slot, challenge.data, useSn);
        DigestStatus(Emulated(), slot, challenge.data, useSn);
      } else {
        MacChallengeOnChip(bus.chip, slot, challenge.data, useSn);
      }
      assert challenge.data[..challenge.bytes] == challenge.data;
      DigestPackets(slotNumber, challenge.data, useSn);
      var packet := OpMac(slotNumber, challenge.data[..challenge.bytes], useSn);
      if layer == Ni2cLayer {
        DigestsKeepMemory(bus.chip, packet);
      }
      var answer;
      status, answer := Transact(packet);
      if status != Ok {
        return status, before;
      }
      status, response := TakeContents(answer.value, before);
      if layer == EmulationLayer {
        UnpackedValue(MacResponse(e.value, slot, challenge.data, useSn).value, before, status, response);
      } else if Tame(bus.world) {
        UnpackedValue(ChipMac(bus.chip, slot, challenge.data, useSn), before, status, response);
      }
    }
  }

  /** Executed once or not at all. */
  ghost predicate Ran(before: Zones, after: Zones, p: Packet)
    requires IsCommand(p)
  {
    after == before || after == Execute(before, p).0
  }

  /**
   A call and the wake flag on the bus: a set flag means that no pulse is sent, OK clears the flag, and
   a failure leaves it set, whether the chip is awake or not.
   */
  predicate WakeLaw(flag: bool, pulses: nat, status: Status, flagAfter: bool, pulsesAfter: nat) {
    && (flag ==> pulsesAfter == pulses)
    && pulses <= pulsesAfter <= pulses + 7
    && (flagAfter <==> status != Ok)
  }

  /** A whole call on any bus: the pulses, if the flag is clear, and then the exchanges. */
  function Transaction(w: World, s: Line, flag: bool, p: Packet): Outcome
    requires IsCommand(p)
  {
    var (status, tick) := if flag then (Ok, s.tick) else WakeRun(w, s.tick, EXCHANGES, Communication);
    if status != Ok then Outcome(status, None, Line(s.chip, tick))
    else CommandRun(w, Line(s.chip, tick), p, EXCHANGES, Communication)
  }

  /** The contents of an answer end up in the caller's buffer, unless there are none or more than 32 bytes. */
  predicate Unpacked(answer: Packet, before: BigInt, status: Status, number: BigInt) {
    if 4 <= |answer| <= 35 then status == Ok && number == Store(before, Payload(answer))
    else status == MemoryAllocationError && number == BigNumber(0, before.data)
  }

  lemma UnpackedValue(value: seq<byte>, before: BigInt, status: Status, number: BigInt)
    requires 0 < |value| <= 32 && Unpacked(AnswerPacket(value), before, status, number)
    ensures status == Ok && number == Store(before, value)
  {
    hide AnswerPacket, Accepted;
    AnswerRecovered(value);
  }

  lemma UnpackedSize(answer: Packet, before: BigInt, status: Status, number: BigInt)
    requires Unpacked(answer, before, status, number)
    ensures status == Ok ==> number.bytes + 3 == |answer|
  {
  }

  lemma ReadUnpacked(stored: Option<seq<byte>>, before: BigInt, status: Status, number: BigInt)
    requires stored.Some? ==> 2 <= |stored.value| <= 32
    requires Accepts(ReadAnswer(stored)) && Unpacked(ReadAnswer(stored), before, status, number)
    ensures stored.Some? && status == Ok && number == Store(before, stored.value)
  {
    hide AnswerPacket, Accepts, Unpacked;
    ReadAccepted(stored);
    UnpackedValue(stored.value, before, status, number);
  }

  /** The length of the answer to a read. */
  lemma ReadLength(stored: Option<seq<byte>>)
    requires stored.Some? ==> |stored.value| <= MAX_DATA_SIZE
    ensures |ReadAnswer(stored)| == if stored.Some? then |stored.value| + 3 else 4
  {
  }

  /** What a reading call makes of an outcome. */
  predicate Decoded(o: Outcome, before: BigInt, status: Status, number: BigInt) {
    if o.status != Ok then status == o.status && number == before
    else o.answer.Some? && Unpacked(o.answer.value, before, status, number)
  }

  /** What a writing call makes of an outcome: OK only if the chip says so. */
  function Acknowledged(o: Outcome): Status {
    if o.status != Ok then o.status
    else if o.answer.Some? && |o.answer.value| >= 3 then JustCheckStatus(o.answer.value)
    else BadCommunicationStatus
  }

  /** The two commands of a challenge on any bus, under one wake. */
  function ChallengeRun(w: World, s: Line, flag: bool, slotNumber: byte, challenge: Key, useSn: bool): Outcome {
    DigestPackets(slotNumber, challenge, useSn);
    var o := Transaction(w, s, flag, OpNonce(challenge));
    if Acknowledged(o) != Ok then Outcome(Acknowledged(o), None, o.line)
    else CommandRun(w, o.line, OpHmac(slotNumber, useSn), EXCHANGES, Communication)
  }

  /** On a tame bus: executed once or not at all; OK means once, with the chip's own answer. */
  ghost predicate SentOnce(before: Zones, after: Zones, p: Packet, status: Status, answer: Option<Packet>)
    requires IsCommand(p)
  {
    && (after == before || after == Execute(before, p).0)
    && (status == Ok ==>
          && after == Execute(before, p).0
          && answer == Some(Execute(before, p).1) && Accepts(Execute(before, p).1))
  }

  /** OK means that something is stored there and has been handed over. */
  predicate ReadOut(stored: Option<seq<byte>>, before: BigInt, status: Status, number: BigInt) {
    status == Ok ==> stored.Some? && |stored.value| <= MAX_DATA_SIZE && number == Store(before, stored.value)
  }

  /** The packet that writes a key. */
  function SlotWrite(slot: nat, number: BigInt): Packet
    requires slot <= MAX_SLOT_NUMBER && number.bytes <= MAX_DATA_SIZE
  {
    OpRawWrite(READ_SLOT, GetSlotAddress(slot), number.data[..number.bytes])
  }

  /** The packet that writes a word of configuration. */
  function ConfigWrite(address: byte, number: BigInt): Packet
    requires number.bytes <= MAX_DATA_SIZE
  {
    OpRawWrite(READ_CONFIG, address, number.data[..number.bytes])
  }

  lemma BadSlot(slot: nat, before: BigInt)
    requires slot > MAX_SLOT_NUMBER
    ensures Given(Failure(InvalidInput), before, InvalidInput, before)
    ensures forall m: Zones :: StoredSlot(m, slot) == None
  {
  }

  /** The packets of the three reads, and what the emulated chip makes of them. */
  lemma SlotReadCommand(e: Option<Emulator>, slot: nat)
    requires slot <= MAX_SLOT_NUMBER
    ensures IsLibraryCommand(OpRawRead(READ_SLOT, GetSlotAddress(slot)))
    ensures OpRawRead(READ_SLOT, GetSlotAddress(slot))[1] == OPCODE_READ
    ensures e.Some? ==> EmulRead(e.value, OpRawRead(READ_SLOT, GetSlotAddress(slot))) == Answered(KeyOf(e.value, slot))
  {
    hide CommandPacket, KeyOf, GetSlotAddress, Value, EmulRead, EmulStep, Answered, Accepted;
    AddressedCommand(OPCODE_READ, READ_SLOT, GetSlotAddress(slot), []);
    if e.Some? {
      SlotReadPacket(e.value, seq(SLOT_BYTE_LEN, _ => 0), slot);
    }
  }

  lemma OtpReadCommand(e: Option<Emulator>, word: byte)
    ensures IsLibraryCommand(OpRawRead(READ_OTP, word)) && OpRawRead(READ_OTP, word)[1] == OPCODE_READ
    ensures e.Some? ==> EmulRead(e.value, OpRawRead(READ_OTP, word)) == Answered(OtpOf(e.value, Value(word)))
  {
    hide CommandPacket, OtpOf, Value, EmulRead, EmulStep, Answered, Accepted;
    AddressedCommand(OPCODE_READ, READ_OTP, word, []);
    if e.Some? {
      OtpReadPacket(e.value, seq(SLOT_BYTE_LEN, _ => 0), word);
    }
  }

  lemma ConfigReadCommand(e: Option<Emulator>, address: byte)
    ensures IsLibraryCommand(OpRawRead(READ_CONFIG, address)) && OpRawRead(READ_CONFIG, address)[1] == OPCODE_READ
    ensures e.Some? ==> EmulRead(e.value, OpRawRead(READ_CONFIG, address)) == Answered(EmulatedConfig(e.value, address))
  {
    hide CommandPacket, Value, EmulRead, EmulatedConfig, Answered, Accepted;
    AddressedCommand(OPCODE_READ, READ_CONFIG, address, []);
    if e.Some? {
      ConfigReadPacket(e.value, address);
    }
  }

  /** The serial number of our own is what OTP words 0 and 1 hold. */
  lemma SerialWords(m: Zones)
    ensures StoredWord(m, 0).Some? == StoredWord(m, 1).Some? == m.dataLocked
    ensures m.dataLocked ==> StoredWord(m, 0).value + StoredWord(m, 1).value == m.otp[..8]
  {
  }

  /** Three groups of four, each left alone by the next. */
  lemma TailFilled(m0: seq<byte>, m1: seq<byte>, m2: seq<byte>)
    requires |m0| == |m1| == |m2| == 88 && m0[..80] == m1[..80] && m1[..84] == m2[..84]
    ensures m2[..76] == m0[..76]
    ensures m2[76..] == m0[76..80] + m1[80..84] + m2[84..88]
  {
    assert m2[..80] == m2[..84][..80] == m1[..80] == m0[..80];
    assert m2[..76] == m2[..80][..76] && m0[..76] == m0[..80][..76];
    assert m2[76..80] == m2[..80][76..] && m0[76..80] == m0[..80][76..];
    assert m2[80..84] == m2[..84][80..] && m1[80..84] == m1[..84][80..];
    assert m2[76..] == m2[76..80] + m2[80..84] + m2[84..88];
  }

  lemma ReportedFailure(code: ErrorStatus)
    ensures Reported(Failure(code), code, None)
  {
  }

  /** The image of a serial number of which only the first bytes have been read. */
  function PartialImage(taken: seq<byte>): (image: seq<byte>)
    requires |taken| <= SN_BYTE_LEN
    ensures |image| == SLOT_BYTE_LEN
  {
    if |taken| <= 4 then taken + seq(SLOT_BYTE_LEN - |taken|, _ => 0)
    else taken[..4] + seq(4, _ => 0) + taken[4..] + seq(28 - |taken|, _ => 0)
  }

  lemma ImagePositions(serial: seq<byte>)
    requires |serial| == SN_BYTE_LEN
    ensures forall j :: 0 <= j < SLOT_BYTE_LEN ==>
              SnImage(serial)[j] == if j < 4 then serial[j] else if 8 <= j < 13 then serial[j - 4] else 0
  {
    var image := SnImage(serial);
    assert forall j :: 0 <= j < 4 ==> image[j] == serial[j];
    assert forall j :: 4 <= j < 8 ==> image[j] == 0;
    assert forall j :: 8 <= j < 13 ==> image[j] == serial[4..][j - 8];
    assert forall j :: 13 <= j < SLOT_BYTE_LEN ==> image[j] == 0;
  }

  lemma ImageOfNone(zeros: seq<byte>)
    requires |zeros| == SLOT_BYTE_LEN && forall j :: 0 <= j < |zeros| ==> zeros[j] == 0
    ensures PartialImage([]) == zeros
  {
  }

  lemma ImageOfAll(taken: seq<byte>)
    requires |taken| == SN_BYTE_LEN
    ensures PartialImage(taken) == SnImage(taken)
  {
  }

  lemma ImageOneMore(taken: seq<byte>, b: byte)
    requires |taken| < SN_BYTE_LEN
    ensures PartialImage(taken + [b]) == PartialImage(taken)[if |taken| < 4 then |taken| else |taken| + 4 := b]
  {
  }

  lemma StoredWhole(before: BigInt, value: seq<byte>)
    requires |value| == MAX_DATA_SIZE
    ensures Store(before, value).bytes == MAX_DATA_SIZE && Store(before, value).data == value
    ensures Store(before, value).data[..MAX_DATA_SIZE] == value
  {
  }

  lemma {:induction false} RunAnswered(w: World, s: Line, p: Packet, left: nat, last: ErrorStatus)
    requires IsCommand(p)
    ensures var o := CommandRun(w, s, p, left, last);
            o.status == Ok ==> o.answer.Some? && WellFramed(o.answer.value)
  {
    CommandAnswerSound(w, s, p, left, last);
  }

  /** The command has been executed once or not at all, and once with success when the call reports OK. */
  ghost predicate WrittenOnce(before: Zones, after: Zones, p: Packet, status: Status)
    requires IsCommand(p)
  {
    && (after == before || after == Execute(before, p).0)
    && (status == Ok ==> after == Execute(before, p).0 && Execute(before, p).1[1] == STATUS_SUCCES)
  }

  predicate Succeeds(m: Zones, p: Packet)
    requires IsCommand(p)
  {
    Accepts(Execute(m, p).1) && JustCheckStatus(Execute(m, p).1) == Ok
  }

  /** What the emulated chip makes of a read of configuration memory: only the serial number's address is served. */
  function EmulatedConfig(e: Emulator, address: byte): (r: Result<seq<byte>>)
    ensures r.Success? ==> |r.value| == SLOT_BYTE_LEN
  {
    if address != 0 then Failure(NotImplemented)
    else
      match ChipSerialOf(e)
      case Failure(status) => Failure(status)
      case Success(sn) => Success(SnImage(sn))
  }

  lemma ConfigStatus(e: Emulator, address: byte)
    ensures address != 0x00 ==> EmulatedConfig(e, address) == Failure(NotImplemented)
    ensures address == 0x00 ==>
              EmulatedConfig(e, address).Success? || EmulatedConfig(e, address) == Failure(ConfigFileBadFormat)
  {
    hide ChipSerialOf, SnImage;
    SerialStatus(e);
  }

  lemma ConfigReadPacket(e: Emulator, address: byte)
    ensures IsEmulCommand(OpRawRead(READ_CONFIG, address))
    ensures EmulRead(e, OpRawRead(READ_CONFIG, address)) == Answered(EmulatedConfig(e, address))
  {
    hide CommandPacket, AnswerPacket, ChipSerialOf, SnImage, Value, Accepted;
    AddressedCommand(OPCODE_READ, READ_CONFIG, address, []);
    ZoneBits();
  }

  lemma LockLength(lockConfig: byte, crc: seq<byte>)
    requires |crc| == 2
    ensures |OpLock(lockConfig, crc)| == 7
  {
  }

  lemma SerialLength()
    ensures IsLibraryCommand(OpSerialNumber()) && OpSerialNumber()[1] == OPCODE_READ
  {
    hide LowByte, HighByte, CrcBytes, Accepted, FromValue, Value, CommandPacket;
    CommandFields(OPCODE_READ, READ_SERIAL, 0, []);
  }

  /** The first half of the buffer has been set, and now the second is. */
  lemma BothParts(before: BigInt, number: BigInt, first: seq<byte>, second: seq<byte>)
    requires |first| == |second| == 4 && number.data == first + before.data[4..]
    ensures BigNumber(8, number.data[..4] + second + number.data[8..]) == Store(before, first + second)
  {
  }

  lemma OtpWords()
    ensures Value(OTP_REV_NUMBER) == 0 && Value(OTP_SERIAL_NUMBER) == 1 && Value(OTP_ORIGIN_KEY_SET) == 2
  {
  }

  lemma DigestPackets(slotNumber: byte, challenge: Key, useSn: bool)
    ensures IsLibraryCommand(OpNonce(challenge)) && IsLibraryCommand(OpHmac(slotNumber, useSn))
    ensures OpNonce(challenge)[1] == OPCODE_NONCE && OpHmac(slotNumber, useSn)[1] == OPCODE_HMAC
    ensures IsLibraryCommand(OpMac(slotNumber, challenge, useSn))
    ensures OpMac(slotNumber, challenge, useSn)[1] == OPCODE_MAC
  {
    hide CommandPacket, WellFramed, Accepted, DigestMode, LowByte, HighByte;
    CommandFields(OPCODE_NONCE, 0x03, 0, challenge);
    AddressedCommand(OPCODE_HMAC, DigestMode(0x04, useSn), slotNumber, []);
    AddressedCommand(OPCODE_MAC, DigestMode(0x00, useSn), slotNumber, challenge);
  }

  /** The eight bytes at 68 are the serial number, or zeros. */
  predicate HasSerial(m: seq<byte>, useSn: bool, sn: seq<byte>)
    requires |m| == 88
  {
    && m[68] == (if useSn then ByteAt(sn, 0) else 0) && m[69] == (if useSn then ByteAt(sn, 1) else 0)
    && m[70] == (if useSn then ByteAt(sn, 2) else 0) && m[71] == (if useSn then ByteAt(sn, 3) else 0)
    && m[72] == (if useSn then ByteAt(sn, 4) else 0) && m[73] == (if useSn then ByteAt(sn, 5) else 0)
    && m[74] == (if useSn then ByteAt(sn, 6) else 0) && m[75] == (if useSn then ByteAt(sn, 7) else 0)
  }

  lemma SameSerial(m: seq<byte>, n: seq<byte>, useSn: bool, sn: seq<byte>)
    requires |m| == |n| == 88 && m[..76] == n[..76] && HasSerial(m, useSn, sn)
    ensures HasSerial(n, useSn, sn)
  {
    hide ByteAt;
    assert forall j :: 68 <= j < 76 ==> m[j] == m[..76][j] == n[..76][j] == n[j];
  }

  lemma HasSnPart(m: seq<byte>, e: Emulator, mode: byte)
    requires |m| == 88 && HasSerial(m, mode & 0x20 != 0, e.sn)
    ensures var sn := SnPart(e, mode);
            && m[68] == sn[0] && m[69] == sn[1] && m[70] == sn[2] && m[71] == sn[3]
            && m[72] == sn[4] && m[73] == sn[5] && m[74] == sn[6] && m[75] == sn[7]
  {
    hide ByteAt;
  }

  lemma HmacOfBadSlot()
    ensures forall e: Emulator, slot: nat, challenge: Key, useSn: bool :: slot > MAX_SLOT_NUMBER ==>
              HmacResponse(e, slot, challenge, useSn) == Failure(InvalidInput) &&
              MacResponse(e, slot, challenge, useSn) == Failure(InvalidInput)
  {
  }

  /** Head, serial number and tail, each left alone by the steps after it, make up the layout. */
  lemma FilledMessage(first: seq<byte>, second: seq<byte>, header: seq<byte>,
                      m0: seq<byte>, m1: seq<byte>, m: seq<byte>, e: Emulator, mode: byte)
    requires |m0| == |m1| == |m| == 88 && |first| == |second| == 32 && |header| == 4 && header[1] == mode
    requires m0[..64] == first + second && m0[64..68] == header
    requires m1[..68] == m0[..68] && HasSerial(m1, mode & 0x20 != 0, e.sn)
    requires m[..76] == m1[..76]
    requires m[76..] == [0x00, 0x00, 0x00, 0xEE] + [0x00, 0x00, 0x00, 0x00] + [0x01, 0x23, 0x00, 0x00]
    ensures m == Layout(first, second, header[0], mode, header[2], header[3], SnPart(e, mode))
  {
    hide SnPart, ByteAt;
    var sn := SnPart(e, mode);
    SameSerial(m1, m, mode & 0x20 != 0, e.sn);
    HasSnPart(m, e, mode);
    hide HasSerial;
    assert m[..68] == m[..76][..68] == m1[..76][..68] == m1[..68];
    assert m[..64] == m[..68][..64] == m0[..68][..64] == m0[..64];
    assert m[64..68] == m[..68][64..] == m0[..68][64..] == m0[64..68];
    assert header == [header[0], mode, header[2], header[3]];
    assert m[68..76] == sn;
    assert m == m[..64] + m[64..68] + m[68..76] + m[76..];
  }
}
