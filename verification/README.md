# libatsha204 in Dafny

libatsha204 talks to an ATSHA204 authentication chip over I2C and also emulates
the chip in software. This project models the library's layers and proves what
its packets, its retry loops, its emulation and its provisioning tool guarantee.
`dafny verify dfyconfig.toml` checks everything.

## How the model is built

- `Bits`, `Gf2`, `XOrder`, `CrcCode`, `PolyDivision`: bytes are bit vectors, a
  buffer is fed to the checksum least significant bit first, and the checksum
  register is a polynomial modulo G = x^16 + x^15 + x^2 + 1. The algebra is
  stated on bit strings; `Checksum` connects it to the loop on 16-bit words.
- `Packets`, `Bursts`, `CountByte`, `Protocol`, `Operations`: framing, checksum bytes,
  what the check detects and what it does not, command builders and answer decoders.
  The packet generators and `read_long_data` fill buffers as the source does.
- `HexLine`, `TextFile`, `FileFormat`: the hex-line parser, a file with a cursor,
  `rewind` and `fgets`, and whole chip files as they are written and read back.
- `Digests`, `Chip`, `ChipLaws`: the 88-byte message, and the abstract chip: three
  zones, two locks, TempKey, and the digests it gives under keys that stay inside.
- `Bus`, `Noise`: a bus that may do anything the type of its replies allows, and the
  assumptions some theorems make about it. A bus is *tame* when no wrong reply would
  be accepted as an answer; everything else may happen on it, and a command may or
  may not have reached the chip. `Noise.NoisyIsTame` shows that a bus is tame when
  answers are damaged outside the count byte by up to three changed bits, any odd
  number of them, or a burst of sixteen bits in a window that is not blind. A bus is *clean* when nothing goes
  wrong. `Noise.CleanBusExists` shows that all of this goes together.
- `Emulation`, `EmulationLaws`: the emulated chip as a function of its data,
  TempKey and a packet, and the plain meaning of each call.
- `Device`: `class Handle`, with the mutable wake flag, TempKey buffer, serial
  number and key origin. Its methods are the retry loops, the emulated commands
  (which call back into the API on the same handle) and the calls of `api.c`.
- `WireFormat`: packets, digested messages and statuses written out in bytes.
- `Api`, `KeyOrigin`: opening handles, slot selection, sequences of calls, and the
  agreement of the two backings.
- `Provisioning`: `chiptools/init.c` against the abstract chip, and the agreement of
  a provisioned chip with the emulator opened on the same file.
- `Atsha204Cmd`: reading a challenge and enumerating MAC addresses.

Assumptions made throughout: memory allocation succeeds, `USE_OUR_SN` is true
(`src/libatsha204/configuration.h:35`), a buffer handed over by the I2C layer is
as long as its count byte says and that count is at least 3, command data is at
most 248 bytes and answer data at most 252. HMAC and SHA-256 are arbitrary
functions that may also fail.

Where the code differs from what is said about it, the model follows the code:

- `uint32_from_4_bytes` is announced as the 32-bit integer stored in four bytes
  (`src/libatsha204/tools.h`), but its shifts add up: byte 0 is lost and byte 1
  lands on top. `KeyOrigin.FoldIsBigEndian` says exactly when this is the
  big-endian value, and `Api.SlotSelection` why slot selection does not notice.
- `wake` sets the wake flag even when no pulse was confirmed, so no later call sends a
  pulse until one succeeds (`Device.Handle.Wake`, `Api.RunOnBus`).
- `check_packet` looks at the bytes that the count byte announces. Damage to the count
  byte itself can pass; `CountByte.CountByteExposed` says for which lengths.
- `idle` never decrements its counter: it repeats until the lower layer reports
  success and cannot report a failure (`Device.Handle.Idle`). The I2C layer of
  the library always reports success, that is, its fault count is 0.
- A slot computed as 255 is taken for a failed lookup (`Api.ChallengeResponse`).
- The guard of the MAC enumeration refuses one range that would just fit
  (`Atsha204Cmd.EnumerateMacs`).
- The checksum is sent low byte first, so a packet is not a codeword in the order of
  its bits. Bursts of sixteen bits are noticed within the contents and within the
  checksum, but some across the border between the two are not;
  `Bursts.BlindWindows` says exactly where.
- The line parsers fail when nothing follows the last pair, not even a newline
  (`HexLine.RoundTrip`).

## Model

| member | source | states |
|---|---|---|
| Checksum.CalculateCrc | src/libatsha204/tools.c:127-145 | the two nested loops on a 16-bit register leave in the buffer, low byte first, the checksum that the bit-string algebra defines |
| Checksum.WordStep | src/libatsha204/tools.c:136-140 | one turn of the inner loop on machine words is one polynomial division step |
| Checksum.CheckCrc | src/libatsha204/tools.c:116-125 | true if and only if the two bytes are the checksum of the buffer |
| Gf2.CrcLinear | src/libatsha204/tools.c:127-145 | the checksum of the xor of two equally long inputs is the xor of their checksums |
| Gf2.CrcIsResidue | src/libatsha204/tools.c:127-145 | the loop computes M(x) x^16 mod G: the sum of the powers of x contributed by the set bits |
| Gf2.CrcParity | src/libatsha204/tools.c:134-142 | the register has an odd number of set bits exactly when start value and data together have |
| XOrder.PowersEqual | src/libatsha204/tools.c:28 | x^a = x^b mod G exactly when a and b differ by a multiple of 32767 |
| PolyDivision.Division | src/libatsha204/tools.c:127-145 | M(x) x^16 = Q(x) G(x) + checksum, with the quotient read off the loop |
| PolyDivision.RemainderUnique | src/libatsha204/tools.c:127-145 | quotient and remainder are the only ones, so the checksum is the mathematical remainder |
| Bursts.BufferBurst | src/libatsha204/tools.c:134-142 | two buffers of one length that differ, but only within sixteen consecutive bits, have different checksum bytes |
| Bursts.PacketBurst | src/libatsha204/tools.c:52-65 | a burst within a window of at most sixteen bits that spares the count byte makes the check fail, unless the window reaches two bits before and four bits behind the border between contents and checksum |
| Bursts.BlindWindows | src/libatsha204/tools.c:143-144 | exactly these windows are blind: in every accepted packet with data a window of at most sixteen bits hides some change outside the count byte from the check if and only if it is one of them |
| CountByte.CountByteExposed | src/libatsha204/tools.c:52-65 | the count byte itself is not protected: some good packet of c bytes passes the check when its count byte arrives as d, for every d from 3 to c except 3 for 4, and for no other d that stays inside the packet |
| Packets.OddDistanceDetected | src/libatsha204/tools.c:52-65 | an odd number of changed bits makes the check fail wherever they lie outside the count byte |
| Packets.BufferTwoBits | src/libatsha204/tools.c:127-145 | two buffers that differ in exactly two bits have the same checksum bytes if and only if the bits are a multiple of 32767 positions apart |
| CrcCode.CodewordWeight | src/libatsha204/tools.c:127-145 | a nonzero string of at most 32767 bits that leaves the register clear has at least four set bits |
| CrcCode.MinimumDistance | src/libatsha204/tools.c:127-145 | two different codewords of one length, up to 32767 bits, differ in at least four places |
| Packets.CheckPacket | src/libatsha204/tools.c:52-65 | accepts exactly the buffers in which the last two of the bytes announced by the count byte are the checksum of the others; bytes behind them do not matter |
| Packets.GenerateCommandPacket | src/libatsha204/tools.c:67-93 | the filled buffer is the specified command packet |
| Packets.GenerateAnswerPacket | src/libatsha204/tools.c:95-114 | the filled buffer is the specified answer packet |
| Packets.GeneratedAccepted | src/libatsha204/tools.c:52-114 | every generated packet is well framed and passes the check |
| Packets.AcceptedIsCodeword | src/libatsha204/tools.c:52-65 | a packet passes the check exactly when its contents followed by the checksum, highest coefficient first, clear the register |
| Packets.PacketMinimumDistance | src/libatsha204/tools.c:52-145 | two different accepted packets of one length differ in at least four bits, split in any way between contents and checksum |
| Packets.FlipsDetected | src/libatsha204/tools.c:52-145 | one to three flipped bits outside the count byte make the check fail |
| Packets.FourFlipsUndetected | src/libatsha204/tools.c:52-145 | three changed bits are the most: every accepted packet with data has an accepted neighbour at distance four, all within six consecutive bits |
| Packets.AcceptedSum | src/libatsha204/tools.c:52-65 | the xor of two accepted byte strings of one length passes the checksum test again |
| Packets.ImageErrorsDetected | src/libatsha204/tools.c:127-145 | one to three changed bits in an image of up to 4095 bytes change its checksum |
| Operations.CommandFields | src/libatsha204/tools.c:82-90 | a command packet decodes at the receiver's positions to its opcode, param1, little-endian param2 and data |
| Operations.SlotAddress | src/libatsha204/operations.c:34-37 | the address table is eight times the slot number |
| Operations.LockFields | src/libatsha204/operations.c:187-193 | the checksum reaches the lock packet in the order crc[0], crc[1] |
| Operations.ReadLongData | src/libatsha204/operations.c:40-50 | copies the contents of the answer and leaves the rest of the buffer; longer than 32 bytes gives 0 and an untouched buffer |
| Operations.AnswerRecovered | src/libatsha204/tools.c:95-114 | the contents of a generated answer are the data it was made from |
| Operations.OpSerialNumberRecv | src/libatsha204/operations.c:171-185 | gathers bytes 0-3 and 8-12 into nine bytes and leaves the rest of the buffer |
| EmulationLaws.SpreadAndGather | src/libatsha204/operations.c:171-185 | the hole is undone: the receiver gathers the nine bytes that were spread around it |
| HexLine.ReadBytes | src/libatsha204/emulation.c:372-389 | the delimiter-skipping loop terminates and computes the parser function; it fails exactly when that does and writes only its own part of the buffer |
| HexLine.RoundTrip | src/libatsha204/emulation.c:427-440 | hex pairs, with any runs of blanks, tabs, semicolons, commas and colons before each, parse to their values if and only if something follows the last pair |
| FileFormat.RowReadsBack | src/libatsha204/emulation.c:372-389 | bytes written with any delimiters on a line of at most 127 characters are one line for fgets and parse back to themselves |
| FileFormat.FileRoundTrip | src/libatsha204/emulation.c:355-444 | a file of sixteen keys, sixteen OTP words and a serial number, written so, opens, can be provisioned from, and gives every one of them back, whatever follows |
| FileFormat.AnyContentsWritable | src/chiptools/init.c:42-70 | every contents of a chip can be written to such a file |
| HexLine.HexNumberOfPair | src/libatsha204/tools.c:34-39 | two hex digits are read as the number they spell |
| HexLine.DigitMeaning | src/libatsha204/tools.c:34-39 | the hex digits of both cases and what they count |
| HexLine.HexNumberOfOthers | src/libatsha204/tools.c:34-39 | what pairs count in which one character or both are no digits: spaces and a plus sign are skipped, a minus sign negates modulo 256, anything else ends the number |
| HexLine.StrlenMeaning | src/libatsha204/emulation.c:327 | a line ends at its first terminator |
| HexLine.WrittenValues | src/libatsha204/emulation.c:376-383 | every buffer, written in hex with any delimiters, has digits that read back as itself |
| HexLine.ParsedShape | src/libatsha204/emulation.c:376-389 | whatever parses consists of gaps of these five characters, pairs that begin with none of them, and a nonempty tail, and the bytes are the values of the pairs |
| TextFile.File.Fgets | src/libatsha204/emulation.c:358-370 | returns the rest of the file up to a newline or 127 characters, NULL only at the end, and moves the cursor behind it |
| TextFile.LineLengthMeaning | src/libatsha204/emulation.c:358-370 | the cut is behind the first newline, at the end of the file, or at 127 characters |
| TextFile.FirstLengthMeaning | src/libatsha204/emulation.c:358-370 | the limit is 127 characters |
| TextFile.JoinedLine | src/libatsha204/emulation.c:355-370 | lines that fit the buffer come back from a file one by one |
| TextFile.File.SkipLines | src/libatsha204/emulation.c:356-364 | rewinds wherever the cursor was and stands after that many lines, or no later line exists |
| Bus.CommandChooses | src/libatsha204/communication.c:111-172 | the loop takes the first reply that is not sent back for another try, gives up at a well-formed WAKE_OK status, and exchanges nothing beyond it |
| Bus.JudgeMeaning | src/libatsha204/communication.c:127-165 | a reply passes when its checksum is good and it is no four-byte packet with status 0x03, 0x0F, 0xFF or 0x11; 0x11 ends the loop; which status every other reply leaves |
| Bus.CommandAnswerSound | src/libatsha204/communication.c:127-165 | an OK answer is well framed, passes the check and is no four-byte packet with one of these four statuses; a failure has no answer |
| Bus.CommandCount | src/libatsha204/communication.c:115-168 | a run makes all the exchanges it may, unless an answer is accepted or a WAKE_OK status ends it |
| Bus.WakeConfirmed | src/libatsha204/communication.c:50-79 | wake succeeds exactly when one of its pulses is confirmed by status 0x11 and stops at the first such; a failure has the status of the last pulse |
| Device.Handle.Wake | src/libatsha204/communication.c:41-85 | at most seven pulses, all seven when it fails, none when the flag is set; the flag is set afterwards even on failure |
| Api.RunOnBus | src/libatsha204/communication.c:41-109 | over any run of calls on the bus, whatever it does: once a call has failed behind its argument checks, even because the chip never woke up, no pulse is sent until some call succeeds; a call sends at most seven |
| Device.Handle.Idle | src/libatsha204/communication.c:87-109 | ends when the lower layer reports success, with the flag cleared |
| Device.Handle.Command | src/libatsha204/communication.c:111-172 | on the bus it is the run of at most seven exchanges, all seven when it fails other than with a bad status; on the emulated chip one step of it |
| Noise.DisturbanceNoticed | src/libatsha204/tools.c:52-65 | up to three changed bits, any odd number of them, or a burst of sixteen outside the blind windows never pass, as long as the count byte is intact |
| Noise.NoisyIsTame | src/libatsha204/communication.c:127-136 | on a bus with such damage no wrong reply is ever accepted |
| Noise.CommandGenuine | src/libatsha204/communication.c:111-172 | integrity of a run for any command and any chip: if each exchange fails or delivers its genuine answer so damaged, OK means the genuine answer of the deciding exchange |
| Noise.AcceptedIsGenuine | src/libatsha204/communication.c:127-136 | on a tame bus an accepted reply is the chip's answer to a command it has executed |
| Noise.CommandSettles | src/libatsha204/communication.c:115-168 | a command repeated by the retry loop changes nothing more, and is answered alike or turned down, for reads, writes, locks, nonces and digests, even if a digest uses TempKey up |
| Noise.CommandOnce | src/libatsha204/communication.c:111-172 | a whole run on a tame bus: OK means the chip's own answer and the effect of exactly one execution, otherwise none or one |
| Noise.CommandEffect | src/libatsha204/communication.c:111-172 | on any bus at all, a whole run has the effect of one execution of the command or of none |
| ChipLaws.ChallengeOnChip | src/libatsha204/api.c:510-549 | nonce packet then HMAC packet make the chip give HMAC of the layout under the key of the slot, exactly when its data zones are locked |
| Device.Handle.ReadSerial | src/libatsha204/emulation.c:321-343 | the two-counter loop terminates and places the nine parsed bytes around the hole |
| Device.Handle.FillMessage | src/libatsha204/emulation.c:71-136 | the position-by-position assignments build the 88-byte layout |
| Device.Handle.EmulHmacCommand | src/libatsha204/emulation.c:52-157 | HMAC of the layout with TempKey, under the key read by re-entering the API; TempKey survives the re-entrant read |
| Device.Handle.EmulMacCommand | src/libatsha204/emulation.c:159-262 | SHA-256 of the layout with key and challenge, key read by re-entering the API |
| Device.Handle.EmulReadCommand | src/libatsha204/emulation.c:281-451 | reads serial number, key or OTP word from either backing, with the status of every failing branch |
| Device.Handle.EmulCommand | src/libatsha204/emulation.c:453-485 | dispatches on the opcode and reports answer, status and TempKey of the specified step |
| EmulationLaws.SlotReadPacket | src/libatsha204/emulation.c:349-393 | the packet of a slot read is answered with line number slot of the file, or the server's key |
| EmulationLaws.OtpReadPacket | src/libatsha204/emulation.c:395-444 | the packet of an OTP read is answered with line 16 + word |
| EmulationLaws.SerialPacket | src/libatsha204/emulation.c:288-347 | the packet of a serial number read is answered so that gathering gives the nine bytes of line 32 |
| EmulationLaws.HmacPackets | src/libatsha204/api.c:510-549 | nonce packet then HMAC packet give the specified response whatever TempKey held before |
| EmulationLaws.DigestModes | src/libatsha204/operations.c:133-161 | the mode bytes are 0x04, 0x24, 0x00 and 0x20, and the bit the emulator tests is set exactly when the serial number is asked for |
| EmulationLaws.MacPacket | src/libatsha204/api.c:589-606 | the MAC packet gives the specified response and leaves TempKey alone |
| WireFormat.ReadPackets | src/libatsha204/operations.c:108-110 | the bytes of every read packet: opcode 0x02, zone 0x82, 0x01, 0x00 or 0x80, address |
| WireFormat.WritePackets | src/libatsha204/operations.c:116-118 | the bytes of every write packet: opcode 0x12, zone 0x82, 0x00 or 0x81, address, data |
| WireFormat.LockPackets | src/libatsha204/operations.c:187-193 | the bytes of the lock packets: opcode 0x17, zone 0x00 or 0x01, checksum |
| WireFormat.DigestPacketBytes | src/libatsha204/operations.c:124-161 | the bytes of the nonce, HMAC and MAC packets: opcodes 0x16, 0x11 and 0x08, their modes, slot, challenge |
| WireFormat.HmacMessage | src/libatsha204/emulation.c:71-156 | byte by byte, what a response of the emulated chip is the HMAC of, and under which key |
| WireFormat.MacMessage | src/libatsha204/emulation.c:177-262 | byte by byte, what a MAC of the emulated chip is the SHA-256 of |
| WireFormat.ChipMessages | src/hmactest/main.c:37-68 | the same for the digests of the chip on the bus |
| WireFormat.FixedAnswers | src/libatsha204/emulation.c:453-485 | the answers to nonce and random commands, and NotImplemented for commands the emulated chip does not know |
| WireFormat.ReadZones | src/libatsha204/emulation.c:285-449 | which zone of a read packet selects serial number, key and OTP word, and NotImplemented for the rest |
| EmulationLaws.OtpStatus | src/libatsha204/emulation.c:395-440 | NotImplemented on a server handle, ConfigFileBadFormat where a file has no such word |
| EmulationLaws.DigestStatus | src/libatsha204/emulation.c:138-151 | a digest that cannot be made gives BadCommunicationStatus |
| Api.BackingsAgree | src/libatsha204/api.c:208-291 | a server handle opened with the key and serial number that a file handle reads out answers every sequence of HMAC and MAC calls for that slot as the file handle does, and so it answers challenges that select the slot themselves; it can be opened exactly when the file opens and has that key |
| EmulationLaws.ServerAgreesWithFile | src/libatsha204/emulation.c:52-262 | the digests of the emulated chip depend on the backing only through key and serial number |
| Device.Handle.TakeContents | src/libatsha204/api.c:417-428 | what every reading and digesting call does with its answer: contents of 1 to 32 bytes go to the caller, the rest of the buffer stays, then the chip idles; anything else reads as a failed allocation |
| WireFormat.Contents | src/libatsha204/api.c:417-422 | the same, byte by byte |
| Device.Handle.RawSlotRead | src/libatsha204/api.c:394-435 | key of the slot on the emulated chip, InvalidInput exactly above 15, the key handed over on a server handle, ConfigFileBadFormat where a file has none; on any bus what pulses and exchanges deliver, on a tame bus OK means the slot's own bytes and that it is not secret; wake flag clear after OK |
| Device.Handle.RawOtpRead | src/libatsha204/api.c:771-807 | OTP word on the emulated chip, ConfigFileBadFormat where a file has none, NotImplemented on a server handle; on a tame bus OK means the word stored on a locked chip |
| Device.Handle.RawConfRead | src/libatsha204/api.c:697-733 | on a tame bus OK means the word of configuration memory; on the emulated chip only the serial number's address is served |
| Device.Handle.RawConfWrite | src/libatsha204/api.c:735-769 | on any bus the status that pulses, exchanges and the chip's answer give; on a tame bus the write is executed once or not at all, and with success when OK; NotImplemented on the emulated chip |
| Device.Handle.ChipSerialNumber | src/libatsha204/api.c:620-656 | exactly the nine bytes of the serial number line of a file; on a tame bus OK means bytes 0-3 and 8-12 of the configuration |
| Device.Handle.SerialNumber | src/libatsha204/api.c:658-678 | OTP words 0 and 1, put together, on the emulated chip and on a tame bus |
| Device.Handle.LowChallengeResponse | src/libatsha204/api.c:492-561 | on an emulated chip HMAC of key and layout for the challenge, mode, slot and optional OTP[0..7], with every error status; on any bus one wake, a nonce and an HMAC command and what they deliver; on a tame bus OK means that digest under the chip's own key, and nothing but TempKey has changed |
| Device.Handle.LowChallengeResponseMac | src/libatsha204/api.c:570-618 | SHA-256 of the layout that starts with the key, on an emulated chip and, when OK, on a tame bus |
| Api.OpenEmulation | src/libatsha204/api.c:208-257 | opens exactly the files whose OTP words 0 to 2 can be read, caches serial number and key origin, and holds nothing but the file |
| Api.OpenServerEmulation | src/libatsha204/api.c:259-291 | the handle stands for the given key, slot and the first eight bytes of the serial number, and holds neither file nor bus |
| Api.PerformAll | src/libatsha204/api.c:394-807 | history independence: in any sequence of reads, digests of challenges of any length, slot selections, writes and locks each result is a function of backing data and arguments; the wake flag is clear after an OK call |
| KeyOrigin.Uint32From4Bytes | src/libatsha204/tools.c:41-50 | the cumulative shifts give byte1 2^24 + byte2 2^8 + byte3 |
| KeyOrigin.FoldIsBigEndian | src/libatsha204/tools.c:41-50 | this is the big-endian value exactly when the first two bytes are zero |
| KeyOrigin.NumberFromString | src/libatsha204/dnsmagic.c:50-61 | the loop accumulates modulo 2^32 for any characters |
| KeyOrigin.AccumulatedDecimal | src/libatsha204/dnsmagic.c:50-61 | digits accumulate to the decimal value modulo 2^32 |
| KeyOrigin.AccumulatedWeighted | src/libatsha204/dnsmagic.c:50-61 | for any characters the loop computes their weighted sum modulo 2^32 |
| Api.FindSlotNumber | src/libatsha204/dnsmagic.c:114-137 | the slot a server handle was opened for; otherwise the slot from record and key origin, cached or read; 255 when either is missing; a cached origin stays as it is, and on a tame bus it is that of OTP word 2 |
| Api.SlotSelection | src/libatsha204/dnsmagic.c:99-137 | for a decimal record the slot is record minus big-endian origin modulo 256, despite 32-bit wrap and fold |
| Api.ChipSlotSelection | src/libatsha204/dnsmagic.c:99-137 | the same on the bus, with the origin in OTP word 2 of the chip |
| Api.ChallengeResponse | src/libatsha204/api.c:485-490 | the HMAC response for the selected slot, DnsGetKey when the slot number is 255, InvalidInput for another length than 32; on a tame bus OK means the chip's digest for the slot that record and OTP word 2 select |
| Api.SelectionStatus | src/libatsha204/api.c:485-490 | what each branch of slot selection gives: the server's slot, 255 without record or OTP word 2, DnsGetKey for 255, InvalidInput above 15 or for another length than 32, otherwise the HMAC response with the serial number |
| Api.ChallengeAll | src/libatsha204/api.c:485-490 | the same for every call of a sequence on one handle over a tame bus, whether the origin is read or cached |
| Provisioning.ReadConfig | src/chiptools/init.c:42-70 | fills the flat buffer with the bytes of sixteen consecutive lines, or fails exactly when one is missing or short |
| Provisioning.TableRow | src/chiptools/init.c:45-66 | row i of the buffer is what line i parses to |
| Provisioning.SetOtpMode | src/chiptools/init.c:72-83 | on any bus nothing but configuration bytes changes; on a tame bus success means that chip and copy both have the OTP mode byte set, change in nothing else and stay equal |
| Provisioning.SetSlotConfig | src/chiptools/init.c:85-103 | the same for the eight slot words |
| Provisioning.CreateAndLockConfig | src/chiptools/init.c:105-125 | the copy equals the chip's zone at the lock; on a tame bus the lock, if it closes, noticed or not, closes over the personalised configuration |
| Provisioning.WriteAndLockData | src/chiptools/init.c:127-157 | on any bus the lock closes only over zones with the checksum of the given bytes; on a tame bus data and OTP zones hold the given bytes when it closes, across the 32-byte OTP blocks |
| Provisioning.Init | src/chiptools/init.c:159-201 | on a tame bus success means locked zones with exactly the file's bytes, and any closed lock has the right contents; on any bus a closed data lock has contents with the file's checksum; on a clean bus success if and only if the file is well formed and both locks were open |
| Provisioning.ChipLock | src/chiptools/init.c:121-122 | a lock command succeeds exactly when the checksum sent is that of the zone as it stands |
| Provisioning.MiswrittenZoneRefused | src/chiptools/init.c:147-154 | a zone that differs from the library's image in one to three bits does not lock |
| Provisioning.EmulatorMatchesChip | src/libatsha204/emulation.c:355-444 | the emulator opened on the file a chip was provisioned from has the chip's keys and OTP words |
| Provisioning.DigestsMatchChip | src/libatsha204/emulation.c:52-262 | that emulator answers every challenge with the chip's own digest, HMAC and MAC, for every slot |
| Provisioning.ChipAndEmulator | src/libatsha204/api.c:492-561 | a challenge put to both, the chip over a tame bus: the emulator always answers, and an answer from the chip is the same |
| Provisioning.KeysStayInside | src/chiptools/init.c:85-103 | a provisioned chip has no slot that a read would show |
| Provisioning.ReadsAgree | src/libatsha204/emulation.c:395-444 | provisioned chip and emulator read out the same OTP words |
| Atsha204Cmd.GetChallengeFromInput | src/atsha204cmd/main.c:71-89 | the challenge parser is the same function of the line as the other parsers, for 32 bytes |
| Atsha204Cmd.EnumerateMacs | src/atsha204cmd/main.c:247-296 | exactly n addresses, the first made of prefix and stored number, each next one its big-endian successor with the prefix unchanged, no carry out of 24 bits, exactly for the ranges the guard lets pass |
| Atsha204Cmd.CounterReaches | src/atsha204cmd/main.c:287 | the loop over a plain char ends exactly when char is unsigned or n is at most 127 |

## Left out

- The chip itself: src/libatsha204 does not contain it. `Chip` is an assumption: configuration readable at any time and writable until locked, data and OTP writable between the two locks and OTP readable after them, a slot readable unless the top bit of its configuration (SLOT_CONFIG_READ, src/chiptools/init.c:39) closes it, a lock that closes only on a matching checksum, and digests once the data zones are locked. Whether TempKey outlives the HMAC command is left open; other modes than the library sends are answered with an error.
- RANDOM: the abstract chip does not draw random numbers; `Noise.CommandGenuine` covers the exchange, whatever is drawn.
- Provisioning.Init: requires that no accepted reply is longer than a configuration word or than the answer it stands for, because create_and_lock_config copies it into a buffer of 88 bytes whatever its length; the same holds for CreateAndLockConfig.
- RunOnBus: takes the calls that wake the chip at most once; atsha_serial_number and atsha_challenge_response are made of several of these.
- ChipSerialNumber: on a server handle the ninth byte lies behind the eight bytes the handle holds; it reads as 0 in the model.
- FindSlotNumber: takes the TXT record as an argument of any length; the length byte of the record is not modelled, and records are of at most 127 characters where char is signed.
- EnumerateMacs: counts above 127 are required to meet an unsigned char, because the loop does not end otherwise.
- ReadBytes: the character behind the terminator of a line, which the source may read before it fails, reads as a terminator; the value is discarded in both.
- CheckPacket: count bytes 0 and 1, and counts beyond the buffer, make the source read outside it; these are not modelled.
- The read, write and lock calls of api.c repeat one another; their common part is written once, in `ReadCall`, `WriteCall` and `Lock`.
- Out-parameters of type atsha_big_int are values passed in and handed back, not shared buffers.
- I2C system calls, sleeps and wake timing: replaced by the bus.
- Lock file, alarms and signal handlers: operating-system behaviour.
- Internals of HMAC and SHA-256, and DNS resolution: foreign calls.
- Allocation failures and freeing of memory.
- Branches for USE_OUR_SN false.
- atsha_random, atsha_dev_rev, atsha_change_address, atsha_raw_otp_write and the automatic variants of slot read, slot write and MAC: they would only add members like those present.
- Command-line parsing, dumping and printing, Python bindings, example and hardware test programs.
