/** The packet layer of tools.c: a count byte, contents, and a two-byte checksum. */
module Packets {
  import opened Bits
  import opened Gf2
  import opened CrcCode
  import opened XOrder
  import opened Checksum

  type Packet = seq<byte>

  /** The count byte tells the length of the whole packet. */
  predicate WellFramed(p: Packet) {
    3 <= |p| < 0x100 && Value(p[0]) == |p|
  }

  /** A buffer as long as its count byte says: what ni2c_read hands over. */
  type Frame = p: Packet | WellFramed(p) witness [3, 0, 0]

  /** The last two bytes are the checksum of everything before them. */
  predicate Accepted(p: Packet)
    requires |p| >= 2
  {
    p[|p| - 2..] == CrcBytes(p[..|p| - 2])
  }

  function Sealed(body: seq<byte>): (p: Packet)
    ensures |p| == |body| + 2
  {
    body + CrcBytes(body)
  }

  function LowByte(w: bv16): byte {
    (w & 0x00FF) as byte
  }

  function HighByte(w: bv16): byte {
    ((w & 0xFF00) >> 8) as byte
  }

  function CommandBody(opcode: byte, param1: byte, param2: bv16, data: seq<byte>): (body: seq<byte>)
    requires |data| <= 248
    ensures |body| == |data| + 5
  {
    [FromValue(|data| + 7), opcode, param1, LowByte(param2), HighByte(param2)] + data
  }

  function CommandPacket(opcode: byte, param1: byte, param2: bv16, data: seq<byte>): (p: Packet)
    requires |data| <= 248
    ensures |p| == |data| + 7
  {
    Sealed(CommandBody(opcode, param1, param2, data))
  }

  function AnswerPacket(data: seq<byte>): (p: Packet)
    requires |data| <= 252
    ensures |p| == |data| + 3 && WellFramed(p)
  {
    Sealed([FromValue(|data| + 3)] + data)
  }

  /** What check_packet accepts: of the bytes the count byte announces, the last two are the checksum of the others. */
  predicate Passes(buffer: seq<byte>) {
    && buffer != []
    && 2 <= Value(buffer[0]) <= |buffer|
    && Accepted(buffer[..Value(buffer[0])])
  }

  /** check_packet: only the announced bytes matter; the buffer may be longer. */
  method CheckPacket(packet: seq<byte>) returns (ok: bool)
    requires packet != [] && 2 <= Value(packet[0]) <= |packet|
    ensures ok <==> Passes(packet)
  {
    hide CrcBytes, Value;
    var packetSize := Value(packet[0]);
    var crc := [packet[packetSize - 2], packet[packetSize - 1]];
    ghost var announced := packet[..packetSize];
    assert crc == announced[packetSize - 2..];
    assert announced[..packetSize - 2] == packet[..packetSize - 2];
    ok := CheckCrc(packetSize - 2, packet, crc);
  }

  /** On a buffer of the announced length the check is the checksum test of the whole. */
  lemma FramePasses(p: Packet)
    requires WellFramed(p)
    ensures Passes(p) <==> Accepted(p)
  {
    hide Accepted, Value;
    assert p[..|p|] == p;
  }

  method GenerateCommandPacket(opcode: byte, param1: byte, param2: bv16, data: seq<byte>) returns (packet: array<byte>)
    requires |data| <= 248
    ensures fresh(packet)
    ensures packet[..] == CommandPacket(opcode, param1, param2, data)
  {
    hide CrcBytes, FromValue, LowByte, HighByte, Value;
    var dataCount := |data|;
    var packetSize := 1 + 1 + 1 + 2 + dataCount + 2;
    packet := new byte[packetSize](_ => 0);
    packet[0] := FromValue(packetSize);
    packet[1] := opcode;
    packet[2] := param1;
    packet[3] := LowByte(param2);
    packet[4] := HighByte(param2);
    ghost var header := [FromValue(packetSize), opcode, param1, LowByte(param2), HighByte(param2)];
    assert packet[..5] == header;
    CopyData(packet, 5, data);
    assert packet[..packetSize - 2] == header + data;
    AppendCrc(packet);
  }

  /** The memcpy of both generators. */
  method CopyData(packet: array<byte>, at: nat, data: seq<byte>)
    requires at + |data| <= packet.Length
    modifies packet
    ensures packet[..at + |data|] == old(packet[..at]) + data
  {
    forall i | 0 <= i < |data| {
      packet[at + i] := data[i];
    }
  }

  /** The end of both generators: the checksum of everything before its slot is put there. */
  method AppendCrc(packet: array<byte>)
    requires 2 <= packet.Length < 0x100
    modifies packet
    ensures packet[..] == Sealed(old(packet[..packet.Length - 2]))
  {
    hide CrcBytes;
    var length := packet.Length - 2;
    ghost var body := packet[..length];
    var crc := new byte[2];
    CalculateCrc(length, packet[..], crc);
    assert packet[..][..length] == body;
    packet[length] := crc[0];
    packet[length + 1] := crc[1];
    assert packet[..] == body + crc[..];
  }

  method GenerateAnswerPacket(data: seq<byte>) returns (packet: array<byte>)
    requires |data| <= 252
    ensures fresh(packet)
    ensures packet[..] == AnswerPacket(data)
  {
    hide CrcBytes, FromValue, Value;
    var dataCount := |data|;
    var packetSize := 1 + dataCount + 2;
    packet := new byte[packetSize](_ => 0);
    packet[0] := FromValue(packetSize);
    assert packet[..1] == [FromValue(packetSize)];
    CopyData(packet, 1, data);
    AppendCrc(packet);
  }

  lemma SealedAccepted(body: seq<byte>)
    ensures Accepted(Sealed(body))
  {
    hide CrcBytes;
    var p := Sealed(body);
    assert p[..|p| - 2] == body;
  }

  /** Every generated packet is well framed and passes the check. */
  lemma GeneratedAccepted(opcode: byte, param1: byte, param2: bv16, data: seq<byte>)
    requires |data| <= 248
    ensures WellFramed(CommandPacket(opcode, param1, param2, data))
    ensures Accepted(CommandPacket(opcode, param1, param2, data))
    ensures WellFramed(AnswerPacket(data)) && Accepted(AnswerPacket(data))
  {
    hide CrcBytes, FromValue, LowByte, HighByte, Accepted;
    SealedAccepted(CommandBody(opcode, param1, param2, data));
    SealedAccepted([FromValue(|data| + 3)] + data);
  }

  // ---- Error detection ----

  function Reverse(s: seq<bool>): (r: seq<bool>)
    ensures |r| == |s|
    ensures forall i :: 0 <= i < |s| ==> r[i] == s[|s| - 1 - i]
  {
    seq(|s|, i requires 0 <= i < |s| => s[|s| - 1 - i])
  }

  lemma {:induction false} WeightReverse(s: seq<bool>)
    ensures Weight(Reverse(s)) == Weight(s)
  {
    if s != [] {
      assert Reverse(s) == Reverse(s[1..]) + [s[0]];
      WeightAppend(Reverse(s[1..]), [s[0]]);
      WeightReverse(s[1..]);
      assert [s[0]][1..] == [];
    }
  }

  /** The packet as a codeword: the contents in feed order, then the checksum with its highest coefficient first. */
  function CodeBits(p: Packet): (s: seq<bool>)
    requires |p| >= 2
    ensures |s| == 8 * |p|
  {
    BitsOf(p[..|p| - 2]) + Reverse(BitsOf(p[|p| - 2..]))
  }

  lemma FieldBits(low: byte, high: byte)
    ensures BitsOf([low, high]) == BitsOfByte(low) + BitsOfByte(high)
  {
    assert [low, high][1..] == [high];
    assert [high][1..] == [];
  }

  lemma ReversedHalf(w: seq<bool>, l: seq<bool>, h: seq<bool>)
    requires |l| == |h| == 8 && w == Reverse(l + h)
    ensures At(w, 0) == h[7] && At(w, 1) == h[6] && At(w, 2) == h[5] && At(w, 3) == h[4]
    ensures At(w, 4) == h[3] && At(w, 5) == h[2] && At(w, 6) == h[1] && At(w, 7) == h[0]
    ensures At(w, 8) == l[7] && At(w, 9) == l[6] && At(w, 10) == l[5] && At(w, 11) == l[4]
    ensures At(w, 12) == l[3] && At(w, 13) == l[2] && At(w, 14) == l[1] && At(w, 15) == l[0]
  {
  }

  lemma ReversedField(low: byte, high: byte, w: seq<bool>)
    requires w == Reverse(BitsOf([low, high]))
    ensures TopOf(w) == RegisterOf(low, high)
  {
    hide BitsOf, Reverse, At, BitsOfByte;
    FieldBits(low, high);
    ReversedHalf(w, BitsOfByte(low), BitsOfByte(high));
    ByteBits(low);
    ByteBits(high);
  }

  lemma ByteBits(b: byte)
    ensures BitsOfByte(b)[0] == (b & 0x01 != 0) && BitsOfByte(b)[1] == (b & 0x02 != 0)
    ensures BitsOfByte(b)[2] == (b & 0x04 != 0) && BitsOfByte(b)[3] == (b & 0x08 != 0)
    ensures BitsOfByte(b)[4] == (b & 0x10 != 0) && BitsOfByte(b)[5] == (b & 0x20 != 0)
    ensures BitsOfByte(b)[6] == (b & 0x40 != 0) && BitsOfByte(b)[7] == (b & 0x80 != 0)
  {
  }

  /** A packet passes the check exactly when its bits, so ordered, are a codeword. */
  lemma AcceptedIsCodeword(p: Packet)
    requires |p| >= 2
    ensures Accepted(p) <==> Crc(CodeBits(p)) == Zero()
  {
    hide RegisterOf, FieldOf, TopOf, Feed, BitsOf, Reverse;
    var body, field := p[..|p| - 2], p[|p| - 2..];
    var low, high := field[0], field[1];
    assert field == [low, high];
    AppendedChecksum(BitsOf(body), Reverse(BitsOf(field)));
    ReversedField(low, high, Reverse(BitsOf(field)));
    FieldOfRegister(low, high);
    RegisterOfField(Crc(BitsOf(body)));
  }

  /** In how many bits two packets differ. */
  function PacketDistance(p: Packet, q: Packet): nat
    requires |p| == |q|
  {
    Distance(BitsOf(p), BitsOf(q))
  }

  lemma XorReverse(u: seq<bool>, v: seq<bool>)
    requires |u| == |v|
    ensures Xor(Reverse(u), Reverse(v)) == Reverse(Xor(u, v))
  {
  }

  /** Reordering the checksum bits does not change how many differ. */
  lemma CodeBitsDistance(p: Packet, q: Packet)
    requires |p| == |q| >= 2
    ensures Distance(CodeBits(p), CodeBits(q)) == PacketDistance(p, q)
  {
    hide BitsOf, Reverse, Xor, Weight;
    var n := |p| - 2;
    assert p == p[..n] + p[n..] && q == q[..n] + q[n..];
    BitsOfAppend(p[..n], p[n..]);
    BitsOfAppend(q[..n], q[n..]);
    var a, b, c, d := BitsOf(p[..n]), BitsOf(p[n..]), BitsOf(q[..n]), BitsOf(q[n..]);
    XorAppend(a, b, c, d);
    XorAppend(a, Reverse(b), c, Reverse(d));
    XorReverse(b, d);
    WeightAppend(Xor(a, c), Xor(b, d));
    WeightAppend(Xor(a, c), Reverse(Xor(b, d)));
    WeightReverse(Xor(b, d));
  }

  /** Any two different accepted packets of one length differ in at least four bits. */
  lemma PacketMinimumDistance(p: Packet, q: Packet)
    requires WellFramed(p) && WellFramed(q) && |p| == |q|
    requires Accepted(p) && Accepted(q)
    ensures p == q || PacketDistance(p, q) >= 4
  {
    hide Accepted, Feed, Distance, BitsOf, Reverse;
    AcceptedIsCodeword(p);
    AcceptedIsCodeword(q);
    MinimumDistance(CodeBits(p), CodeBits(q));
    CodeBitsDistance(p, q);
    if CodeBits(p) == CodeBits(q) {
      DistanceZero(CodeBits(p), CodeBits(q));
      DistanceZero(BitsOf(p), BitsOf(q));
      BitsOfInjective(p, q);
    }
  }

  /** One, two or three flipped bits outside the count byte never go unnoticed. */
  lemma FlipsDetected(p: Packet, q: Packet)
    requires WellFramed(p) && Accepted(p)
    requires |q| == |p| && q[0] == p[0]
    requires 1 <= PacketDistance(p, q) <= 3
    ensures !Passes(q)
  {
    hide Accepted, BitsOf, Distance, Value;
    FramePasses(q);
    if Accepted(q) {
      PacketMinimumDistance(p, q);
      DistanceZero(BitsOf(p), BitsOf(q));
    }
  }

  /** Equal checksum bytes are equal registers. */
  lemma EqualFields(a: seq<byte>, b: seq<byte>)
    ensures CrcBytes(a) == CrcBytes(b) <==> Crc(BitsOf(a)) == Crc(BitsOf(b))
  {
    hide Feed, BitsOf, FieldOf, RegisterOf;
    RegisterOfField(Crc(BitsOf(a)));
    RegisterOfField(Crc(BitsOf(b)));
  }

  /** Whether two buffers differ at most in the n bits from position k on, in the order in which bits are fed. */
  predicate DifferWithin(a: seq<byte>, b: seq<byte>, k: nat, n: nat)
    requires |a| == |b|
  {
    forall i :: 0 <= i < 8 * |a| && !(k <= i < k + n) ==> BitsOf(a)[i] == BitsOf(b)[i]
  }

  /** Two changed bits leave the checksum bytes alone exactly when they are a multiple of 32767 positions apart. */
  lemma BufferTwoBits(a: seq<byte>, b: seq<byte>, i: nat, j: nat)
    requires |a| == |b| && i < j < 8 * |a|
    requires forall k :: 0 <= k < 8 * |a| ==> (BitsOf(a)[k] != BitsOf(b)[k] <==> k == i || k == j)
    ensures CrcBytes(a) == CrcBytes(b) <==> (j - i) % ORDER == 0
  {
    hide Feed, BitsOf;
    TwoBitErrors(BitsOf(a), BitsOf(b), i, j);
    EqualFields(a, b);
  }

  /** Contents and checksum field, as bits. */
  lemma SplitBits(p: Packet, q: Packet)
    requires |p| == |q| >= 2
    ensures BitsOf(p) == BitsOf(p[..|p| - 2]) + BitsOf(p[|p| - 2..])
    ensures BitsOf(p[..|p| - 2]) == BitsOf(q[..|p| - 2]) ==> p[..|p| - 2] == q[..|p| - 2]
    ensures BitsOf(p[|p| - 2..]) == BitsOf(q[|p| - 2..]) ==> p[|p| - 2..] == q[|p| - 2..]
  {
    var m := |p| - 2;
    assert p == p[..m] + p[m..];
    BitsOfAppend(p[..m], p[m..]);
    hide BitsOf;
    if BitsOf(p[..m]) == BitsOf(q[..m]) {
      BitsOfInjective(p[..m], q[..m]);
    }
    if BitsOf(p[m..]) == BitsOf(q[m..]) {
      BitsOfInjective(p[m..], q[m..]);
    }
  }

  /** Two byte strings that pass the checksum test differ in an even number of bits. */
  lemma AcceptedDistanceEven(p: Packet, q: Packet)
    requires |p| == |q| >= 2 && Accepted(p) && Accepted(q)
    ensures PacketDistance(p, q) % 2 == 0
  {
    hide Accepted, Feed, BitsOf, Reverse, Weight;
    CodeDifference(p, q);
    CrcParity(Zero(), Xor(CodeBits(p), CodeBits(q)));
    CodeBitsDistance(p, q);
  }

  /** An odd number of changed bits is noticed wherever they lie outside the count byte. */
  lemma OddDistanceDetected(p: Packet, q: Packet)
    requires WellFramed(p) && Accepted(p)
    requires |q| == |p| && q[0] == p[0]
    requires PacketDistance(p, q) % 2 == 1
    ensures !Passes(q)
  {
    hide Accepted, BitsOf, Distance, Value;
    FramePasses(q);
    if Accepted(q) {
      AcceptedDistanceEven(p, q);
    }
  }

  /** The difference of two accepted packets leaves the register clear. */
  lemma CodeDifference(p: Packet, q: Packet)
    requires |p| == |q| >= 2 && Accepted(p) && Accepted(q)
    ensures Crc(Xor(CodeBits(p), CodeBits(q))) == Zero()
  {
    hide Accepted, Feed, BitsOf, Reverse;
    AcceptedIsCodeword(p);
    AcceptedIsCodeword(q);
    EqualFeeds(Zero(), CodeBits(p), CodeBits(q));
  }

  /**
   One, two or three changed bits in a buffer of up to 4095 bytes, as in the images that close the
   locks, change its checksum.
   */
  lemma ImageErrorsDetected(a: seq<byte>, b: seq<byte>)
    requires |a| == |b| <= 4095
    requires 1 <= Distance(BitsOf(a), BitsOf(b)) <= 3
    ensures CrcBytes(a) != CrcBytes(b)
  {
    hide Feed, BitsOf, Weight;
    var u, v := BitsOf(a), BitsOf(b);
    EqualFields(a, b);
    EqualFeeds(Zero(), u, v);
    if Crc(u) == Crc(v) {
      CodewordWeight(Xor(u, v));
      WeightZero(Xor(u, v));
    }
  }

  // ---- Four flips can pass ----

  function XorBytes(p: seq<byte>, m: seq<byte>): (q: seq<byte>)
    requires |p| == |m|
    ensures |q| == |p|
  {
    if p == [] then [] else [p[0] ^ m[0]] + XorBytes(p[1..], m[1..])
  }

  lemma {:induction false} XorBytesAppend(a: seq<byte>, b: seq<byte>, c: seq<byte>, d: seq<byte>)
    requires |a| == |c| && |b| == |d|
    ensures XorBytes(a + b, c + d) == XorBytes(a, c) + XorBytes(b, d)
  {
    if a == [] {
      assert a + b == b && c + d == d;
    } else {
      assert (a + b)[1..] == a[1..] + b && (c + d)[1..] == c[1..] + d;
      XorBytesAppend(a[1..], b, c[1..], d);
    }
  }

  lemma MaskXor(a: byte, b: byte, i: nat)
    requires i < 8
    ensures ((a ^ b) & Mask(i) != 0) == ((a & Mask(i) != 0) != (b & Mask(i) != 0))
  {
    MaskedXor(a, b);
  }

  lemma MaskedXor(a: byte, b: byte)
    ensures ((a ^ b) & 0x01 != 0) == ((a & 0x01 != 0) != (b & 0x01 != 0))
    ensures ((a ^ b) & 0x02 != 0) == ((a & 0x02 != 0) != (b & 0x02 != 0))
    ensures ((a ^ b) & 0x04 != 0) == ((a & 0x04 != 0) != (b & 0x04 != 0))
    ensures ((a ^ b) & 0x08 != 0) == ((a & 0x08 != 0) != (b & 0x08 != 0))
    ensures ((a ^ b) & 0x10 != 0) == ((a & 0x10 != 0) != (b & 0x10 != 0))
    ensures ((a ^ b) & 0x20 != 0) == ((a & 0x20 != 0) != (b & 0x20 != 0))
    ensures ((a ^ b) & 0x40 != 0) == ((a & 0x40 != 0) != (b & 0x40 != 0))
    ensures ((a ^ b) & 0x80 != 0) == ((a & 0x80 != 0) != (b & 0x80 != 0))
  {
  }

  lemma BitXor(a: byte, b: byte, i: nat)
    requires i < 8
    ensures BitsOfByte(a ^ b)[i] == (BitsOfByte(a)[i] != BitsOfByte(b)[i])
  {
    hide BitsOfByte, Mask;
    MaskBit(a, i);
    MaskBit(b, i);
    MaskBit(a ^ b, i);
    MaskXor(a, b, i);
  }

  lemma BitsOfByteXor(a: byte, b: byte)
    ensures BitsOfByte(a ^ b) == Xor(BitsOfByte(a), BitsOfByte(b))
  {
    hide BitsOfByte;
    forall i | 0 <= i < 8 ensures BitsOfByte(a ^ b)[i] == Xor(BitsOfByte(a), BitsOfByte(b))[i] {
      BitXor(a, b, i);
    }
  }

  lemma {:induction false} BitsOfXor(p: seq<byte>, m: seq<byte>)
    requires |p| == |m|
    ensures BitsOf(XorBytes(p, m)) == Xor(BitsOf(p), BitsOf(m))
  {
    if p != [] {
      hide BitsOfByte, Xor;
      var q := XorBytes(p, m);
      assert q[1..] == XorBytes(p[1..], m[1..]);
      BitsOfByteXor(p[0], m[0]);
      BitsOfXor(p[1..], m[1..]);
      XorAppend(BitsOfByte(p[0]), BitsOf(p[1..]), BitsOfByte(m[0]), BitsOf(m[1..]));
    }
  }

  /** The accepted packets of one length form a linear code: the sum of two of them is accepted again. */
  lemma AcceptedSum(p: Packet, m: Packet)
    requires |p| == |m| >= 2 && Accepted(p) && Accepted(m)
    ensures Accepted(XorBytes(p, m))
  {
    hide Accepted, BitsOf, Reverse, Feed, Xor, Add, XorBytes;
    var q, n := XorBytes(p, m), |p| - 2;
    assert p == p[..n] + p[n..] && m == m[..n] + m[n..];
    XorBytesAppend(p[..n], p[n..], m[..n], m[n..]);
    assert q[..n] == XorBytes(p[..n], m[..n]) && q[n..] == XorBytes(p[n..], m[n..]);
    BitsOfXor(p[..n], m[..n]);
    BitsOfXor(p[n..], m[n..]);
    XorReverse(BitsOf(p[n..]), BitsOf(m[n..]));
    XorAppend(BitsOf(p[..n]), Reverse(BitsOf(p[n..])), BitsOf(m[..n]), Reverse(BitsOf(m[n..])));
    CrcLinear(CodeBits(p), CodeBits(m));
    AddZero(Zero());
    AcceptedIsCodeword(p);
    AcceptedIsCodeword(m);
    AcceptedIsCodeword(q);
  }

  /** A change of four bits on both sides of the border between contents and checksum. */
  function FourFlips(n: nat): (m: Packet)
    requires n >= 3
    ensures |m| == n
  {
    seq(n - 3, _ => 0x00 as byte) + [0xC0] + [0x0A, 0x00]
  }

  lemma {:induction false} BitsOfZeroBytes(n: nat)
    ensures BitsOf(seq(n, _ => 0x00 as byte)) == Zeros(8 * n)
  {
    if n > 0 {
      var s := seq(n, _ => 0x00 as byte);
      assert s[1..] == seq(n - 1, _ => 0x00 as byte);
      BitsOfZeroBytes(n - 1);
      assert BitsOfByte(0x00) == Zeros(8);
    }
  }

  lemma {:induction false} FeedZeroBits(n: nat, s: seq<bool>)
    ensures Feed(Zero(), Zeros(n) + s) == Feed(Zero(), s)
  {
    FeedAppend(Zero(), Zeros(n), s);
    FeedZeros(n);
  }

  lemma FourFlipsAccepted(n: nat)
    requires n >= 3
    ensures Accepted(FourFlips(n))
  {
    hide Feed, Step, FieldOf;
    var zeros := seq(n - 3, _ => 0x00 as byte);
    var body := zeros + [0xC0 as byte];
    BitsOfAppend(zeros, [0xC0]);
    BitsOfZeroBytes(n - 3);
    ChangedBytes();
    hide BitsOf;
    FeedZeroBits(8 * (n - 3), BitsOf([0xC0]));
    FeedZeroBits(6, [true, true]);
    FeedTwo();
    var m := FourFlips(n);
    assert m[..|m| - 2] == body && m[|m| - 2..] == [0x0A, 0x00];
    PolynomField();
  }

  lemma ChangedBytes()
    ensures BitsOf([0xC0]) == Zeros(6) + [true, true]
    ensures BitsOf([0x0A, 0x00]) == [false, true, false, true] + Zeros(12)
  {
    assert [0xC0 as byte][1..] == [];
    FieldBits(0x0A, 0x00);
    assert BitsOfByte(0x0A) == [false, true, false, true] + Zeros(4);
    assert BitsOfByte(0x00) == Zeros(8);
    assert Zeros(4) + Zeros(8) == Zeros(12);
  }

  lemma FeedTwo()
    ensures Feed(Zero(), [true, true]) == Step(Step(Zero(), true), true)
  {
    assert [true, true][1..] == [true] && [true][1..] == [];
  }

  lemma PolynomField()
    ensures FieldOf(Step(Step(Zero(), true), true)) == [0x0A, 0x00]
  {
  }

  /** All four lie within six consecutive bits. */
  lemma FourFlipsBits(n: nat)
    requires n >= 3
    ensures BitsOf(FourFlips(n)) == Zeros(8 * (n - 3) + 6) + [true, true, false, true, false, true] + Zeros(12)
  {
    var zeros := seq(n - 3, _ => 0x00 as byte);
    BitsOfAppend(zeros + [0xC0], [0x0A, 0x00]);
    BitsOfAppend(zeros, [0xC0]);
    BitsOfZeroBytes(n - 3);
    ChangedBytes();
    hide BitsOf;
    assert Zeros(8 * (n - 3)) + Zeros(6) == Zeros(8 * (n - 3) + 6);
    assert [true, true] + [false, true, false, true] == [true, true, false, true, false, true];
  }

  lemma FourFlipsWeight(n: nat)
    requires n >= 3
    ensures Weight(BitsOf(FourFlips(n))) == 4
  {
    FourFlipsBits(n);
    hide BitsOf;
    var z, six := Zeros(8 * (n - 3) + 6), [true, true, false, true, false, true];
    WeightAppend(z + six, Zeros(12));
    WeightAppend(z, six);
    WeightZero(z);
    WeightZero(Zeros(12));
    SixWeight();
  }

  lemma SixWeight()
    ensures Weight([true, true, false, true, false, true]) == 4
  {
    assert [true, true, false, true, false, true][1..] == [true, false, true, false, true];
    assert [true, false, true, false, true][1..] == [false, true, false, true];
    assert [false, true, false, true][1..] == [true, false, true] && [true, false, true][1..] == [false, true];
    assert [false, true][1..] == [true] && [true][1..] == [];
  }

  /**
   Three is the most: every accepted packet with data has an accepted neighbour that differs in four
   bits. Because the checksum is sent low byte first, they lie among six consecutive ones.
   */
  lemma FourFlipsUndetected(p: Packet) returns (q: Packet)
    requires WellFramed(p) && Accepted(p) && |p| >= 4
    ensures |q| == |p| && WellFramed(q) && Accepted(q) && q[0] == p[0]
    ensures PacketDistance(p, q) == 4 && DifferWithin(p, q, 8 * (|p| - 2) - 2, 6)
  {
    hide Accepted, BitsOf, Weight, Value, XorBytes;
    var m := FourFlips(|p|);
    q := XorBytes(p, m);
    XorFirst(p, m);
    FourFlipsAccepted(|p|);
    FourFlipsWeight(|p|);
    FourFlipsBits(|p|);
    hide FourFlips;
    AcceptedSum(p, m);
    BitsOfXor(p, m);
    XorCancels(BitsOf(p), BitsOf(m));
  }

  lemma XorFirst(p: Packet, m: Packet)
    requires |p| == |m| > 0 && m[0] == 0
    ensures XorBytes(p, m)[0] == p[0]
  {
  }

  lemma XorCancels(u: seq<bool>, v: seq<bool>)
    requires |u| == |v|
    ensures Xor(u, Xor(u, v)) == v
  {
  }
}
