/**
 The count byte decides which bytes are checked, so a change of it is not covered by the checksum of
 the packet as it was sent. For which lengths it can go unnoticed is said exactly.
 */
module CountByte {
  import opened Bits
  import opened Bursts
  import opened Checksum
  import opened CrcCode
  import opened Gf2
  import opened Packets
  import opened PolyDivision

  /** Some good packet of c bytes still passes the check once its count byte says d. */
  ghost predicate CanPass(c: nat, d: nat)
    requires d < 0x100
  {
    exists p: Packet :: |p| == c && WellFramed(p) && Accepted(p) && Passes(p[0 := FromValue(d)])
  }

  lemma Witness(p: Packet, d: nat)
    requires d < 0x100 && WellFramed(p) && Accepted(p)
    requires 3 <= d <= |p| && Accepted(p[0 := FromValue(d)][..d])
    ensures CanPass(|p|, d)
  {
    hide Accepted, Value, FromValue;
    assert Passes(p[0 := FromValue(d)]);
  }

  /** A packet inside a longer one: its checksum counts as data of the longer one. */
  lemma PassesWhenShortened(c: nat, d: nat)
    requires 3 <= d && d + 2 <= c < 0x100
    ensures CanPass(c, d)
  {
    hide CrcBytes, Accepted, Value, FromValue;
    var data := seq(d - 3, _ => 0x00 as byte);
    var shorter := [FromValue(d)] + data;
    var body := [FromValue(c)] + data + CrcBytes(shorter) + seq(c - 2 - d, _ => 0x00 as byte);
    var p := Sealed(body);
    SealedAccepted(body);
    SealedAccepted(shorter);
    assert p[0] == FromValue(c);
    assert p[0 := FromValue(d)][..d] == Sealed(shorter);
    Witness(p, d);
  }

  lemma PassesUnchanged(c: nat)
    requires 3 <= c < 0x100
    ensures CanPass(c, c)
  {
    hide CrcBytes, Accepted, Value, FromValue;
    var p := Sealed([FromValue(c)] + seq(c - 3, _ => 0x00 as byte));
    SealedAccepted([FromValue(c)] + seq(c - 3, _ => 0x00 as byte));
    assert p[0] == FromValue(c);
    assert p[0 := FromValue(c)][..c] == p;
    Witness(p, c);
  }

  // ---- One byte less ----

  /** Eight turns of the loop. */
  function Step8(c: Register, b0: bool, b1: bool, b2: bool, b3: bool, b4: bool, b5: bool, b6: bool, b7: bool)
    : Register
  {
    Step(Step(Step(Step5(c, b0, b1, b2, b3, b4), b5), b6), b7)
  }

  lemma EightTurns(c: Register, w: seq<bool>)
    requires |w| == 8
    ensures Feed(c, w) == Step8(c, w[0], w[1], w[2], w[3], w[4], w[5], w[6], w[7])
  {
    hide Step, Feed;
    FeedNone(c, w);
    FeedOneMore(c, w, 0); FeedOneMore(c, w, 1); FeedOneMore(c, w, 2); FeedOneMore(c, w, 3);
    FeedOneMore(c, w, 4); FeedOneMore(c, w, 5); FeedOneMore(c, w, 6); FeedOneMore(c, w, 7);
    assert w[..8] == w;
  }

  /** The register one turn with a clear data bit earlier. */
  function Earlier(d: Register, n: nat): (c: Register)
    ensures Feed(c, Zeros(n)) == d
    decreases n
  {
    if n == 0 then d
    else
      var e := Register(
                 d.c0, d.c15 != d.c0, d.c14, d.c13,
                 d.c12, d.c11, d.c10, d.c9,
                 d.c8, d.c7, d.c6, d.c5,
                 d.c4, d.c3, d.c2 != d.c0, d.c1);
      StepsBack(e, d, n);
      Earlier(e, n - 1)
  }

  lemma StepsBack(e: Register, d: Register, n: nat)
    requires n > 0 && Step(e, false) == d
    ensures forall c :: Feed(c, Zeros(n - 1)) == e ==> Feed(c, Zeros(n)) == d
  {
    hide Step;
    forall c | Feed(c, Zeros(n - 1)) == e ensures Feed(c, Zeros(n)) == d {
      FeedOneMore(c, Zeros(n), n - 1);
      assert Zeros(n)[..n - 1] == Zeros(n - 1) && Zeros(n)[..n] == Zeros(n);
    }
  }

  lemma AddTwice(c: Register, d: Register)
    ensures Add(Add(c, d), d) == c && Add(Zero(), d) == d
  {
  }

  lemma TopOfRegisterBits(d: Register)
    ensures TopOf(RegisterBits(d)) == d
  {
    hide FromTop;
    TopAt(RegisterBits(d));
    FromTopAt(d);
  }

  lemma TopAt(w: seq<bool>)
    requires |w| == 16
    ensures TopOf(w) == Register(
                          w[0], w[1], w[2], w[3], w[4], w[5], w[6], w[7],
                          w[8], w[9], w[10], w[11], w[12], w[13], w[14], w[15])
  {
  }

  lemma FromTopAt(d: Register)
    ensures d == Register(
                   FromTop(d, 0), FromTop(d, 1), FromTop(d, 2), FromTop(d, 3),
                   FromTop(d, 4), FromTop(d, 5), FromTop(d, 6), FromTop(d, 7),
                   FromTop(d, 8), FromTop(d, 9), FromTop(d, 10), FromTop(d, 11),
                   FromTop(d, 12), FromTop(d, 13), FromTop(d, 14), FromTop(d, 15))
  {
  }

  /** Sixteen bits take the register anywhere. */
  lemma Reachable(c: Register, r: Register) returns (w: seq<bool>)
    ensures |w| == 16 && Feed(c, w) == r
  {
    hide Feed, Add, TopOf, RegisterBits;
    var b := Earlier(r, 16);
    var s := Add(c, b);
    w := RegisterBits(s);
    TopOfRegisterBits(s);
    FeedToZero(s, w);
    FeedLinear(s, b, w, Zeros(16));
    assert Xor(w, Zeros(16)) == w;
    AddTwice(c, b);
    AddTwice(c, r);
  }

  lemma ByteOfEight(w: seq<bool>) returns (b: byte)
    requires |w| == 8
    ensures BitsOfByte(b) == w
  {
    hide ByteOf;
    b := ByteOf(w[7], w[6], w[5], w[4], w[3], w[2], w[1], w[0]);
    BitsOfByteOf(w[7], w[6], w[5], w[4], w[3], w[2], w[1], w[0], b);
  }

  /** Two bytes take the checksum register anywhere. */
  lemma TwoBytesReach(before: seq<byte>, r: Register) returns (x: seq<byte>)
    ensures |x| == 2 && Crc(BitsOf(before + x)) == r
  {
    hide Feed, BitsOf;
    var w := Reachable(Crc(BitsOf(before)), r);
    var x0 := ByteOfEight(w[..8]);
    var x1 := ByteOfEight(w[8..]);
    x := [x0, x1];
    FieldBits(x0, x1);
    assert w == w[..8] + w[8..];
    BitsOfAppend(before, x);
    FeedAppend(Zero(), BitsOf(before), w);
  }

  /** The register whose low byte spells the high byte of another, highest coefficient first. */
  function Mirror(d: Register): Register {
    Register(
      false, false, false, false, false, false, false, false,
      d.c8, d.c9, d.c10, d.c11, d.c12, d.c13, d.c14, d.c15)
  }

  /** Fed with the low byte of such a register, nothing is subtracted, and the low byte ends up clear. */
  lemma MirrorFed(d: Register, w: seq<bool>)
    requires |w| == 8
    requires w[0] == d.c15 && w[1] == d.c14 && w[2] == d.c13 && w[3] == d.c12
    requires w[4] == d.c11 && w[5] == d.c10 && w[6] == d.c9 && w[7] == d.c8
    ensures var t := Feed(Add(Mirror(d), d), w);
            !t.c7 && !t.c6 && !t.c5 && !t.c4 && !t.c3 && !t.c2 && !t.c1 && !t.c0
  {
    EightTurns(Add(Mirror(d), d), w);
    hide Feed;
  }

  /** The low byte of the mirrored register, as it is fed. */
  lemma MirrorField(d: Register) returns (y: byte)
    ensures FieldOf(Mirror(d)) == [y, 0x00]
    ensures var w := BitsOfByte(y);
            && w[0] == d.c15 && w[1] == d.c14 && w[2] == d.c13 && w[3] == d.c12
            && w[4] == d.c11 && w[5] == d.c10 && w[6] == d.c9 && w[7] == d.c8
  {
    hide ByteOf, BitsOfByte;
    y := ByteOf(d.c8, d.c9, d.c10, d.c11, d.c12, d.c13, d.c14, d.c15);
    BitsOfByteOf(d.c8, d.c9, d.c10, d.c11, d.c12, d.c13, d.c14, d.c15, y);
    ByteBits(y);
    ZeroByte();
  }

  lemma ZeroByte()
    ensures ByteOf(false, false, false, false, false, false, false, false) == 0x00
  {
  }

  lemma LowByteClear(t: Register)
    requires !t.c7 && !t.c6 && !t.c5 && !t.c4 && !t.c3 && !t.c2 && !t.c1 && !t.c0
    ensures FieldOf(t)[0] == 0x00
  {
    ZeroByte();
  }

  /** The same bytes behind two beginnings: the registers differ by what the beginnings make of zeros. */
  lemma SameTail(long: seq<byte>, short: seq<byte>, x: seq<byte>)
    requires |x| == 2
    ensures var d := Feed(Add(Crc(BitsOf(long)), Crc(BitsOf(short))), Zeros(16));
            Crc(BitsOf(long + x)) == Add(Crc(BitsOf(short + x)), d)
  {
    hide Feed, Add, BitsOf;
    var bits := BitsOf(x);
    BitsOfAppend(long, x);
    BitsOfAppend(short, x);
    FeedAppend(Zero(), BitsOf(long), bits);
    FeedAppend(Zero(), BitsOf(short), bits);
    FeedLinear(Crc(BitsOf(long)), Crc(BitsOf(short)), bits, bits);
    assert Xor(bits, bits) == Zeros(16);
    AddTwice(Feed(Crc(BitsOf(long)), bits), Feed(Crc(BitsOf(short)), bits));
    AddCommutes(Feed(Add(Crc(BitsOf(long)), Crc(BitsOf(short))), Zeros(16)), Feed(Crc(BitsOf(short)), bits));
  }

  lemma OneByteMore(data: seq<byte>, b: byte)
    ensures Crc(BitsOf(data + [b])) == Feed(Crc(BitsOf(data)), BitsOfByte(b))
  {
    hide Feed;
    assert (data + [b])[..|data|] == data && (data + [b])[..|data| + 1] == data + [b];
    CrcOneMore(data + [b], |data|);
  }

  /** Bytes behind a beginning that is to be taken for another one, so that both checksums begin with the right byte. */
  lemma SharedEnd(long: seq<byte>, short: seq<byte>) returns (x: seq<byte>, y: byte)
    ensures |x| == 2
    ensures CrcBytes(short + x) == [y, 0x00]
    ensures CrcBytes(long + x + [y])[0] == 0x00
  {
    hide BitsOf, Feed, FieldOf, Mirror, BitsOfByte, Add;
    var d := Feed(Add(Crc(BitsOf(long)), Crc(BitsOf(short))), Zeros(16));
    x := TwoBytesReach(short, Mirror(d));
    SameTail(long, short, x);
    y := MirrorField(d);
    OneByteMore(long + x, y);
    MirrorFed(d, BitsOfByte(y));
    LowByteClear(Crc(BitsOf(long + x + [y])));
  }

  lemma PassesOneLess(c: nat)
    requires 6 <= c < 0x100
    ensures CanPass(c, c - 1)
  {
    hide CrcBytes, FromValue, Value, Accepted;
    var zeros := seq(c - 6, _ => 0x00 as byte);
    var short, long := [FromValue(c - 1)] + zeros, [FromValue(c)] + zeros;
    var x, y := SharedEnd(long, short);
    assert short + x == [FromValue(c - 1)] + (zeros + x);
    assert long + x + [y] == [FromValue(c)] + (zeros + x) + [y];
    OneLess(c, zeros + x, y);
  }

  /** Two packets that share all bytes but the count and the end. */
  lemma OneLess(c: nat, data: seq<byte>, y: byte)
    requires 6 <= c < 0x100 && |data| == c - 4
    requires CrcBytes([FromValue(c - 1)] + data) == [y, 0x00]
    requires CrcBytes([FromValue(c)] + data + [y])[0] == 0x00
    ensures CanPass(c, c - 1)
  {
    hide CrcBytes, Accepted, Value, FromValue;
    var short, body := [FromValue(c - 1)] + data, [FromValue(c)] + data + [y];
    var p := Sealed(body);
    SealedAccepted(body);
    SealedAccepted(short);
    assert p[0] == FromValue(c);
    assert p[0 := FromValue(c - 1)][..c - 1] == Sealed(short);
    Witness(p, c - 1);
  }

  // ---- Short packets ----

  /** One byte on the machine word. */
  function ByteWord(r: bv16, b: byte): bv16 {
    var r4 := StepWord(StepWord(StepWord(StepWord(r, b & 0x01 != 0), b & 0x02 != 0), b & 0x04 != 0), b & 0x08 != 0);
    StepWord(StepWord(StepWord(StepWord(r4, b & 0x10 != 0), b & 0x20 != 0), b & 0x40 != 0), b & 0x80 != 0)
  }

  lemma WordFed(data: seq<byte>, r: bv16, b: byte)
    requires Crc(BitsOf(data)) == Word(r)
    ensures Crc(BitsOf(data + [b])) == Word(ByteWord(r, b))
  {
    hide Step, Feed, StepWord, Word, BitsOf;
    OneByteMore(data, b);
    EightTurns(Word(r), BitsOfByte(b));
    var r1 := StepWord(r, b & 0x01 != 0);
    var r2 := StepWord(r1, b & 0x02 != 0);
    var r3 := StepWord(r2, b & 0x04 != 0);
    var r4 := StepWord(r3, b & 0x08 != 0);
    var r5 := StepWord(r4, b & 0x10 != 0);
    var r6 := StepWord(r5, b & 0x20 != 0);
    var r7 := StepWord(r6, b & 0x40 != 0);
    WordStep(r, b & 0x01 != 0);
    WordStep(r1, b & 0x02 != 0);
    WordStep(r2, b & 0x04 != 0);
    WordStep(r3, b & 0x08 != 0);
    WordStep(r4, b & 0x10 != 0);
    WordStep(r5, b & 0x20 != 0);
    WordStep(r6, b & 0x40 != 0);
    WordStep(r7, b & 0x80 != 0);
  }

  lemma FieldOfWord(data: seq<byte>, r: bv16)
    requires Crc(BitsOf(data)) == Word(r)
    ensures CrcBytes(data) == [(r & 0x00FF) as byte, (r >> 8) as byte]
  {
    hide Feed, BitsOf, FieldOf, RegisterOf;
    WordBytes(r);
    FieldOfRegister((r & 0x00FF) as byte, (r >> 8) as byte);
  }

  lemma Words()
    ensures ByteWord(0, 0x03) == 0x0280
    ensures ByteWord(0, 0x04) == 0x80C3 && ByteWord(0x80C3, 0x80) == 0xC006 && ByteWord(0x80C3, 0x85) == 0xC3C6
    ensures ByteWord(0, 0x05) == 0x03C0 && ByteWord(0x03C0, 0x85) == 0x43CF && ByteWord(0x43CF, 0xC6) == 0x4FC3
  {
  }

  lemma ShortChecksums()
    ensures CrcBytes([]) == [0x00, 0x00]
    ensures CrcBytes([0x03]) == [0x80, 0x02] && CrcBytes([0x04, 0x80]) == [0x06, 0xC0]
    ensures CrcBytes([0x04, 0x85]) == [0xC6, 0xC3] && CrcBytes([0x05, 0x85, 0xC6]) == [0xC3, 0x4F]
  {
    hide BitsOf, Feed, Word, ByteWord, CrcBytes;
    Words();
    WordOfZero();
    FieldOfWord([], 0);
    WordFed([], 0, 0x03);
    FieldOfWord([] + [0x03], 0x0280);
    WordFed([], 0, 0x04);
    WordFed([] + [0x04], 0x80C3, 0x80);
    FieldOfWord([] + [0x04] + [0x80], 0xC006);
    WordFed([] + [0x04], 0x80C3, 0x85);
    FieldOfWord([] + [0x04] + [0x85], 0xC3C6);
    WordFed([], 0, 0x05);
    WordFed([] + [0x05], 0x03C0, 0x85);
    WordFed([] + [0x05] + [0x85], 0x43CF, 0xC6);
    FieldOfWord([] + [0x05] + [0x85] + [0xC6], 0x4FC3);
    assert [] + [0x03] == [0x03 as byte] && [] + [0x04] + [0x80] == [0x04 as byte, 0x80];
    assert [] + [0x04] + [0x85] == [0x04 as byte, 0x85] && [] + [0x05] + [0x85] + [0xC6] == [0x05 as byte, 0x85, 0xC6];
  }

  lemma SmallValues()
    ensures Value(0x00) == 0 && Value(0x03) == 3 && Value(0x04) == 4 && Value(0x05) == 5
    ensures FromValue(3) == 0x03 && FromValue(4) == 0x04 && FromValue(5) == 0x05
  {
    var b3, b4, b5 := FromValue(3), FromValue(4), FromValue(5);
    ValueInjective(b3, 0x03);
    ValueInjective(b4, 0x04);
    ValueInjective(b5, 0x05);
  }

  lemma FiveAsFour()
    ensures CanPass(5, 4)
  {
    hide CrcBytes, Value, FromValue;
    ShortChecksums();
    SmallValues();
    var p: Packet := [0x05, 0x85, 0xC6, 0xC3, 0x4F];
    assert p[..3] == [0x05, 0x85, 0xC6] && p[3..] == [0xC3, 0x4F];
    var q := p[0 := FromValue(4)][..4];
    assert q[..2] == [0x04, 0x85] && q[2..] == [0xC6, 0xC3];
    Witness(p, 4);
  }

  lemma FourNotAsThree(p: Packet)
    requires |p| == 4 && WellFramed(p) && Accepted(p)
    ensures !Passes(p[0 := FromValue(3)])
  {
    hide CrcBytes, Value, FromValue;
    ShortChecksums();
    SmallValues();
    ValueInjective(p[0], 0x04);
    var q := p[0 := FromValue(3)];
    assert q[..3][..1] == [0x03] && q[..3][1..] == [p[1], p[2]];
    assert p[..2] == [0x04, p[1]] && p[2..] == [p[2], p[3]];
  }

  lemma NothingAsTwo(p: Packet)
    requires p != []
    ensures !Passes(p[0 := FromValue(2)])
  {
    hide CrcBytes, Value, FromValue;
    ShortChecksums();
    SmallValues();
    var q := p[0 := FromValue(2)];
    if |p| >= 2 {
      assert q[..2][..0] == [] && q[..2][0..] == [q[0], q[1]];
    }
  }

  /**
   A packet of c bytes whose count byte arrives as d can pass the check for every d from 3 to c, with the
   one exception of four bytes taken for three. The count byte is what the checksum does not protect.
   */
  lemma CountByteExposed(c: nat, d: nat)
    requires 3 <= c < 0x100 && 2 <= d <= c
    ensures CanPass(c, d) <==> 3 <= d && !(c == 4 && d == 3)
  {
    hide Accepted, Value, FromValue;
    if d == 2 {
      forall p: Packet | |p| == c ensures !Passes(p[0 := FromValue(2)]) {
        NothingAsTwo(p);
      }
    } else if d == c {
      PassesUnchanged(c);
    } else if d + 2 <= c {
      PassesWhenShortened(c, d);
    } else if c >= 6 {
      PassesOneLess(c);
    } else if c == 5 {
      FiveAsFour();
    } else {
      forall p: Packet | |p| == 4 && WellFramed(p) && Accepted(p) ensures !Passes(p[0 := FromValue(3)]) {
        FourNotAsThree(p);
      }
    }
  }
}
