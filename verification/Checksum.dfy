/** calculate_crc and check_crc of tools.c, on 16-bit and 8-bit machine words. */
module Checksum {
  import opened Bits
  import opened Gf2

  const POLYNOM: bv16 := 0x8005

  /** The register as it is stored: low byte first. */
  function FieldOf(c: Register): (field: seq<byte>)
    ensures |field| == 2
  {
    [ByteOf(c.c7, c.c6, c.c5, c.c4, c.c3, c.c2, c.c1, c.c0),
     ByteOf(c.c15, c.c14, c.c13, c.c12, c.c11, c.c10, c.c9, c.c8)]
  }

  /** The two checksum bytes of a buffer. */
  function CrcBytes(data: seq<byte>): (field: seq<byte>)
    ensures |field| == 2
  {
    FieldOf(Crc(BitsOf(data)))
  }

  /** The register held in two stored bytes. */
  function RegisterOf(low: byte, high: byte): Register {
    Register(
      high & 0x80 != 0, high & 0x40 != 0, high & 0x20 != 0, high & 0x10 != 0,
      high & 0x08 != 0, high & 0x04 != 0, high & 0x02 != 0, high & 0x01 != 0,
      low & 0x80 != 0, low & 0x40 != 0, low & 0x20 != 0, low & 0x10 != 0,
      low & 0x08 != 0, low & 0x04 != 0, low & 0x02 != 0, low & 0x01 != 0)
  }

  lemma FieldOfRegister(low: byte, high: byte)
    ensures FieldOf(RegisterOf(low, high)) == [low, high]
  {
    hide ByteOf;
    ByteOfBits(low);
    ByteOfBits(high);
  }

  lemma RegisterOfField(c: Register)
    ensures RegisterOf(FieldOf(c)[0], FieldOf(c)[1]) == c
  {
    hide ByteOf;
    BitsOfByteOf(c.c7, c.c6, c.c5, c.c4, c.c3, c.c2, c.c1, c.c0, FieldOf(c)[0]);
    BitsOfByteOf(c.c15, c.c14, c.c13, c.c12, c.c11, c.c10, c.c9, c.c8, FieldOf(c)[1]);
  }

  /** The inner loop body of calculate_crc on a machine word. */
  function StepWord(crcRegister: bv16, dataBit: bool): bv16 {
    if dataBit != (crcRegister >> 15 != 0) then (crcRegister << 1) ^ POLYNOM else crcRegister << 1
  }

  lemma WordStep(c: bv16, dataBit: bool)
    ensures Word(StepWord(c, dataBit)) == Step(Word(c), dataBit)
  {
  }

  lemma WordBytes(c: bv16)
    ensures RegisterOf((c & 0x00FF) as byte, (c >> 8) as byte) == Word(c)
  {
  }

  /** The masks the inner loop runs through; the ninth shift empties the byte and ends the loop. */
  function Mask(k: nat): byte {
    match k
    case 0 => 0x01
    case 1 => 0x02
    case 2 => 0x04
    case 3 => 0x08
    case 4 => 0x10
    case 5 => 0x20
    case 6 => 0x40
    case 7 => 0x80
    case _ => 0x00
  }

  lemma MaskShift(k: nat)
    requires k < 8
    ensures Mask(k) << 1 == Mask(k + 1)
    ensures Mask(k) != 0
  {
  }

  lemma MaskBit(b: byte, k: nat)
    requires k < 8
    ensures BitsOfByte(b)[k] == (b & Mask(k) != 0)
  {
  }

  lemma FeedOneMore(c: Register, s: seq<bool>, k: nat)
    requires k < |s|
    ensures Feed(c, s[..k + 1]) == Step(Feed(c, s[..k]), s[k])
  {
    assert s[..k + 1] == s[..k] + [s[k]];
    FeedAppend(c, s[..k], [s[k]]);
    assert [s[k]][1..] == [];
  }

  lemma CrcOneMore(data: seq<byte>, n: nat)
    requires n < |data|
    ensures Crc(BitsOf(data[..n + 1])) == Feed(Crc(BitsOf(data[..n])), BitsOfByte(data[n]))
  {
    assert data[..n + 1] == data[..n] + [data[n]];
    BitsOfAppend(data[..n], [data[n]]);
    assert BitsOf([data[n]]) == BitsOfByte(data[n]) by {
      assert [data[n]][1..] == [];
    }
    FeedAppend(Zero(), BitsOf(data[..n]), BitsOfByte(data[n]));
  }

  /** calculate_crc: the checksum of the first length bytes of data, low byte first. */
  method CalculateCrc(length: nat, data: seq<byte>, crc: array<byte>)
    requires length <= |data| && length < 0x1_0000
    requires crc.Length == 2
    modifies crc
    ensures crc[..] == CrcBytes(data[..length])
  {
    hide Step, Feed, StepWord, Word, RegisterOf, BitsOfByte, Mask, FieldOf;
    var crcRegister: bv16 := 0;
    var counter := 0;
    WordOfZero();
    while counter < length
      invariant counter <= length
      invariant Word(crcRegister) == Crc(BitsOf(data[..counter]))
    {
      var shiftRegister: byte := 0x01;
      ghost var k := 0;
      ghost var bits := BitsOfByte(data[counter]);
      FirstMask();
      FeedNone(Crc(BitsOf(data[..counter])), bits);
      while shiftRegister > 0x00
        invariant k <= 8 && shiftRegister == Mask(k)
        invariant Word(crcRegister) == Feed(Crc(BitsOf(data[..counter])), bits[..k])
        decreases 8 - k
      {
        LastMask(k);
        MaskShift(k);
        MaskBit(data[counter], k);
        FeedOneMore(Crc(BitsOf(data[..counter])), bits, k);
        var dataBit: byte := if data[counter] & shiftRegister != 0 then 1 else 0;
        var crcBit: byte := (crcRegister >> 15) as byte;
        WordStep(crcRegister, dataBit == 1);
        LoopBody(crcRegister, dataBit, crcBit);
        crcRegister := crcRegister << 1;
        if dataBit != crcBit {
          crcRegister := crcRegister ^ POLYNOM;
        }
        shiftRegister := shiftRegister << 1;
        k := k + 1;
      }
      MaskNonzero(k);
      assert bits[..8] == bits;
      CrcOneMore(data, counter);
      counter := counter + 1;
    }
    crc[0] := (crcRegister & 0x00FF) as byte;
    crc[1] := (crcRegister >> 8) as byte;
    WordBytes(crcRegister);
    FieldOfRegister(crc[0], crc[1]);
    assert crc[..] == [crc[0], crc[1]];
  }

  lemma WordOfZero()
    ensures Word(0) == Crc(BitsOf([]))
  {
  }

  lemma FirstMask()
    ensures Mask(0) == 0x01
  {
  }

  lemma LastMask(k: nat)
    requires k <= 8 && Mask(k) > 0
    ensures k < 8
  {
  }

  lemma MaskNonzero(k: nat)
    requires k <= 8 && !(Mask(k) > 0)
    ensures k == 8
  {
  }

  lemma FeedNone(c: Register, s: seq<bool>)
    ensures Feed(c, s[..0]) == c
  {
  }

  lemma LoopBody(c: bv16, dataBit: byte, crcBit: byte)
    requires dataBit == 0 || dataBit == 1
    requires crcBit == (c >> 15) as byte
    ensures StepWord(c, dataBit == 1) == if dataBit != crcBit then (c << 1) ^ POLYNOM else c << 1
  {
  }

  /** check_crc: whether two bytes are the checksum of a buffer. */
  method CheckCrc(length: nat, data: seq<byte>, crc: seq<byte>) returns (ok: bool)
    requires length <= |data| && length < 0x100
    requires |crc| == 2
    ensures ok <==> crc == CrcBytes(data[..length])
  {
    var rcrc := new byte[2];
    CalculateCrc(length, data, rcrc);
    assert rcrc[..] == [rcrc[0], rcrc[1]];
    if crc[0] != rcrc[0] || crc[1] != rcrc[1] {
      return false;
    }
    assert crc == [crc[0], crc[1]];
    return true;
  }
}
