/** Bytes, bit strings, and the order in which the checksum consumes them. */
module Bits {

  type byte = bv8

  // ---- Bytes and numbers ----

  function ByteOf(b7: bool, b6: bool, b5: bool, b4: bool, b3: bool, b2: bool, b1: bool, b0: bool): byte {
    (if b7 then 0x80 else 0) | (if b6 then 0x40 else 0) | (if b5 then 0x20 else 0) | (if b4 then 0x10 else 0) |
    (if b3 then 0x08 else 0) | (if b2 then 0x04 else 0) | (if b1 then 0x02 else 0) | (if b0 then 0x01 else 0)
  }

  lemma ByteOfBits(b: byte)
    ensures b == ByteOf(b & 0x80 != 0, b & 0x40 != 0, b & 0x20 != 0, b & 0x10 != 0,
                        b & 0x08 != 0, b & 0x04 != 0, b & 0x02 != 0, b & 0x01 != 0)
  {
  }

  lemma BitsOfByteOf(b7: bool, b6: bool, b5: bool, b4: bool, b3: bool, b2: bool, b1: bool, b0: bool, b: byte)
    requires b == ByteOf(b7, b6, b5, b4, b3, b2, b1, b0)
    ensures (b & 0x80 != 0) == b7 && (b & 0x40 != 0) == b6 && (b & 0x20 != 0) == b5 && (b & 0x10 != 0) == b4
    ensures (b & 0x08 != 0) == b3 && (b & 0x04 != 0) == b2 && (b & 0x02 != 0) == b1 && (b & 0x01 != 0) == b0
  {
  }

  /** The unsigned value of a byte. */
  function Value(b: byte): (n: nat)
    ensures n < 0x100
  {
    Weigh(b & 0x80 != 0, 128) + Weigh(b & 0x40 != 0, 64) + Weigh(b & 0x20 != 0, 32) + Weigh(b & 0x10 != 0, 16) +
    Weigh(b & 0x08 != 0, 8) + Weigh(b & 0x04 != 0, 4) + Weigh(b & 0x02 != 0, 2) + Weigh(b & 0x01 != 0, 1)
  }

  /** It is the number the machine sees in the byte. */
  lemma ValueIsUnsigned(b: byte)
    ensures Value(b) == b as int
  {
  }

  /** What is left of n once its bit of weight m is taken out. */
  function Below(n: nat, m: nat): nat {
    if n >= m then n - m else n
  }

  function Weigh(b: bool, m: nat): nat {
    if b then m else 0
  }

  function Encode(n: nat): byte
    requires n < 0x100
  {
    var n6 := Below(n, 128); var n5 := Below(n6, 64); var n4 := Below(n5, 32); var n3 := Below(n4, 16);
    var n2 := Below(n3, 8); var n1 := Below(n2, 4); var n0 := Below(n1, 2);
    ByteOf(n >= 128, n6 >= 64, n5 >= 32, n4 >= 16, n3 >= 8, n2 >= 4, n1 >= 2, n0 >= 1)
  }

  lemma BelowValue(n: nat, m: nat)
    requires n < 2 * m
    ensures n == Weigh(n >= m, m) + Below(n, m) && Below(n, m) < m
  {
  }

  lemma ValueOfEncode(n: nat)
    requires n < 0x100
    ensures Value(Encode(n)) == n
  {
    hide ByteOf, Below, Weigh;
    var n6 := Below(n, 128); BelowValue(n, 128);
    var n5 := Below(n6, 64); BelowValue(n6, 64);
    var n4 := Below(n5, 32); BelowValue(n5, 32);
    var n3 := Below(n4, 16); BelowValue(n4, 16);
    var n2 := Below(n3, 8); BelowValue(n3, 8);
    var n1 := Below(n2, 4); BelowValue(n2, 4);
    var n0 := Below(n1, 2); BelowValue(n1, 2);
    BelowValue(n0, 1);
    BitsOfByteOf(n >= 128, n6 >= 64, n5 >= 32, n4 >= 16, n3 >= 8, n2 >= 4, n1 >= 2, n0 >= 1, Encode(n));
  }

  /** The byte an unsigned number below 256 is stored as. */
  function FromValue(n: nat): (b: byte)
    requires n < 0x100
    ensures Value(b) == n
  {
    ValueOfEncode(n);
    Encode(n)
  }

  lemma ValueInjective(a: byte, b: byte)
    requires Value(a) == Value(b)
    ensures a == b
  {
    hide ByteOf;
    ByteOfBits(a);
    ByteOfBits(b);
  }

  // ---- Bit strings ----

  /** The eight bits of a byte, least significant first: the order in which a byte is fed to the checksum. */
  function BitsOfByte(b: byte): (s: seq<bool>)
    ensures |s| == 8
  {
    [b & 0x01 != 0, b & 0x02 != 0, b & 0x04 != 0, b & 0x08 != 0,
     b & 0x10 != 0, b & 0x20 != 0, b & 0x40 != 0, b & 0x80 != 0]
  }

  /** The bits of a buffer in feed order. */
  function BitsOf(data: seq<byte>): (s: seq<bool>)
    ensures |s| == 8 * |data|
  {
    if data == [] then [] else BitsOfByte(data[0]) + BitsOf(data[1..])
  }

  function Xor(u: seq<bool>, v: seq<bool>): (w: seq<bool>)
    requires |u| == |v|
    ensures |w| == |u|
    ensures forall i :: 0 <= i < |w| ==> w[i] == (u[i] != v[i])
  {
    seq(|u|, i requires 0 <= i < |u| => u[i] != v[i])
  }

  function Zeros(n: nat): (s: seq<bool>)
    ensures |s| == n
    ensures forall i :: 0 <= i < n ==> !s[i]
  {
    seq(n, _ => false)
  }

  /** How many bits are set. */
  function Weight(s: seq<bool>): nat {
    if s == [] then 0 else (if s[0] then 1 else 0) + Weight(s[1..])
  }

  /** In how many positions two strings of equal length differ. */
  function Distance(u: seq<bool>, v: seq<bool>): nat
    requires |u| == |v|
  {
    Weight(Xor(u, v))
  }

  lemma {:induction false} BitsOfAppend(a: seq<byte>, b: seq<byte>)
    ensures BitsOf(a + b) == BitsOf(a) + BitsOf(b)
  {
    if a == [] {
      assert a + b == b;
    } else {
      assert (a + b)[1..] == a[1..] + b;
      BitsOfAppend(a[1..], b);
    }
  }

  lemma BitsOfByteInjective(a: byte, b: byte)
    requires BitsOfByte(a) == BitsOfByte(b)
    ensures a == b
  {
    var s, t := BitsOfByte(a), BitsOfByte(b);
    assert forall i :: 0 <= i < 8 ==> s[i] == t[i];
    assert s[0] == t[0] && s[1] == t[1] && s[2] == t[2] && s[3] == t[3];
    assert s[4] == t[4] && s[5] == t[5] && s[6] == t[6] && s[7] == t[7];
  }

  /** The feed order loses nothing: different buffers have different bits. */
  lemma {:induction false} BitsOfInjective(a: seq<byte>, b: seq<byte>)
    requires BitsOf(a) == BitsOf(b)
    ensures a == b
  {
    if a != [] {
      assert |a| == |b|;
      assert BitsOfByte(a[0]) == BitsOf(a)[..8] == BitsOf(b)[..8] == BitsOfByte(b[0]);
      assert BitsOf(a[1..]) == BitsOf(a)[8..] == BitsOf(b)[8..] == BitsOf(b[1..]);
      BitsOfByteInjective(a[0], b[0]);
      BitsOfInjective(a[1..], b[1..]);
    }
  }

  lemma {:induction false} WeightAppend(u: seq<bool>, v: seq<bool>)
    ensures Weight(u + v) == Weight(u) + Weight(v)
  {
    if u == [] {
      assert u + v == v;
    } else {
      assert (u + v)[1..] == u[1..] + v;
      WeightAppend(u[1..], v);
    }
  }

  lemma {:induction false} WeightZero(s: seq<bool>)
    ensures Weight(s) == 0 <==> s == Zeros(|s|)
  {
    if s != [] {
      WeightZero(s[1..]);
      assert s == [s[0]] + s[1..];
      assert Zeros(|s|)[1..] == Zeros(|s[1..]|);
    }
  }

  lemma XorAppend(a: seq<bool>, b: seq<bool>, c: seq<bool>, d: seq<bool>)
    requires |a| == |c| && |b| == |d|
    ensures Xor(a + b, c + d) == Xor(a, c) + Xor(b, d)
  {
  }

  /** Distance zero means equal strings. */
  lemma DistanceZero(u: seq<bool>, v: seq<bool>)
    requires |u| == |v|
    ensures Distance(u, v) == 0 <==> u == v
  {
    WeightZero(Xor(u, v));
    if Xor(u, v) == Zeros(|u|) {
      forall i | 0 <= i < |u| ensures u[i] == v[i] {
        assert !Xor(u, v)[i];
      }
    }
  }
}
