/**
 The algebra behind the CRC-16 register of tools.c: arithmetic modulo the
 polynomial G(x) = x^16 + x^15 + x^2 + 1 over the two-element field. Composite
 lemmas hide the definitions of the operations and argue from their laws only.
 */
module Gf2 {
  import opened Bits

  /** A polynomial of degree below 16, which is what the register holds: field ck is the coefficient of x^k. */
  datatype Register = Register(
    c15: bool, c14: bool, c13: bool, c12: bool,
    c11: bool, c10: bool, c9: bool, c8: bool,
    c7: bool, c6: bool, c5: bool, c4: bool,
    c3: bool, c2: bool, c1: bool, c0: bool)

  function Zero(): Register {
    Register(
      false, false, false, false,
      false, false, false, false,
      false, false, false, false,
      false, false, false, false)
  }

  /** x^k for k below 16. */
  function Monomial(k: nat): Register {
    Register(
      k == 15, k == 14, k == 13, k == 12,
      k == 11, k == 10, k == 9, k == 8,
      k == 7, k == 6, k == 5, k == 4,
      k == 3, k == 2, k == 1, k == 0)
  }

  function Add(c: Register, d: Register): Register {
    Register(
      c.c15 != d.c15, c.c14 != d.c14, c.c13 != d.c13, c.c12 != d.c12,
      c.c11 != d.c11, c.c10 != d.c10, c.c9 != d.c9, c.c8 != d.c8,
      c.c7 != d.c7, c.c6 != d.c6, c.c5 != d.c5, c.c4 != d.c4,
      c.c3 != d.c3, c.c2 != d.c2, c.c1 != d.c1, c.c0 != d.c0)
  }

  function Scale(b: bool, c: Register): Register {
    if b then c else Zero()
  }

  /** One turn of the inner loop: shift left, subtract G when the bit shifted out differs from the data bit. */
  function Step(c: Register, bit: bool): Register {
    var f := bit != c.c15;
    Register(
      c.c14 != f, c.c13, c.c12, c.c11,
      c.c10, c.c9, c.c8, c.c7,
      c.c6, c.c5, c.c4, c.c3,
      c.c2, c.c1 != f, c.c0, f)
  }

  function Feed(c: Register, bits: seq<bool>): Register
    decreases |bits|
  {
    if bits == [] then c else Feed(Step(c, bits[0]), bits[1..])
  }

  /** The checksum of a bit string. */
  function Crc(bits: seq<bool>): Register {
    Feed(Zero(), bits)
  }

  /** Multiplication by x modulo G. */
  function MulX(c: Register): Register {
    Step(c, false)
  }

  /** x^k modulo G. */
  function XPow(k: nat): Register {
    if k == 0 then Monomial(0) else MulX(XPow(k - 1))
  }

  /** M(x) * x^e modulo G: the sum of the powers of x that the set bits contribute. */
  function Residue(bits: seq<bool>, e: nat): Register {
    if bits == [] then Zero()
    else Add(Scale(bits[0], XPow(|bits| - 1 + e)), Residue(bits[1..], e))
  }

  // ---- Linearity ----

  lemma AddCommutes(c: Register, d: Register)
    ensures Add(c, d) == Add(d, c)
  {
  }

  lemma AddZero(c: Register)
    ensures Add(c, Zero()) == c
  {
  }

  lemma AddToZero(c: Register, d: Register)
    ensures Add(c, d) == Zero() <==> c == d
  {
  }

  lemma StepLinear(c: Register, d: Register, b: bool, e: bool)
    ensures Step(Add(c, d), b != e) == Add(Step(c, b), Step(d, e))
  {
  }

  lemma StepInjective(c: Register, d: Register, b: bool)
    requires Step(c, b) == Step(d, b)
    ensures c == d
  {
  }

  lemma XorTail(u: seq<bool>, v: seq<bool>)
    requires |u| == |v| > 0
    ensures Xor(u, v)[0] == (u[0] != v[0]) && Xor(u, v)[1..] == Xor(u[1..], v[1..])
  {
  }

  lemma {:induction false} FeedLinear(c: Register, d: Register, u: seq<bool>, v: seq<bool>)
    requires |u| == |v|
    ensures Feed(Add(c, d), Xor(u, v)) == Add(Feed(c, u), Feed(d, v))
    decreases |u|
  {
    hide Add, Step, Xor;
    if u != [] {
      StepLinear(c, d, u[0], v[0]);
      XorTail(u, v);
      FeedLinear(Step(c, u[0]), Step(d, v[0]), u[1..], v[1..]);
    }
  }

  /** The checksum is linear: the checksum of a difference is the difference of the checksums. */
  lemma CrcLinear(u: seq<bool>, v: seq<bool>)
    requires |u| == |v|
    ensures Crc(Xor(u, v)) == Add(Crc(u), Crc(v))
  {
    hide Step;
    AddZero(Zero());
    FeedLinear(Zero(), Zero(), u, v);
  }

  lemma {:induction false} FeedAppend(c: Register, u: seq<bool>, v: seq<bool>)
    ensures Feed(c, u + v) == Feed(Feed(c, u), v)
    decreases |u|
  {
    if u == [] {
      assert u + v == v;
    } else {
      assert (u + v)[1..] == u[1..] + v;
      FeedAppend(Step(c, u[0]), u[1..], v);
    }
  }

  lemma {:induction false} FeedInjective(c: Register, d: Register, s: seq<bool>)
    requires Feed(c, s) == Feed(d, s)
    ensures c == d
    decreases |s|
  {
    if s != [] {
      FeedInjective(Step(c, s[0]), Step(d, s[0]), s[1..]);
      StepInjective(c, d, s[0]);
    }
  }

  lemma {:induction false} FeedZerosPower(k: nat, n: nat)
    ensures Feed(XPow(k), Zeros(n)) == XPow(k + n)
    decreases n
  {
    hide Step;
    if n > 0 {
      assert Zeros(n)[1..] == Zeros(n - 1);
      assert Step(XPow(k), false) == XPow(k + 1);
      FeedZerosPower(k + 1, n - 1);
    }
  }

  lemma {:induction false} FeedZeros(n: nat)
    ensures Feed(Zero(), Zeros(n)) == Zero()
  {
    if n > 0 {
      assert Zeros(n)[1..] == Zeros(n - 1);
      FeedZeros(n - 1);
    }
  }

  lemma StepMonomial(k: nat)
    requires k < 15
    ensures Step(Monomial(k), false) == Monomial(k + 1)
  {
  }

  lemma StepFromZero(b: bool)
    ensures Step(Zero(), b) == Scale(b, MulX(Monomial(15)))
  {
  }

  /** Below 16 nothing wraps: x^k is a single coefficient. */
  lemma {:induction false} PowerBelow16(k: nat)
    requires k < 16
    ensures XPow(k) == Monomial(k)
  {
    if k > 0 {
      PowerBelow16(k - 1);
      StepMonomial(k - 1);
    }
  }

  /** The loop computes M(x) * x^16 mod G, read off directly from the set bits. */
  lemma {:induction false} CrcIsResidue(bits: seq<bool>)
    ensures Crc(bits) == Residue(bits, 16)
  {
    hide Add, Step, Monomial;
    if bits != [] {
      var rest := bits[1..];
      CrcIsResidue(rest);
      var c := Step(Zero(), bits[0]);
      FeedFromAnywhere(c, rest);
      PowerBelow16(15);
      StepFromZero(bits[0]);
      FeedZerosPower(16, |rest|);
      FeedZeros(|rest|);
      assert c == Scale(bits[0], XPow(16));
    }
  }

  /** What a start value adds to a checksum does not depend on the data. */
  lemma FeedFromAnywhere(c: Register, s: seq<bool>)
    ensures Feed(c, s) == Add(Feed(c, Zeros(|s|)), Crc(s))
  {
    hide Add, Step;
    FeedLinear(c, Zero(), Zeros(|s|), s);
    assert Xor(Zeros(|s|), s) == s;
    AddZero(c);
  }

  // ---- Parity: x + 1 divides G ----

  predicate OddHigh(c: Register) {
    ((c.c15 != c.c14) != (c.c13 != c.c12)) != ((c.c11 != c.c10) != (c.c9 != c.c8))
  }

  predicate OddLow(c: Register) {
    ((c.c7 != c.c6) != (c.c5 != c.c4)) != ((c.c3 != c.c2) != (c.c1 != c.c0))
  }

  /** Whether an odd number of coefficients is set: the value at x = 1. */
  predicate Odd(c: Register) {
    OddHigh(c) != OddLow(c)
  }

  lemma StepOddHigh(c: Register, b: bool)
    ensures OddHigh(Step(c, b)) == ((OddHigh(c) != b) != c.c7)
  {
  }

  lemma StepOddLow(c: Register, b: bool)
    ensures OddLow(Step(c, b)) == (OddLow(c) != c.c7)
  {
  }

  /** Every turn of the loop adds the data bit to the parity of the register. */
  lemma StepParity(c: Register, b: bool)
    ensures Odd(Step(c, b)) == (Odd(c) != b)
  {
    hide OddHigh, OddLow, Step;
    StepOddHigh(c, b);
    StepOddLow(c, b);
  }

  /** The parity invariant: the register has an odd number of set bits exactly when the data fed to it has. */
  lemma {:induction false} CrcParity(c: Register, s: seq<bool>)
    ensures Odd(Feed(c, s)) == (Odd(c) != (Weight(s) % 2 == 1))
    decreases |s|
  {
    if s != [] {
      StepParity(c, s[0]);
      CrcParity(Step(c, s[0]), s[1..]);
    }
  }

  /** A register written as a 16-bit word. */
  function Word(w: bv16): Register {
    Register(
      w & 0x8000 != 0, w & 0x4000 != 0, w & 0x2000 != 0, w & 0x1000 != 0,
      w & 0x0800 != 0, w & 0x0400 != 0, w & 0x0200 != 0, w & 0x0100 != 0,
      w & 0x0080 != 0, w & 0x0040 != 0, w & 0x0020 != 0, w & 0x0010 != 0,
      w & 0x0008 != 0, w & 0x0004 != 0, w & 0x0002 != 0, w & 0x0001 != 0)
  }
}
