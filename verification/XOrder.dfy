/**
 The order of x modulo G is exactly 32767 = 7 * 31 * 151: repeated squaring gives
 x^32767 = 1 and shows that no quotient of 32767 by one of its prime factors will do.
 */
module XOrder {
  import opened Gf2

  const ORDER: nat := 32767

  /** Squaring modulo G, which sends x^k to x^(2k), on the coefficients. */
  function Square(c: Register): Register {
    SquareWith(c, Middle(c))
  }

  predicate Middle(c: Register) {
    (c.c14 != c.c13) != ((c.c12 != c.c11) != (c.c10 != c.c9))
  }

  function SquareWith(c: Register, h: bool): Register {
    Register(
      (c.c15 != h) != c.c8, c.c14 != c.c7, c.c14, c.c13 != c.c6,
      c.c13, c.c12 != c.c5, c.c12, c.c11 != c.c4,
      c.c11, c.c10 != c.c3, c.c10, c.c9 != c.c2,
      c.c9, (c.c15 != c.c8) != c.c1, c.c15 != h, (h != c.c8) != c.c0)
  }

  lemma SquareMulX(c: Register)
    ensures Square(MulX(c)) == MulX(MulX(Square(c)))
  {
    hide SquareWith, Step;
    MiddleMulX(c);
    SquareWithMulX(c, Middle(c));
  }

  lemma MiddleMulX(c: Register)
    ensures Middle(MulX(c)) == ((Middle(c) != c.c14) != c.c8)
  {
  }

  lemma SquareWithMulXHigh(c: Register, h: bool, l: Register, r: Register)
    requires l == SquareWith(MulX(c), (h != c.c14) != c.c8)
    requires r == MulX(MulX(SquareWith(c, h)))
    ensures l.c15 == r.c15 && l.c14 == r.c14 && l.c13 == r.c13 && l.c12 == r.c12
    ensures l.c11 == r.c11 && l.c10 == r.c10 && l.c9 == r.c9 && l.c8 == r.c8
  {
  }

  lemma SquareWithMulXLow(c: Register, h: bool, l: Register, r: Register)
    requires l == SquareWith(MulX(c), (h != c.c14) != c.c8)
    requires r == MulX(MulX(SquareWith(c, h)))
    ensures l.c7 == r.c7 && l.c6 == r.c6 && l.c5 == r.c5 && l.c4 == r.c4
    ensures l.c3 == r.c3 && l.c2 == r.c2 && l.c1 == r.c1 && l.c0 == r.c0
  {
  }

  lemma SquareWithMulX(c: Register, h: bool)
    ensures SquareWith(MulX(c), (h != c.c14) != c.c8) == MulX(MulX(SquareWith(c, h)))
  {
    hide SquareWith, Step;
    var l := SquareWith(MulX(c), (h != c.c14) != c.c8);
    var r := MulX(MulX(SquareWith(c, h)));
    SquareWithMulXHigh(c, h, l, r);
    SquareWithMulXLow(c, h, l, r);
  }

  /** Squaring doubles the exponent. */
  lemma {:induction false} SquarePower(k: nat)
    ensures XPow(2 * k) == Square(XPow(k))
  {
    if k == 0 {
      assert Square(Monomial(0)) == Monomial(0);
    } else {
      hide Square, Step;
      assert XPow(2 * k - 1) == MulX(XPow(2 * k - 2));
      SquarePower(k - 1);
      SquareMulX(XPow(k - 1));
      assert XPow(2 * k) == MulX(XPow(2 * k - 1)) == MulX(MulX(XPow(2 * k - 2)));
    }
  }

  /** One step of computing a power by repeated squaring. */
  lemma Doubling(k: nat, c: bv16, odd: bool, d: bv16)
    requires XPow(k) == Word(c)
    requires Word(d) == if odd then MulX(Square(Word(c))) else Square(Word(c))
    ensures XPow(2 * k + (if odd then 1 else 0)) == Word(d)
  {
    hide Square, Step, Word;
    SquarePower(k);
  }

  lemma PowerOne()
    ensures XPow(1) == Word(0x0002)
  {
    assert XPow(1) == MulX(XPow(0)) == Step(Monomial(0), false);
  }

  lemma Power32767(n: nat)
    requires n + 1 == 32768
    ensures XPow(n) == Word(0x0001)
  {
    PowerOne();
    hide XPow;
    Doubling(1, 0x0002, true, 0x0008);
    Doubling(3, 0x0008, true, 0x0080);
    Doubling(7, 0x0080, true, 0x8000);
    Doubling(15, 0x8000, true, 0x8009);
    Doubling(31, 0x8009, true, 0x808B);
    Doubling(63, 0x808B, true, 0x0083);
    Doubling(127, 0x0083, true, 0x800A);
    Doubling(255, 0x800A, true, 0x8081);
    Doubling(511, 0x8081, true, 0x000B);
    Doubling(1023, 0x000B, true, 0x008A);
    Doubling(2047, 0x008A, true, 0x8088);
    Doubling(4095, 0x8088, true, 0x0089);
    Doubling(8191, 0x0089, true, 0x8082);
    Doubling(16383, 0x8082, true, 0x0001);
  }

  lemma Power4681(n: nat)
    requires n + 1 == 4682
    ensures XPow(n) == Word(0x9631)
  {
    PowerOne();
    hide XPow;
    Doubling(1, 0x0002, false, 0x0004);
    Doubling(2, 0x0004, false, 0x0010);
    Doubling(4, 0x0010, true, 0x0200);
    Doubling(9, 0x0200, false, 0x801B);
    Doubling(18, 0x801B, false, 0x8143);
    Doubling(36, 0x8143, true, 0x200C);
    Doubling(73, 0x200C, false, 0x9853);
    Doubling(146, 0x9853, false, 0x9683);
    Doubling(292, 0x9683, true, 0x8CF0);
    Doubling(585, 0x8CF0, false, 0xD4E6);
    Doubling(1170, 0xD4E6, false, 0x3271);
    Doubling(2340, 0x3271, true, 0x9631);
  }

  lemma Power1057(n: nat)
    requires n + 1 == 1058
    ensures XPow(n) == Word(0x8273)
  {
    PowerOne();
    hide XPow;
    Doubling(1, 0x0002, false, 0x0004);
    Doubling(2, 0x0004, false, 0x0010);
    Doubling(4, 0x0010, false, 0x0100);
    Doubling(8, 0x0100, false, 0x8005);
    Doubling(16, 0x8005, true, 0x802B);
    Doubling(33, 0x802B, false, 0x8443);
    Doubling(66, 0x8443, false, 0x1060);
    Doubling(132, 0x1060, false, 0x9203);
    Doubling(264, 0x9203, false, 0x861B);
    Doubling(528, 0x861B, true, 0x8273);
  }

  lemma Power217(n: nat)
    requires n + 1 == 218
    ensures XPow(n) == Word(0xAA7C)
  {
    PowerOne();
    hide XPow;
    Doubling(1, 0x0002, true, 0x0008);
    Doubling(3, 0x0008, false, 0x0040);
    Doubling(6, 0x0040, true, 0x2000);
    Doubling(13, 0x2000, true, 0xB003);
    Doubling(27, 0xB003, false, 0x9E03);
    Doubling(54, 0x9E03, false, 0x87FB);
    Doubling(108, 0x87FB, true, 0xAA7C);
  }

  lemma {:induction false} PowerShift(a: nat, b: nat)
    requires XPow(a) == XPow(0)
    ensures XPow(a + b) == XPow(b)
  {
    hide Step;
    if b > 0 {
      PowerShift(a, b - 1);
    }
  }

  lemma {:induction false} PowerCancel(a: nat, b: nat)
    requires a <= b && XPow(a) == XPow(b)
    ensures XPow(b - a) == XPow(0)
  {
    hide Step;
    if a > 0 {
      StepInjective(XPow(a - 1), XPow(b - 1), false);
      PowerCancel(a - 1, b - 1);
    }
  }

  lemma {:induction false} PowerMultiple(d: nat, q: nat, r: nat)
    requires XPow(d) == XPow(0)
    ensures XPow(q * d + r) == XPow(r)
  {
    if q > 0 {
      PowerMultiple(d, q - 1, r);
      PowerShift(d, (q - 1) * d + r);
      assert d + ((q - 1) * d + r) == q * d + r;
    }
  }

  /** x to the power n is 1: n is a period. */
  predicate Period(n: nat) {
    n > 0 && XPow(n) == XPow(0)
  }

  lemma PeriodMultiple(d: nat, q: nat)
    requires Period(d) && q > 0
    ensures Period(q * d)
  {
    PowerMultiple(d, q, 0);
    assert q * d > 0;
  }

  lemma {:induction false} LeastPeriod(n: nat) returns (d: nat)
    requires Period(n)
    ensures Period(d)
    ensures forall e: nat :: Period(e) ==> d <= e
  {
    hide XPow;
    if e: nat :| e < n && Period(e) {
      d := LeastPeriod(e);
    } else {
      d := n;
    }
  }

  lemma LeastPeriodDivides(d: nat, n: nat)
    requires Period(d) && (forall e: nat :: Period(e) ==> d <= e)
    requires XPow(n) == XPow(0)
    ensures n % d == 0
  {
    hide XPow;
    var q, r := n / d, n % d;
    assert n == q * d + r;
    PowerMultiple(d, q, r);
    assert !Period(r);
  }

  lemma DivisorsTo90(n: nat)
    requires 1 < n <= 90 && n != 7 && n != 31
    ensures 32767 % n != 0
  {
  }

  lemma DivisorsTo181(n: nat)
    requires 90 < n <= 181 && n != 151
    ensures 32767 % n != 0
  {
  }

  /** 32767 = 7 * 31 * 151. */
  lemma SmallDivisors(n: nat)
    requires 0 < n <= 181 && 32767 % n == 0
    ensures n == 1 || n == 7 || n == 31 || n == 151
  {
    if 1 < n <= 90 && n != 7 && n != 31 {
      DivisorsTo90(n);
    } else if n > 90 && n != 151 {
      DivisorsTo181(n);
    }
  }

  lemma PowerZero()
    ensures XPow(0) == Monomial(0) == Word(0x0001)
  {
  }

  lemma TopBitSet(w: bv16)
    requires w & 0x8000 != 0
    ensures Word(w) != Monomial(0)
  {
  }

  /** 32767 is a period, but none of its quotients by a prime factor is. */
  lemma Periods(n: nat, a: nat, b: nat, c: nat)
    requires n + 1 == 0x8000 && a + 1 == 4682 && b + 1 == 1058 && c + 1 == 218
    ensures Period(n) && !Period(a) && !Period(b) && !Period(c)
  {
    hide XPow, Word, Monomial;
    PowerZero();
    Power32767(n);
    Power4681(a);
    Power1057(b);
    Power217(c);
    TopBitSet(0x9631);
    TopBitSet(0x8273);
    TopBitSet(0xAA7C);
  }

  lemma SmallCofactor(d: nat, q: nat)
    requires d * q == ORDER && d > 181
    ensures 0 < q <= 181
  {
    ProductAtLeast(d, q);
  }

  lemma ProductAtLeast(d: nat, q: nat)
    requires d >= 182
    ensures d * q >= 182 * q
  {
  }

  lemma DivisorIsNoPeriod(d: nat, q: nat)
    requires d * q + 1 == 0x8000 && Period(d)
    ensures q == 1
  {
    hide Period;
    Periods(ORDER, 4681, 1057, 217);
    if d <= 181 {
      assert ORDER % d == 0 by { assert ORDER == q * d; ExactDivision(d, q); }
      SmallDivisors(d);
      if d == 151 {
        PeriodMultiple(d, 7);
      } else {
        PeriodMultiple(d, if d == 1 then 217 else if d == 7 then 31 else 7);
      }
    } else {
      SmallCofactor(d, q);
      assert ORDER % q == 0 by { ExactDivision(q, d); }
      SmallDivisors(q);
    }
  }

  lemma ExactDivision(d: nat, q: nat)
    requires d > 0 && q * d == ORDER
    ensures ORDER % d == 0
  {
    assert ORDER / d == q;
  }

  lemma EqualPowersApart(a: nat, b: nat)
    requires a <= b && XPow(a) == XPow(b)
    ensures (b - a) % ORDER == 0
  {
    hide XPow, Period;
    Periods(ORDER, 4681, 1057, 217);
    PowerCancel(a, b);
    var d := LeastPeriod(ORDER);
    PeriodIsPower(ORDER);
    LeastPeriodDivides(d, ORDER);
    PeriodIsPower(d);
    DivisorIsNoPeriod(d, ORDER / d);
    LeastPeriodDivides(d, b - a);
  }

  lemma PeriodIsPower(n: nat)
    requires Period(n)
    ensures n > 0 && XPow(n) == XPow(0)
  {
    hide XPow;
  }

  lemma PowersApart(a: nat, q: nat, n: nat)
    requires n + 1 == 0x8000
    ensures XPow(q * n + a) == XPow(a)
  {
    hide XPow;
    Periods(n, 4681, 1057, 217);
    PeriodIsPower(n);
    PowerMultiple(n, q, a);
  }

  /** The order of x modulo G is exactly 32767. */
  lemma PowersEqual(a: nat, b: nat)
    requires a <= b
    ensures XPow(a) == XPow(b) <==> (b - a) % ORDER == 0
  {
    hide XPow;
    if XPow(a) == XPow(b) {
      EqualPowersApart(a, b);
    }
    if (b - a) % ORDER == 0 {
      PowersApart(a, (b - a) / ORDER, ORDER);
      assert (b - a) / ORDER * ORDER + a == b;
    }
  }
}
