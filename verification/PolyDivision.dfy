/**
 The checksum as schoolbook polynomial division: the remainder of M(x) * x^16 by
 G(x) = x^16 + x^15 + x^2 + 1, with an explicit quotient, and the only one there is.
 Polynomials are coefficient strings, highest power first.
 */
module PolyDivision {
  import opened Bits
  import opened Gf2

  predicate CoefficientAt(q: seq<bool>, i: int) {
    0 <= i < |q| && q[i]
  }

  /** One coefficient of q(x) * G(x): the sum over the four terms of G. */
  predicate ProductAt(q: seq<bool>, i: nat) {
    (CoefficientAt(q, i) != CoefficientAt(q, i - 1)) != (CoefficientAt(q, i - 14) != CoefficientAt(q, i - 16))
  }

  /** q(x) * G(x) */
  function TimesG(q: seq<bool>): (p: seq<bool>)
    ensures |p| == |q| + 16
    ensures forall i :: 0 <= i < |p| ==> p[i] == ProductAt(q, i)
  {
    seq(|q| + 16, i requires 0 <= i => ProductAt(q, i))
  }

  /** The quotient: one coefficient for every turn of the loop, set when G was subtracted. */
  function Quotient(m: seq<bool>): (q: seq<bool>)
    ensures |q| == |m|
  {
    if m == [] then []
    else
      var k := |m| - 1;
      Quotient(m[..k]) + [m[k] != Crc(m[..k]).c15]
  }

  /** Coefficient number i of a register, counted from the top. */
  predicate FromTop(c: Register, i: nat) {
    if i < 8 then
      if i < 4 then
        if i == 0 then c.c15 else if i == 1 then c.c14 else if i == 2 then c.c13 else c.c12
      else
        if i == 4 then c.c11 else if i == 5 then c.c10 else if i == 6 then c.c9 else c.c8
    else if i < 12 then
      if i == 8 then c.c7 else if i == 9 then c.c6 else if i == 10 then c.c5 else c.c4
    else
      if i == 12 then c.c3 else if i == 13 then c.c2 else if i == 14 then c.c1 else i == 15 && c.c0
  }

  function RegisterBits(c: Register): (s: seq<bool>)
    ensures |s| == 16
    ensures forall i :: 0 <= i < 16 ==> s[i] == FromTop(c, i)
  {
    seq(16, i requires 0 <= i => FromTop(c, i))
  }

  lemma StepFromTop(c: Register, b: bool, i: nat)
    requires i < 16
    ensures FromTop(Step(c, b), i) ==
            (FromTop(c, i + 1) != ((b != c.c15) && (i == 0 || i == 13 || i == 15)))
  {
    if i < 8 {
      StepFromTopHigh(c, b, i);
    } else {
      StepFromTopLow(c, b, i);
    }
  }

  lemma StepFromTopHigh(c: Register, b: bool, i: nat)
    requires i < 8
    ensures FromTop(Step(c, b), i) == (FromTop(c, i + 1) != ((b != c.c15) && i == 0))
  {
  }

  lemma StepFromTopLow(c: Register, b: bool, i: nat)
    requires 8 <= i < 16
    ensures FromTop(Step(c, b), i) == (FromTop(c, i + 1) != ((b != c.c15) && (i == 13 || i == 15)))
  {
  }

  lemma FeedSnoc(m: seq<bool>)
    requires m != []
    ensures Crc(m) == Step(Crc(m[..|m| - 1]), m[|m| - 1])
  {
    var k := |m| - 1;
    assert m == m[..k] + [m[k]];
    FeedAppend(Zero(), m[..k], [m[k]]);
    assert [m[k]][1..] == [];
  }

  lemma ProductOfPrefix(q: seq<bool>, f: bool, i: nat)
    ensures ProductAt(q + [f], i) ==
            (ProductAt(q, i) != (f && (i == |q| || i == |q| + 1 || i == |q| + 14 || i == |q| + 16)))
  {
    var p := q + [f];
    assert CoefficientAt(p, i) == (CoefficientAt(q, i) != (f && i == |q|));
    assert CoefficientAt(p, i - 1) == (CoefficientAt(q, i - 1) != (f && i - 1 == |q|));
    assert CoefficientAt(p, i - 14) == (CoefficientAt(q, i - 14) != (f && i - 14 == |q|));
    assert CoefficientAt(p, i - 16) == (CoefficientAt(q, i - 16) != (f && i - 16 == |q|));
  }

  /** Coefficient i of quotient * G: the message first, then the register. */
  lemma {:induction false} QuotientCoefficient(m: seq<bool>, i: nat)
    requires i < |m| + 16
    ensures ProductAt(Quotient(m), i) == if i < |m| then m[i] else FromTop(Crc(m), i - |m|)
    decreases |m|
  {
    hide Feed, Step, FromTop, ProductAt;
    if m == [] {
      EmptyQuotient(i);
    } else {
      var k := |m| - 1;
      var t := m[..k];
      var f := m[k] != Crc(t).c15;
      ProductOfPrefix(Quotient(t), f, i);
      if i < k + 16 {
        QuotientCoefficient(t, i);
      } else {
        BeyondProduct(Quotient(t), i);
      }
      FeedSnoc(m);
      TopBit(Crc(t));
      if i >= |m| {
        StepFromTop(Crc(t), m[k], i - |m|);
      }
    }
  }

  lemma EmptyQuotient(i: nat)
    ensures !ProductAt(Quotient([]), i) && !FromTop(Crc([]), i)
  {
  }

  lemma BeyondProduct(q: seq<bool>, i: nat)
    requires i >= |q| + 16
    ensures !ProductAt(q, i)
  {
  }

  lemma TopBit(c: Register)
    ensures FromTop(c, 0) == c.c15 && !FromTop(c, 16)
  {
  }

  /** M(x) * x^16 == Quotient(x) * G(x) + Crc(x): the loop divides, and the register is the remainder. */
  lemma Division(m: seq<bool>)
    ensures m + Zeros(16) == Xor(TimesG(Quotient(m)), Zeros(|m|) + RegisterBits(Crc(m)))
  {
    hide ProductAt, FromTop, Feed, Quotient, TimesG, RegisterBits;
    var l := m + Zeros(16);
    var r := Xor(TimesG(Quotient(m)), Zeros(|m|) + RegisterBits(Crc(m)));
    forall i | 0 <= i < |l| ensures l[i] == r[i] {
      QuotientCoefficient(m, i);
    }
  }

  /** The leading coefficients of q * G determine q. */
  lemma {:induction false} ProductDetermines(q: seq<bool>, p: seq<bool>, n: nat)
    requires |q| == |p| && n <= |q|
    requires forall i: nat :: i < |q| ==> ProductAt(q, i) == ProductAt(p, i)
    ensures q[..n] == p[..n]
  {
    if n > 0 {
      var k := n - 1;
      ProductDetermines(q, p, k);
      assert forall i :: 0 <= i < k ==> q[i] == q[..k][i] == p[..k][i] == p[i];
      assert ProductAt(q, k) == ProductAt(p, k);
      assert CoefficientAt(q, k - 1) == CoefficientAt(p, k - 1);
      assert CoefficientAt(q, k - 14) == CoefficientAt(p, k - 14);
      assert CoefficientAt(q, k - 16) == CoefficientAt(p, k - 16);
      assert q[..n] == q[..k] + [q[k]] && p[..n] == p[..k] + [p[k]];
    }
  }

  /** Quotient and remainder are unique: any other way of writing M(x) * x^16 gives the same remainder. */
  lemma RemainderUnique(m: seq<bool>, q: seq<bool>, r: seq<bool>)
    requires |q| == |m| && |r| == 16
    requires m + Zeros(16) == Xor(TimesG(q), Zeros(|m|) + r)
    ensures q == Quotient(m) && r == RegisterBits(Crc(m))
  {
    hide ProductAt, FromTop, Feed, Quotient, TimesG, RegisterBits;
    var l := m + Zeros(16);
    forall i: nat | i < |m| ensures ProductAt(q, i) == ProductAt(Quotient(m), i) {
      assert l[i] == TimesG(q)[i];
      QuotientCoefficient(m, i);
    }
    ProductDetermines(q, Quotient(m), |m|);
    assert q[..|m|] == q && Quotient(m)[..|m|] == Quotient(m);
    forall i | 0 <= i < 16 ensures r[i] == RegisterBits(Crc(m))[i] {
      assert l[|m| + i] == (TimesG(q)[|m| + i] != (Zeros(|m|) + r)[|m| + i]);
      QuotientCoefficient(m, |m| + i);
    }
  }
}
