/** uint32_from_4_bytes of tools.c and number_from_string of dnsmagic.c: 32-bit arithmetic with its wrap-around. */
module KeyOrigin {
  import opened Bits

  const TWO_TO_THE_8: nat := 0x100
  const TWO_TO_THE_16: nat := 0x1_0000
  const TWO_TO_THE_24: nat := 0x100_0000
  const TWO_TO_THE_32: nat := 0x1_0000_0000

  /** Or with a byte, where the low eight bits are clear. */
  function OrByte(res: nat, b: byte): nat
    requires res % TWO_TO_THE_8 == 0
  {
    res + Value(b)
  }

  function ShiftLeft(res: nat, factor: nat): nat {
    res * factor % TWO_TO_THE_32
  }

  /** The value the four bytes fold to: the shifts add up, so the first byte is shifted out. */
  function Fold(data: seq<byte>): nat
    requires |data| >= 4
  {
    Value(data[1]) * TWO_TO_THE_24 + Value(data[2]) * TWO_TO_THE_8 + Value(data[3])
  }

  function BigEndian(data: seq<byte>): nat
    requires |data| >= 4
  {
    Value(data[0]) * TWO_TO_THE_24 + Value(data[1]) * TWO_TO_THE_16 + Value(data[2]) * TWO_TO_THE_8 + Value(data[3])
  }

  /** uint32_from_4_bytes */
  method Uint32From4Bytes(data: seq<byte>) returns (res: nat)
    requires |data| >= 4
    ensures res == Fold(data)
    ensures res == Value(data[1]) * 0x100_0000 + Value(data[2]) * 0x100 + Value(data[3])
  {
    hide Value, ShiftLeft;
    res := 0;
    res := OrByte(res, data[0]);
    FirstShift(Value(data[0]));
    res := ShiftLeft(res, TWO_TO_THE_24);
    res := OrByte(res, data[1]);
    SecondShift(Value(data[0]), Value(data[1]));
    res := ShiftLeft(res, TWO_TO_THE_16);
    res := OrByte(res, data[2]);
    ThirdShift(Value(data[1]), Value(data[2]));
    res := ShiftLeft(res, TWO_TO_THE_8);
    res := OrByte(res, data[3]);
  }

  lemma FirstShift(a: nat)
    requires a < 256
    ensures ShiftLeft(a, TWO_TO_THE_24) == a * TWO_TO_THE_24
    ensures ShiftLeft(a, TWO_TO_THE_24) % TWO_TO_THE_8 == 0
  {
  }

  /** The first byte is shifted out. */
  lemma SecondShift(a: nat, b: nat)
    requires a < 256 && b < 256
    ensures ShiftLeft(a * TWO_TO_THE_24 + b, TWO_TO_THE_16) == b * TWO_TO_THE_16
    ensures b * TWO_TO_THE_16 % TWO_TO_THE_8 == 0
  {
    assert (a * TWO_TO_THE_24 + b) * TWO_TO_THE_16 == a * TWO_TO_THE_8 * TWO_TO_THE_32 + b * TWO_TO_THE_16;
    Wrapped(a * TWO_TO_THE_8, b * TWO_TO_THE_16);
  }

  lemma Wrapped(k: nat, low: nat)
    requires low < TWO_TO_THE_32
    ensures (k * TWO_TO_THE_32 + low) % TWO_TO_THE_32 == low
  {
  }

  lemma ThirdShift(b: nat, c: nat)
    requires b < 256 && c < 256
    ensures ShiftLeft(b * TWO_TO_THE_16 + c, TWO_TO_THE_8) == b * TWO_TO_THE_24 + c * TWO_TO_THE_8
    ensures (b * TWO_TO_THE_24 + c * TWO_TO_THE_8) % TWO_TO_THE_8 == 0
  {
  }

  /** The fold is the big-endian value exactly when the first two bytes are zero. */
  lemma FoldIsBigEndian(data: seq<byte>)
    requires |data| >= 4
    ensures Fold(data) == BigEndian(data) <==> Value(data[0]) == 0 && Value(data[1]) == 0
  {
    hide Value;
  }

  lemma Multiple(k: int, low: int)
    ensures (k * 256 + low) % 256 == low % 256
  {
  }

  /** Both agree in the last byte, which is all that slot selection uses. */
  lemma FoldLowByte(data: seq<byte>)
    requires |data| >= 4
    ensures Fold(data) % 256 == BigEndian(data) % 256 == Value(data[3])
    ensures Fold(data) < TWO_TO_THE_32
  {
    hide Value;
    var a, b, c, low := Value(data[0]), Value(data[1]), Value(data[2]), Value(data[3]);
    assert Fold(data) == (b * 0x1_0000 + c) * 256 + low;
    assert BigEndian(data) == (a * 0x1_0000 + b * 256 + c) * 256 + low;
    Multiple(b * 0x1_0000 + c, low);
    Multiple(a * 0x1_0000 + b * 256 + c, low);
  }

  // ---- Decimal strings ----

  predicate IsDecimal(s: string) {
    forall i :: 0 <= i < |s| ==> '0' <= s[i] <= '9'
  }

  /** The number a string of digits spells. */
  function DecimalValue(s: string): nat
    requires IsDecimal(s)
  {
    if s == "" then 0 else 10 * DecimalValue(s[..|s| - 1]) + (s[|s| - 1] as int - '0' as int)
  }

  /** A character minus '0', kept in an unsigned char. */
  function DigitByte(c: char): (d: nat)
    ensures d < 256
  {
    (c as int - '0' as int) % 256
  }

  /** number_from_string, for any characters. */
  function Accumulated(s: string): (n: nat)
    ensures n < TWO_TO_THE_32
  {
    if s == "" then 0
    else ((Accumulated(s[..|s| - 1]) * 10 % TWO_TO_THE_32) + DigitByte(s[|s| - 1])) % TWO_TO_THE_32
  }

  method NumberFromString(len: nat, str: string) returns (res: nat)
    requires len <= |str|
    ensures res == Accumulated(str[..len])
  {
    res := 0;
    for i := 0 to len
      invariant res == Accumulated(str[..i])
    {
      assert str[..i + 1][..i] == str[..i];
      var digit := DigitByte(str[i]);
      res := res * 10 % TWO_TO_THE_32;
      res := (res + digit) % TWO_TO_THE_32;
    }
  }

  function TenTo(n: nat): nat {
    if n == 0 then 1 else 10 * TenTo(n - 1)
  }

  /** Every character counts with its distance from '0', modulo 256, in its decimal place. */
  function Weighted(s: string): nat {
    if s == "" then 0 else (s[0] as int - 48) % 256 * TenTo(|s| - 1) + Weighted(s[1..])
  }

  lemma {:induction false} WeightedLast(s: string, c: char)
    ensures Weighted(s + [c]) == 10 * Weighted(s) + (c as int - 48) % 256
  {
    if s == "" {
      assert (s + [c])[1..] == "";
    } else {
      assert (s + [c])[1..] == s[1..] + [c];
      WeightedLast(s[1..], c);
      PlaceShift((s[0] as int - 48) % 256, TenTo(|s| - 1), Weighted(s[1..]));
    }
  }

  lemma PlaceShift(d: nat, t: nat, w: nat)
    ensures d * (10 * t) + 10 * w == 10 * (d * t + w)
  {
  }

  /** The accumulating loop computes that sum modulo 2^32, for any characters. */
  lemma {:induction false} AccumulatedWeighted(s: string)
    ensures Accumulated(s) == Weighted(s) % 0x1_0000_0000
  {
    if s != "" {
      var t, c := s[..|s| - 1], s[|s| - 1];
      AccumulatedWeighted(t);
      assert s == t + [c];
      WeightedLast(t, c);
      hide Weighted;
      CharacterCode(c);
      hide DigitByte;
      ModularSum(Weighted(t), DigitByte(c));
    }
  }

  lemma CharacterCode(c: char)
    ensures DigitByte(c) == (c as int - 48) % 256
  {
  }

  lemma DigitOfDecimal(c: char)
    requires '0' <= c <= '9'
    ensures DigitByte(c) == c as int - '0' as int < 10
  {
  }

  /** Digits accumulate to the decimal value, modulo 2^32. */
  lemma {:induction false} AccumulatedDecimal(s: string)
    requires IsDecimal(s)
    ensures Accumulated(s) == DecimalValue(s) % TWO_TO_THE_32
  {
    if s != "" {
      var t, c := s[..|s| - 1], s[|s| - 1];
      AccumulatedDecimal(t);
      DigitOfDecimal(c);
      hide DigitByte;
      ModularStep(DecimalValue(t), DigitByte(c));
    }
  }

  lemma ModularStep(v: nat, d: nat)
    requires d < 10
    ensures ((v % TWO_TO_THE_32) * 10 % TWO_TO_THE_32 + d) % TWO_TO_THE_32 == (10 * v + d) % TWO_TO_THE_32
  {
    ModularSum(v, d);
  }

  lemma ModularSum(v: nat, d: nat)
    ensures ((v % TWO_TO_THE_32) * 10 % TWO_TO_THE_32 + d) % TWO_TO_THE_32 == (10 * v + d) % TWO_TO_THE_32
  {
    var q, r := v / TWO_TO_THE_32, v % TWO_TO_THE_32;
    var k, low := r * 10 / TWO_TO_THE_32, r * 10 % TWO_TO_THE_32;
    assert v == q * TWO_TO_THE_32 + r && r * 10 == k * TWO_TO_THE_32 + low;
    assert 10 * v + d == (10 * q + k) * TWO_TO_THE_32 + (low + d);
    WrapsAway(10 * q + k, low + d);
  }

  lemma WrapsAway(k: nat, n: nat)
    ensures (k * TWO_TO_THE_32 + n) % TWO_TO_THE_32 == n % TWO_TO_THE_32
  {
  }

  /** The slot of a decimal offset: the wrap-around at 32 bits and the fold leave no trace modulo 256. */
  lemma SlotIsDifference(txt: string, origin: seq<byte>)
    requires IsDecimal(txt) && |origin| >= 4
    ensures (Accumulated(txt) % 256 - Fold(origin)) % TWO_TO_THE_32 % 256 ==
            (DecimalValue(txt) - BigEndian(origin)) % 256
  {
    hide Value, DecimalValue, Fold, BigEndian, Accumulated;
    AccumulatedDecimal(txt);
    FoldLowByte(origin);
    SubtractModulo(DecimalValue(txt), Fold(origin), BigEndian(origin));
  }

  lemma SubtractModulo(v: nat, f: nat, b: nat)
    requires f % 256 == b % 256
    ensures (v % TWO_TO_THE_32 % 256 - f) % TWO_TO_THE_32 % 256 == (v - b) % 256
  {
    RemainderOfRemainder(v);
    RemainderOfRemainder(v % TWO_TO_THE_32 % 256 - f);
    SubtractAlike(v % 256, f, v, b);
  }

  lemma RemainderOfRemainder(n: int)
    ensures n % TWO_TO_THE_32 % 256 == n % 256
  {
    var q := n / TWO_TO_THE_32;
    assert n == q * 0x100_0000 * 256 + n % TWO_TO_THE_32;
    Multiple(q * 0x100_0000, n % TWO_TO_THE_32);
  }

  lemma SubtractAlike(v: int, f: int, w: int, b: int)
    requires v % 256 == w % 256 && f % 256 == b % 256
    ensures (v - f) % 256 == (w - b) % 256
  {
    var k := v / 256 - w / 256 - f / 256 + b / 256;
    assert v - f == k * 256 + (w - b);
    Multiple(k, w - b);
  }
}
