/** The loops of atsha204cmd/main.c: reading a challenge, and enumerating MAC addresses. */
module Atsha204Cmd {
  import opened Bits
  import opened HexLine
  import opened Protocol

  /** get_challenge_from_input */
  method GetChallengeFromInput(buff: string) returns (ok: bool, challenge: BigInt)
    ensures ok <==> ParseLine(buff, MAX_DATA_SIZE).Some?
    ensures ok ==> challenge == BigNumber(MAX_DATA_SIZE, ParseLine(buff, MAX_DATA_SIZE).value)
  {
    hide ParseLine;
    var data := new byte[MAX_DATA_SIZE](_ => 0);
    ok := ReadBytes(buff, data, 0, MAX_DATA_SIZE);
    challenge := BigNumber(MAX_DATA_SIZE, data[..]);
    assert data[0..MAX_DATA_SIZE] == data[..];
  }

  // ---- MAC addresses ----

  const LAST_MAC: nat := 0xFFFFFF

  /** The 24-bit number in three bytes, most significant first. */
  function Number24(high: byte, middle: byte, low: byte): (n: nat)
    ensures n <= LAST_MAC
  {
    Value(high) * 0x1_0000 + Value(middle) * 0x100 + Value(low)
  }

  /** The value of a plain char counter after k increments from 0. */
  function Counter(charIsSigned: bool, k: nat): (i: int)
    ensures if charIsSigned then -128 <= i <= 127 else 0 <= i <= 255
  {
    if k == 0 then 0
    else
      var i := Counter(charIsSigned, k - 1) + 1;
      if charIsSigned && i == 128 then -128 else if !charIsSigned && i == 256 then 0 else i
  }

  lemma {:induction false} CounterCounts(charIsSigned: bool, k: nat)
    requires k <= if charIsSigned then 127 else 255
    ensures Counter(charIsSigned, k) == k
  {
    if k > 0 {
      CounterCounts(charIsSigned, k - 1);
    }
  }

  /** The loop over a plain char ends exactly where char is unsigned or the count fits a signed char. */
  lemma CounterReaches(charIsSigned: bool, n: nat)
    requires n < 0x100
    ensures (exists k: nat :: Counter(charIsSigned, k) >= n) <==> !charIsSigned || n <= 127
  {
    if !charIsSigned || n <= 127 {
      CounterCounts(charIsSigned, n);
    }
  }

  lemma NumberWeights(high: byte, middle: byte, low: byte)
    ensures Number24(high, middle, low) == 0x1_0000 * Value(high) + 0x100 * Value(middle) + Value(low)
  {
    hide Value;
  }

  /** An address is a prefix of three bytes and a number of three bytes. */
  predicate IsMac(mac: seq<byte>, prefix: seq<byte>, number: nat) {
    |mac| == 6 && mac[..3] == prefix && Number24(mac[3], mac[4], mac[5]) == number
  }

  /**
   The mac command: n addresses from the one stored in OTP memory on. The guard refuses every
   range that would leave 24 bits, and one more that would just fit.
   */
  method EnumerateMacs(charIsSigned: bool, n: nat, prefix: seq<byte>, addr: seq<byte>)
    returns (ok: bool, macs: seq<seq<byte>>)
    requires |prefix| >= 4 && |addr| >= 4
    requires n < 0x100 && (charIsSigned ==> n <= 127)
    ensures ok <==> 0 < n && 0x1_0000 * Value(addr[1]) + 0x100 * Value(addr[2]) + Value(addr[3]) + n <= 0xFF_FFFF
    ensures ok ==> |macs| == n && macs[0] == prefix[1..4] + addr[1..4]
    ensures ok ==> forall k :: 0 <= k < n ==> |macs[k]| == 6 && macs[k][..3] == prefix[1..4]
    ensures ok ==>
              forall k :: 0 <= k < n - 1 ==>
                var a, b := macs[k], macs[k + 1];
                if Value(a[5]) < 0xFF then a[3] == b[3] && a[4] == b[4] && Value(b[5]) == Value(a[5]) + 1
                else if Value(a[4]) < 0xFF then a[3] == b[3] && Value(b[4]) == Value(a[4]) + 1 && Value(b[5]) == 0
                else Value(b[3]) == Value(a[3]) + 1 && Value(b[4]) == 0 && Value(b[5]) == 0
  {
    hide Value, FromValue, Counter, Number24;
    macs := [];
    CounterCounts(charIsSigned, 0);
    NumberWeights(addr[1], addr[2], addr[3]);
    if n <= 0 {
      return false, macs;
    }
    var tmpMac := new byte[6](_ => 0);
    tmpMac[0], tmpMac[1], tmpMac[2] := prefix[1], prefix[2], prefix[3];
    assert tmpMac[..3] == prefix[1..4];
    var macAsNumberOrig := Number24(addr[1], addr[2], addr[3]);
    ghost var start := macAsNumberOrig;
    if macAsNumberOrig > LAST_MAC - n {
      return false, macs;
    }
    var i := 0;
    while i < n
      invariant i <= n && |macs| == i && i == Counter(charIsSigned, i)
      invariant macAsNumberOrig == start + i
      invariant tmpMac[..3] == prefix[1..4]
      invariant forall k :: 0 <= k < i ==> IsMac(macs[k], prefix[1..4], start + k)
    {
      var macAsNumber := macAsNumberOrig;
      macAsNumberOrig := macAsNumberOrig + 1;
      WriteNumber(tmpMac, macAsNumber);
      assert tmpMac[..][..3] == prefix[1..4];
      macs := macs + [tmpMac[..]];
      CounterCounts(charIsSigned, i + 1);
      i := i + 1;
    }
    ok := true;
    SameNumber(macs[0], addr);
    forall k | 0 <= k < n - 1
      ensures Successor(macs[k], macs[k + 1])
    {
      NextNumber(macs[k], macs[k + 1]);
    }
  }

  /** Big-endian counting: the last byte goes up by one, and a carry goes to the byte before it. */
  predicate Successor(a: seq<byte>, b: seq<byte>)
    requires |a| == |b| == 6
  {
    if Value(a[5]) < 0xFF then a[3] == b[3] && a[4] == b[4] && Value(b[5]) == Value(a[5]) + 1
    else if Value(a[4]) < 0xFF then a[3] == b[3] && Value(b[4]) == Value(a[4]) + 1 && Value(b[5]) == 0
    else Value(b[3]) == Value(a[3]) + 1 && Value(b[4]) == 0 && Value(b[5]) == 0
  }

  lemma NextNumber(a: seq<byte>, b: seq<byte>)
    requires |a| == |b| == 6 && Number24(b[3], b[4], b[5]) == Number24(a[3], a[4], a[5]) + 1
    ensures Successor(a, b)
  {
    hide Value;
    NextDigits(Value(a[3]), Value(a[4]), Value(a[5]), Value(b[3]), Value(b[4]), Value(b[5]));
    if Value(a[5]) < 0xFF {
      ValueInjective(a[3], b[3]);
      ValueInjective(a[4], b[4]);
    } else if Value(a[4]) < 0xFF {
      ValueInjective(a[3], b[3]);
    }
  }

  lemma NextDigits(a3: nat, a4: nat, a5: nat, b3: nat, b4: nat, b5: nat)
    requires a3 < 256 && a4 < 256 && a5 < 256 && b3 < 256 && b4 < 256 && b5 < 256
    requires b3 * 0x1_0000 + b4 * 0x100 + b5 == a3 * 0x1_0000 + a4 * 0x100 + a5 + 1
    ensures if a5 < 255 then a3 == b3 && a4 == b4 && b5 == a5 + 1
            else if a4 < 255 then a3 == b3 && b4 == a4 + 1 && b5 == 0
            else b3 == a3 + 1 && b4 == 0 && b5 == 0
  {
  }

  lemma SameNumber(mac: seq<byte>, addr: seq<byte>)
    requires |mac| == 6 && |addr| >= 4
    requires Number24(mac[3], mac[4], mac[5]) == Number24(addr[1], addr[2], addr[3])
    ensures mac == mac[..3] + addr[1..4]
  {
    hide Value;
    SameDigits(Value(mac[3]), Value(mac[4]), Value(mac[5]), Value(addr[1]), Value(addr[2]), Value(addr[3]));
    ValueInjective(mac[3], addr[1]);
    ValueInjective(mac[4], addr[2]);
    ValueInjective(mac[5], addr[3]);
  }

  lemma SameDigits(a3: nat, a4: nat, a5: nat, b3: nat, b4: nat, b5: nat)
    requires a3 < 256 && a4 < 256 && a5 < 256 && b3 < 256 && b4 < 256 && b5 < 256
    requires b3 * 0x1_0000 + b4 * 0x100 + b5 == a3 * 0x1_0000 + a4 * 0x100 + a5
    ensures a3 == b3 && a4 == b4 && a5 == b5
  {
  }

  /** The last three bytes of the buffer, lowest first. */
  method WriteNumber(tmpMac: array<byte>, number: nat)
    requires tmpMac.Length == 6 && number <= LAST_MAC
    modifies tmpMac
    ensures tmpMac[..3] == old(tmpMac[..3])
    ensures Number24(tmpMac[3], tmpMac[4], tmpMac[5]) == number
  {
    hide Value, FromValue;
    var macAsNumber := number;
    Split24(macAsNumber);
    tmpMac[5] := FromValue(macAsNumber % 0x100); macAsNumber := macAsNumber / 0x100;
    tmpMac[4] := FromValue(macAsNumber % 0x100); macAsNumber := macAsNumber / 0x100;
    tmpMac[3] := FromValue(macAsNumber % 0x100); macAsNumber := macAsNumber / 0x100;
  }

  lemma Split24(n: nat)
    requires n <= LAST_MAC
    ensures n / 0x100 / 0x100 % 0x100 * 0x1_0000 + n / 0x100 % 0x100 * 0x100 + n % 0x100 == n
  {
  }
}
