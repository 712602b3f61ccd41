/**
 What the checksum of tools.c detects, as statements about bit strings: single and
 double errors, odd errors, bursts, and the minimum distance of the code formed by
 data followed by its checksum.
 */
module CrcCode {
  import opened Bits
  import opened Gf2
  import opened XOrder

  predicate At(s: seq<bool>, i: nat) {
    i < |s| && s[i]
  }

  /** At most sixteen coefficients placed at the top of a register. */
  function TopOf(w: seq<bool>): Register {
    Register(
      At(w, 0), At(w, 1), At(w, 2), At(w, 3),
      At(w, 4), At(w, 5), At(w, 6), At(w, 7),
      At(w, 8), At(w, 9), At(w, 10), At(w, 11),
      At(w, 12), At(w, 13), At(w, 14), At(w, 15))
  }

  /** One turn of the loop, run backwards from a register whose lowest coefficient is clear. */
  lemma StepUndone(c: Register, b: bool, d: Register)
    requires !d.c0
    ensures Step(c, b) == d <==>
            c == Register(
                   b, d.c15, d.c14, d.c13,
                   d.c12, d.c11, d.c10, d.c9,
                   d.c8, d.c7, d.c6, d.c5,
                   d.c4, d.c3, d.c2, d.c1)
  {
  }

  lemma AtTail(w: seq<bool>, i: nat)
    requires w != []
    ensures At(w[1..], i) == At(w, i + 1)
  {
  }

  lemma AtEnds(w: seq<bool>)
    requires 0 < |w| <= 16
    ensures At(w, 0) == w[0] && !At(w[1..], 15)
  {
  }

  lemma TopOfTail(w: seq<bool>, d: Register)
    requires 0 < |w| <= 16
    requires d == TopOf(w[1..])
    ensures !d.c0
    ensures TopOf(w) == Register(
                          w[0], d.c15, d.c14, d.c13,
                          d.c12, d.c11, d.c10, d.c9,
                          d.c8, d.c7, d.c6, d.c5,
                          d.c4, d.c3, d.c2, d.c1)
  {
    hide At;
    AtEnds(w);
    AtTail(w, 0); AtTail(w, 1); AtTail(w, 2); AtTail(w, 3);
    AtTail(w, 4); AtTail(w, 5); AtTail(w, 6); AtTail(w, 7);
    AtTail(w, 8); AtTail(w, 9); AtTail(w, 10); AtTail(w, 11);
    AtTail(w, 12); AtTail(w, 13); AtTail(w, 14);
  }

  lemma StepTopOf(c: Register, w: seq<bool>)
    requires 0 < |w| <= 16
    ensures Step(c, w[0]) == TopOf(w[1..]) <==> c == TopOf(w)
  {
    hide Step, TopOf;
    TopOfTail(w, TopOf(w[1..]));
    StepUndone(c, w[0], TopOf(w[1..]));
  }

  /** A window of at most sixteen bits clears the register exactly when the register holds that window at its top. */
  lemma {:induction false} FeedToZero(c: Register, w: seq<bool>)
    requires |w| <= 16
    ensures Feed(c, w) == Zero() <==> c == TopOf(w)
    decreases |w|
  {
    hide Step, TopOf;
    if w == [] {
      EmptyTop(w);
    } else {
      FeedToZero(Step(c, w[0]), w[1..]);
      StepTopOf(c, w);
    }
  }

  lemma EmptyTop(w: seq<bool>)
    requires w == []
    ensures TopOf(w) == Zero()
  {
  }

  lemma TopOfZero(w: seq<bool>)
    requires |w| <= 16 && TopOf(w) == Zero()
    ensures w == Zeros(|w|)
  {
    assert !At(w, 0) && !At(w, 1) && !At(w, 2) && !At(w, 3) && !At(w, 4) && !At(w, 5) && !At(w, 6) && !At(w, 7);
    assert !At(w, 8) && !At(w, 9) && !At(w, 10) && !At(w, 11) && !At(w, 12) && !At(w, 13) && !At(w, 14) && !At(w, 15);
    hide TopOf;
    forall i | 0 <= i < |w| ensures !w[i] {
      assert At(w, i) == w[i];
    }
  }

  lemma EqualFeeds(c: Register, u: seq<bool>, v: seq<bool>)
    requires |u| == |v|
    ensures Feed(c, u) == Feed(c, v) <==> Crc(Xor(u, v)) == Zero()
  {
    hide Add, Feed;
    FeedLinear(c, c, u, v);
    AddToZero(c, c);
    AddToZero(Feed(c, u), Feed(c, v));
  }

  /** Every change confined to a window of at most sixteen bits changes the checksum, whatever surrounds the window. */
  lemma BurstDetected(prefix: seq<bool>, u: seq<bool>, v: seq<bool>, suffix: seq<bool>)
    requires |u| == |v| <= 16 && u != v
    ensures Crc(prefix + u + suffix) != Crc(prefix + v + suffix)
  {
    hide Feed, TopOf;
    var c := Crc(prefix);
    FeedAppend(Zero(), prefix + u, suffix);
    FeedAppend(Zero(), prefix + v, suffix);
    FeedAppend(Zero(), prefix, u);
    FeedAppend(Zero(), prefix, v);
    if Crc(prefix + u + suffix) == Crc(prefix + v + suffix) {
      FeedInjective(Feed(c, u), Feed(c, v), suffix);
      EqualFeeds(c, u, v);
      FeedToZero(Zero(), Xor(u, v));
      TopOfZero(Xor(u, v));
      WeightZero(Xor(u, v));
      DistanceZero(u, v);
      assert false;
    }
  }

  // ---- Two-bit errors ----

  /** Exactly the bits at i and j are set. */
  predicate OnlyAt(s: seq<bool>, i: nat, j: nat) {
    forall k :: 0 <= k < |s| ==> s[k] == (k == i || k == j)
  }

  lemma {:induction false} ResidueOfOneBit(s: seq<bool>, i: nat)
    requires i < |s| && OnlyAt(s, i, i)
    ensures Residue(s, 16) == XPow(|s| + 15 - i)
  {
    hide Add, XPow;
    var t := s[1..];
    if i == 0 {
      assert t == Zeros(|t|);
      ResidueOfZeros(|t|);
      AddZero(XPow(|s| + 15));
    } else {
      ResidueOfOneBit(t, i - 1);
      AddCommutes(Zero(), Residue(t, 16));
      AddZero(Residue(t, 16));
    }
  }

  lemma {:induction false} ResidueOfZeros(n: nat)
    ensures Residue(Zeros(n), 16) == Zero()
  {
    hide XPow;
    if n > 0 {
      assert Zeros(n)[1..] == Zeros(n - 1);
      ResidueOfZeros(n - 1);
    }
  }

  lemma {:induction false} ResidueOfTwoBits(s: seq<bool>, i: nat, j: nat)
    requires i < j < |s| && OnlyAt(s, i, j)
    ensures Residue(s, 16) == Add(XPow(|s| + 15 - i), XPow(|s| + 15 - j))
  {
    hide Add, XPow;
    var t := s[1..];
    if i == 0 {
      ResidueOfOneBit(t, j - 1);
    } else {
      ResidueOfTwoBits(t, i - 1, j - 1);
      AddCommutes(Zero(), Residue(t, 16));
      AddZero(Residue(t, 16));
    }
  }

  lemma CrcOfTwoBits(s: seq<bool>, i: nat, j: nat)
    requires i < j < |s| && OnlyAt(s, i, j)
    ensures Crc(s) == Zero() <==> (j - i) % ORDER == 0
  {
    hide Add, XPow, Feed;
    CrcIsResidue(s);
    ResidueOfTwoBits(s, i, j);
    AddToZero(XPow(|s| + 15 - i), XPow(|s| + 15 - j));
    PowersEqual(|s| + 15 - j, |s| + 15 - i);
  }

  /**
   Two inputs that differ in exactly two bits have the same checksum if and only if those
   bits are a multiple of 32767 positions apart.
   */
  lemma TwoBitErrors(u: seq<bool>, v: seq<bool>, i: nat, j: nat)
    requires |u| == |v| && i < j < |u|
    requires forall k :: 0 <= k < |u| ==> (u[k] != v[k] <==> k == i || k == j)
    ensures Crc(u) == Crc(v) <==> (j - i) % ORDER == 0
  {
    hide Feed;
    CrcOfTwoBits(Xor(u, v), i, j);
    EqualFeeds(Zero(), u, v);
  }

  // ---- Minimum distance ----

  lemma {:induction false} OneSetBit(s: seq<bool>) returns (i: nat)
    requires Weight(s) == 1
    ensures i < |s| && OnlyAt(s, i, i)
  {
    if s[0] {
      WeightZero(s[1..]);
      i := 0;
      forall k | 1 <= k < |s| ensures !s[k] {
        assert s[k] == s[1..][k - 1];
      }
    } else {
      var m := OneSetBit(s[1..]);
      i := m + 1;
      ShiftOnlyAt(s, m, m);
    }
  }

  lemma ShiftOnlyAt(s: seq<bool>, i: nat, j: nat)
    requires s != [] && !s[0] && OnlyAt(s[1..], i, j)
    ensures OnlyAt(s, i + 1, j + 1)
  {
    forall k | 1 <= k < |s| ensures s[k] == (k == i + 1 || k == j + 1) {
      assert s[k] == s[1..][k - 1];
    }
  }

  lemma {:induction false} TwoSetBits(s: seq<bool>) returns (i: nat, j: nat)
    requires Weight(s) == 2
    ensures i < j < |s| && OnlyAt(s, i, j)
  {
    if s[0] {
      var m := OneSetBit(s[1..]);
      i, j := 0, m + 1;
      forall k | 1 <= k < |s| ensures s[k] == (k == j) {
        assert s[k] == s[1..][k - 1];
      }
    } else {
      i, j := TwoSetBits(s[1..]);
      ShiftOnlyAt(s, i, j);
      i, j := i + 1, j + 1;
    }
  }

  /** A nonzero string that leaves the register clear has at least four set bits. */
  lemma CodewordWeight(s: seq<bool>)
    requires |s| <= ORDER && Crc(s) == Zero()
    ensures s == Zeros(|s|) || Weight(s) >= 4
  {
    hide Feed, Step;
    CrcParity(Zero(), s);
    if Weight(s) == 0 {
      WeightZero(s);
    } else if Weight(s) == 2 {
      var i, j := TwoSetBits(s);
      assert (j - i) % ORDER == j - i;
      CrcOfTwoBits(s, i, j);
    }
  }

  /** Any two different codewords of the same length, up to 32767 bits, differ in at least four places. */
  lemma MinimumDistance(s: seq<bool>, t: seq<bool>)
    requires |s| == |t| <= ORDER
    requires Crc(s) == Zero() && Crc(t) == Zero()
    ensures s == t || Distance(s, t) >= 4
  {
    hide Feed;
    EqualFeeds(Zero(), s, t);
    CodewordWeight(Xor(s, t));
    WeightZero(Xor(s, t));
    DistanceZero(s, t);
  }

  /** Data followed by sixteen bits is a codeword exactly when those bits are the checksum of the data. */
  lemma AppendedChecksum(data: seq<bool>, w: seq<bool>)
    requires |w| == 16
    ensures Crc(data + w) == Zero() <==> Crc(data) == TopOf(w)
  {
    hide Feed, TopOf;
    FeedAppend(Zero(), data, w);
    FeedToZero(Crc(data), w);
  }
}
