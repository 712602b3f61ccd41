/**
 Bursts: changes confined to a window of at most sixteen consecutive bits. On contents and in the
 checksum field none goes unnoticed. Because the checksum is sent low byte first, some windows across
 the border between the two are blind; which ones is said exactly.
 */
module Bursts {
  import opened Bits
  import opened Checksum
  import opened CrcCode
  import opened Gf2
  import opened Packets

  /** Cutting the window out: what lies before it and behind it is shared. */
  lemma AroundWindow(a: seq<byte>, b: seq<byte>, k: nat, n: nat) returns (from: nat, to: nat)
    requires |a| == |b| && DifferWithin(a, b, k, n)
    ensures from <= to <= 8 * |a| && to - from <= n
    ensures BitsOf(a)[..from] == BitsOf(b)[..from] && BitsOf(a)[to..] == BitsOf(b)[to..]
  {
    hide BitsOf;
    from := if k < 8 * |a| then k else 8 * |a|;
    to := if k + n < 8 * |a| then k + n else 8 * |a|;
  }

  lemma Recomposed(u: seq<bool>, from: nat, to: nat)
    requires from <= to <= |u|
    ensures u == u[..from] + u[from..to] + u[to..]
  {
  }

  /** A change confined to sixteen consecutive bits of a buffer changes its checksum bytes. */
  lemma BufferBurst(a: seq<byte>, b: seq<byte>, k: nat)
    requires |a| == |b| && a != b && DifferWithin(a, b, k, 16)
    ensures CrcBytes(a) != CrcBytes(b)
  {
    var from, to := AroundWindow(a, b, k, 16);
    hide Feed, BitsOf, DifferWithin, CrcBytes;
    var u, v := BitsOf(a), BitsOf(b);
    Recomposed(u, from, to);
    Recomposed(v, from, to);
    if u[from..to] == v[from..to] {
      BitsOfInjective(a, b);
    } else {
      BurstDetected(u[..from], u[from..to], v[from..to], u[to..]);
      EqualFields(a, b);
    }
  }

  /** A change confined to sixteen consecutive bits of the contents, or to the checksum field, is noticed. */
  lemma BurstOnOneSide(p: Packet, q: Packet, k: nat, n: nat)
    requires |p| == |q| >= 2 && Accepted(p) && p != q
    requires n <= 16 && DifferWithin(p, q, k, n)
    requires k + n <= 8 * (|p| - 2) || 8 * (|p| - 2) <= k
    ensures !Accepted(q)
  {
    hide BitsOf, CrcBytes;
    var m := |p| - 2;
    SplitBits(p, q);
    SplitBits(q, p);
    assert p == p[..m] + p[m..] && q == q[..m] + q[m..];
    if k + n <= 8 * m {
      forall i | 0 <= i < 16 ensures BitsOf(p[m..])[i] == BitsOf(q[m..])[i] {
        assert BitsOf(p)[8 * m + i] == BitsOf(q)[8 * m + i];
      }
      forall i | 0 <= i < 8 * m && !(k <= i < k + 16) ensures BitsOf(p[..m])[i] == BitsOf(q[..m])[i] {
        assert BitsOf(p)[i] == BitsOf(q)[i];
      }
      BufferBurst(p[..m], q[..m], k);
    } else {
      forall i | 0 <= i < 8 * m ensures BitsOf(p[..m])[i] == BitsOf(q[..m])[i] {
        assert BitsOf(p)[i] == BitsOf(q)[i];
      }
    }
  }

  // ---- Across the border ----

  /** Contents in the order of the wire, the checksum field the other way round. */
  lemma CodeBitsAt(p: Packet)
    requires |p| >= 2
    ensures var border := 8 * (|p| - 2);
            && (forall i :: 0 <= i < border ==> CodeBits(p)[i] == BitsOf(p)[i])
            && (forall i :: border <= i < border + 16 ==> CodeBits(p)[i] == BitsOf(p)[2 * border + 15 - i])
  {
    hide BitsOf;
    SplitBits(p, p);
  }

  /** Five turns of the loop. */
  function Step5(c: Register, b0: bool, b1: bool, b2: bool, b3: bool, b4: bool): Register {
    Step(Step(Step(Step(Step(c, b0), b1), b2), b3), b4)
  }

  lemma FiveTurns(w: seq<bool>, k: nat)
    requires k + 5 <= |w|
    ensures Crc(w[..k + 5]) == Step5(Crc(w[..k]), w[k], w[k + 1], w[k + 2], w[k + 3], w[k + 4])
  {
    hide Step, Feed;
    FeedOneMore(Zero(), w, k);
    FeedOneMore(Zero(), w, k + 1);
    FeedOneMore(Zero(), w, k + 2);
    FeedOneMore(Zero(), w, k + 3);
    FeedOneMore(Zero(), w, k + 4);
  }

  /** The coefficients from x^14 down to x^3 are clear. */
  predicate OnlyLow(d: Register) {
    && !d.c14 && !d.c13 && !d.c12 && !d.c11 && !d.c10 && !d.c9
    && !d.c8 && !d.c7 && !d.c6 && !d.c5 && !d.c4 && !d.c3
  }

  /**
   At most three low coefficients cannot come from a window of bits that fits beside them, nor can a
   register without its highest one come from a single bit.
   */
  lemma FifteenTurns(d: Register, b0: bool, b1: bool, b2: bool, b3: bool, b4: bool, b5: bool, b6: bool, b7: bool,
                     b8: bool, b9: bool, b10: bool, b11: bool, b12: bool, b13: bool, b14: bool)
    requires d == Step5(Step5(Step5(Zero(), b0, b1, b2, b3, b4), b5, b6, b7, b8, b9), b10, b11, b12, b13, b14)
    requires !d.c15
    requires (OnlyLow(d) && (b0 ==> !d.c2 && !d.c1) && (b1 ==> !d.c2)) ||
             !(b0 || b1 || b2 || b3 || b4 || b5 || b6 || b7 || b8 || b9 || b10 || b11 || b12 || b13)
    ensures !(b0 || b1 || b2 || b3 || b4 || b5 || b6 || b7 || b8 || b9 || b10 || b11 || b12 || b13 || b14)
  {
  }

  lemma RegisterShowsWindow(w: seq<bool>, d: Register)
    requires |w| == 15 && Crc(w) == d && !d.c15
    requires (OnlyLow(d) && (w[0] ==> !d.c2 && !d.c1) && (w[1] ==> !d.c2)) || (forall i :: 0 <= i < 14 ==> !w[i])
    ensures w == Zeros(15)
  {
    hide Step, Feed, OnlyLow;
    FeedNone(Zero(), w);
    FiveTurns(w, 0);
    FiveTurns(w, 5);
    FiveTurns(w, 10);
    assert w[..15] == w;
    FifteenTurns(d, w[0], w[1], w[2], w[3], w[4], w[5], w[6], w[7], w[8], w[9], w[10], w[11], w[12], w[13], w[14]);
  }

  /** The difference of two codewords that agree outside such a window is nothing. */
  lemma WindowAcrossBorder(e: seq<bool>, border: nat, k: nat, n: nat)
    requires |e| == border + 16 && Crc(e) == Zero()
    requires n <= 16 && k < border < k + n && (border < k + 2 || k + n < border + 4)
    requires forall i :: 0 <= i < border && i < k ==> !e[i]
    requires forall i :: border <= i < border + 16 && k + n <= 2 * border + 15 - i ==> !e[i]
    ensures e == Zeros(|e|)
  {
    hide Feed, TopOf;
    var longer := Zeros(15) + e;
    var w, field := longer[border..border + 15], e[border..];
    assert longer == Zeros(border) + (w + field);
    FeedZeroBits(15, e);
    FeedZeroBits(border, w + field);
    AppendedChecksum(w, field);
    assert forall i :: 0 <= i < 15 ==> w[i] == if border + i < 15 then false else e[border + i - 15];
    assert forall j :: 0 <= j < 16 ==> field[j] == e[border + j];
    TopOfField(field);
    RegisterShowsWindow(w, TopOf(field));
    FeedZeros(15);
    TopOfZero(field);
    assert e == e[..border] + field;
    forall i | 0 <= i < border ensures !e[i] {
      assert i >= k ==> !w[i + 15 - border];
    }
  }

  lemma TopOfField(field: seq<bool>)
    requires |field| == 16
    ensures var d := TopOf(field);
            && d.c15 == field[0] && d.c14 == field[1] && d.c13 == field[2] && d.c12 == field[3]
            && d.c11 == field[4] && d.c10 == field[5] && d.c9 == field[6] && d.c8 == field[7]
            && d.c7 == field[8] && d.c6 == field[9] && d.c5 == field[10] && d.c4 == field[11]
            && d.c3 == field[12] && d.c2 == field[13] && d.c1 == field[14]
  {
  }

  lemma BurstAcrossBorder(p: Packet, q: Packet, k: nat, n: nat)
    requires |p| == |q| >= 2 && Accepted(p) && Accepted(q)
    requires n <= 16 && DifferWithin(p, q, k, n)
    requires var border := 8 * (|p| - 2); k < border < k + n && (border < k + 2 || k + n < border + 4)
    ensures p == q
  {
    hide Accepted, BitsOf, Feed, CodeBits, Weight;
    CodeDifference(p, q);
    CodeBitsAt(p);
    CodeBitsAt(q);
    WindowAcrossBorder(Xor(CodeBits(p), CodeBits(q)), 8 * (|p| - 2), k, n);
    WeightZero(Xor(CodeBits(p), CodeBits(q)));
    CodeBitsDistance(p, q);
    DistanceZero(BitsOf(p), BitsOf(q));
    BitsOfInjective(p, q);
  }

  /** A window of a packet with this border is blind when it reaches two bits before and four bits behind it. */
  predicate Blind(border: nat, k: nat, n: nat) {
    k + 2 <= border && border + 4 <= k + n
  }

  /** Outside blind windows every burst that spares the count byte is noticed. */
  lemma PacketBurst(p: Packet, q: Packet, k: nat, n: nat)
    requires WellFramed(p) && Accepted(p)
    requires |q| == |p| && q[0] == p[0] && q != p
    requires n <= 16 && DifferWithin(p, q, k, n) && !Blind(8 * (|p| - 2), k, n)
    ensures !Passes(q)
  {
    hide Accepted, BitsOf, DifferWithin, Value;
    FramePasses(q);
    if k + n <= 8 * (|p| - 2) || 8 * (|p| - 2) <= k {
      BurstOnOneSide(p, q, k, n);
    } else if Accepted(q) {
      BurstAcrossBorder(p, q, k, n);
    }
  }

  /** In a packet with data, a window of at most sixteen bits hides a change from the check exactly when it is blind. */
  lemma BlindWindows(p: Packet, k: nat, n: nat)
    requires WellFramed(p) && Accepted(p) && |p| >= 4 && n <= 16
    ensures Blind(8 * (|p| - 2), k, n) <==>
            exists q :: |q| == |p| && DifferWithin(p, q, k, n) && q[0] == p[0] && q != p && Passes(q)
  {
    hide Accepted, BitsOf, Value;
    if Blind(8 * (|p| - 2), k, n) {
      var q := FourFlipsUndetected(p);
      assert DifferWithin(p, q, k, n);
      FramePasses(q);
      DistanceZero(BitsOf(p), BitsOf(q));
    }
    forall q | |q| == |p| && DifferWithin(p, q, k, n) && q[0] == p[0] && q != p && Passes(q)
      ensures Blind(8 * (|p| - 2), k, n)
    {
      if !Blind(8 * (|p| - 2), k, n) {
        PacketBurst(p, q, k, n);
      }
    }
  }
}
