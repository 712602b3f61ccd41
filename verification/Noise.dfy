/**
 Runs over a noisy bus: commands may get lost before or after the chip has executed them, and
 answers may arrive damaged. What the library accepts is genuine all the same, and repeating a
 command never does more than doing it once.
 */
module Noise {
  import opened Bits
  import opened Bursts
  import opened Bus
  import opened Checksum
  import opened Chip
  import opened Digests
  import opened Operations
  import opened Packets
  import opened Protocol
  import opened Wrappers

  /** At most sixteen bits next to each other, in a window that is not blind. */
  ghost predicate IsBurst(genuine: Packet, arrived: Packet)
    requires |arrived| == |genuine| >= 2
  {
    exists k: nat, n: nat ::
      n <= 16 && !Blind(8 * (|genuine| - 2), k, n) && DifferWithin(genuine, arrived, k, n)
  }

  /**
   The damage that line noise may do outside the count byte: up to three bits changed anywhere, any
   odd number of them, or a burst of at most sixteen.
   */
  ghost predicate Disturbed(genuine: Packet, arrived: Packet) {
    && |arrived| == |genuine| >= 3
    && arrived[0] == genuine[0]
    && (PacketDistance(genuine, arrived) <= 3
        || PacketDistance(genuine, arrived) % 2 == 1
        || IsBurst(genuine, arrived))
  }

  /** Every exchange fails or delivers what the chip answered, at worst disturbed. */
  ghost predicate Noisy(w: World) {
    && (forall t: nat :: w.channel(t, None).Failed?)
    && forall t: nat, g: Packet ::
         WellFramed(g) && Accepted(g) && w.channel(t, Some(g)).Delivered? ==>
           Disturbed(g, w.channel(t, Some(g)).bytes)
  }

  /** What the chip may answer: nothing, or a packet with a good checksum. */
  predicate Answerable(g: Option<Packet>) {
    g.Some? ==> WellFramed(g.value) && Accepted(g.value)
  }

  /**
   A bus on which no wrong reply is acceptable: whatever would pass as an answer is the answer. All
   the rest may happen, down to garbage of any length and status packets out of nowhere.
   */
  ghost predicate Tame(w: World) {
    forall t: nat, g: Option<Packet> ::
      Answerable(g) && Judge(w.channel(t, g)).Accept? ==> g.Some? && w.channel(t, g) == Delivered(g.value)
  }

  /**
   The least that copying configuration records into a buffer of fixed size demands: an accepted reply is
   no longer than a word of data, or than the answer it stands for.
   */
  ghost predicate FitsRecords(w: World) {
    forall t: nat, g: Option<Packet> ::
      Answerable(g) && Judge(w.channel(t, g)).Accept? ==>
        |w.channel(t, g).bytes| <= 7 || (g.Some? && |w.channel(t, g).bytes| <= |g.value|)
  }

  lemma TameFits(w: World)
    requires Tame(w)
    ensures FitsRecords(w)
  {
    hide Judge, Accepted, WellFramed;
  }

  /** Every command is heard, every answer arrives as sent, every wake pulse is confirmed. */
  ghost predicate Clean(w: World) {
    && (forall t: nat :: w.hears(t))
    && (forall t: nat, g: Packet :: WellFramed(g) ==> w.channel(t, Some(g)) == Delivered(g))
    && (forall t: nat :: w.wakes(t).Delivered? && Accepted(w.wakes(t).bytes) && w.wakes(t).bytes[1] == STATUS_WAKE_OK)
  }

  /** The command repeated on what it left behind leaves it alone, and is answered alike or turned down. */
  ghost predicate Settles(m: Zones, p: Packet)
    requires IsCommand(p)
  {
    var (m1, a1) := Execute(m, p);
    var (m2, a2) := Execute(m1, p);
    m2 == m1 && (a2 == a1 || !Accepts(a2))
  }

  /** Whether command would hand this answer to its caller. */
  predicate Accepts(answer: Packet) {
    WellFramed(answer) && Judge(Delivered(answer)).Accept?
  }

  lemma SettlesWrite(m: Zones, p: Packet)
    requires IsCommand(p)
    ensures ExecuteWrite(ExecuteWrite(m, p).0, p) == ExecuteWrite(m, p)
  {
    hide Value, AnswerPacket, Overwrite;
    if Writable(m, p[2]) && WriteFits(m, p) {
      OverwriteTwice(ZoneOf(m, p[2]), 4 * Value(p[3]), p[5..|p| - 2]);
    }
  }

  lemma ErrorTurnedDown(code: byte)
    requires IsRejectedStatus(code)
    ensures !Accepts(StatusAnswer(code))
  {
    hide CrcBytes, Accepted;
    AnswerRecovered([code]);
    var a := StatusAnswer(code);
    assert a[1] == Payload(a)[0] == code;
  }

  lemma SettlesLock(m: Zones, p: Packet)
    requires IsCommand(p)
    ensures ExecuteLock(m, p).0 == m ||
            ExecuteLock(ExecuteLock(m, p).0, p) == (ExecuteLock(m, p).0, StatusAnswer(STATUS_EXEC_ERROR))
  {
    hide AnswerPacket, CrcBytes;
  }

  /** TempKey is stored the same way twice; a digest that uses it up is not given twice. */
  lemma SettlesDigests(m: Zones, p: Packet)
    requires IsCommand(p)
    ensures ExecuteNonce(ExecuteNonce(m, p).0, p) == ExecuteNonce(m, p)
    ensures ExecuteHmac(m, p).0 == m ||
            ExecuteHmac(ExecuteHmac(m, p).0, p) == (ExecuteHmac(m, p).0, StatusAnswer(STATUS_EXEC_ERROR))
    ensures ExecuteMac(m, p).0 == m
  {
    hide AnswerPacket, Value, Layout, OtpPart;
  }

  /** Every command settles: reads, writes, nonces and MACs repeat; a lock closes once, and so may TempKey. */
  lemma CommandSettles(m: Zones, p: Packet)
    requires IsCommand(p)
    ensures Settles(m, p)
  {
    hide ExecuteWrite, ExecuteLock, ExecuteRead, ExecuteNonce, ExecuteHmac, ExecuteMac, Accepts, StatusAnswer;
    SettlesWrite(m, p);
    SettlesLock(m, p);
    SettlesDigests(m, p);
    ErrorTurnedDown(STATUS_EXEC_ERROR);
  }

  /** Noise outside the count byte is always noticed. */
  lemma DisturbanceNoticed(genuine: Packet, arrived: Packet)
    requires WellFramed(genuine) && Accepted(genuine)
    requires Disturbed(genuine, arrived) && arrived != genuine
    ensures !Passes(arrived)
  {
    hide Accepted, BitsOf, Distance, Value, DifferWithin;
    if PacketDistance(genuine, arrived) == 0 {
      DistanceZero(BitsOf(genuine), BitsOf(arrived));
      BitsOfInjective(genuine, arrived);
    } else if PacketDistance(genuine, arrived) <= 3 {
      FlipsDetected(genuine, arrived);
    } else if PacketDistance(genuine, arrived) % 2 == 1 {
      OddDistanceDetected(genuine, arrived);
    } else {
      var k: nat, n: nat :|
        n <= 16 && !Blind(8 * (|genuine| - 2), k, n) && DifferWithin(genuine, arrived, k, n);
      PacketBurst(genuine, arrived, k, n);
    }
  }

  /** A noisy bus is tame. */
  lemma NoisyIsTame(w: World)
    requires Noisy(w)
    ensures Tame(w)
  {
    hide Accepted, Disturbed, Value;
    forall t: nat, g: Option<Packet> | Answerable(g) && Judge(w.channel(t, g)).Accept?
      ensures g.Some? && w.channel(t, g) == Delivered(g.value)
    {
      if w.channel(t, g).bytes != g.value {
        DisturbanceNoticed(g.value, w.channel(t, g).bytes);
        FramePasses(w.channel(t, g).bytes);
      }
    }
  }

  /**
   Integrity of a run, whatever is at the other end: when each exchange fails or delivers its own
   genuine answer, at worst disturbed, OK means the genuine answer of the deciding exchange.
   */
  lemma CommandGenuine(w: World, s: Line, p: Packet, left: nat, last: ErrorStatus, genuine: seq<Packet>)
    requires IsCommand(p) && |genuine| == left
    requires forall i :: 0 <= i < left ==> WellFramed(genuine[i]) && Accepted(genuine[i])
    requires forall i :: 0 <= i < left ==>
               (Replies(w, s, p, left)[i].Delivered? ==> Disturbed(genuine[i], Replies(w, s, p, left)[i].bytes))
    ensures var o, k := CommandRun(w, s, p, left, last), FirstDecisive(Replies(w, s, p, left));
            o.status == Ok ==> k < left && o.answer == Some(genuine[k])
  {
    hide Accepted, Disturbed, Value, Replies, CommandRun, FirstDecisive, IsCommand;
    CommandChooses(w, s, p, left, last);
    var rs := Replies(w, s, p, left);
    FirstDecisiveMeaning(rs);
    var k := FirstDecisive(rs);
    if CommandRun(w, s, p, left, last).status == Ok {
      if rs[k].bytes != genuine[k] {
        DisturbanceNoticed(genuine[k], rs[k].bytes);
        FramePasses(rs[k].bytes);
      }
    }
  }

  /** The chip executes the command or not; an answer that is accepted is the genuine one of a chip that did. */
  ghost predicate StepGenuine(w: World, s: Line, p: Packet)
    requires IsCommand(p)
  {
    var (reply, s') := Exchange(w, s, p);
    && (s' == Line(s.chip, s.tick + 1) || s' == Line(Execute(s.chip, p).0, s.tick + 1))
    && (Judge(reply).Accept? ==>
          && s'.chip == Execute(s.chip, p).0
          && reply.Delivered? && reply.bytes == Execute(s.chip, p).1
          && Accepts(Execute(s.chip, p).1))
  }

  /** On a tame bus, only genuine answers are accepted. */
  lemma AcceptedIsGenuine(w: World, s: Line, p: Packet)
    requires IsCommand(p) && Tame(w)
    ensures StepGenuine(w, s, p)
  {
    hide Judge, Execute, Accepted, WellFramed, IsCommand;
    ExecuteAnswerAccepted(s.chip, p);
    var genuine := if w.hears(s.tick) then Some(Execute(s.chip, p).1) else None;
    assert Answerable(genuine);
    assert Exchange(w, s, p).0 == w.channel(s.tick, genuine);
  }

  /**
   A whole run of the retry loop on a tame bus: OK means that the answer is the genuine one and
   the chip is as after executing the command exactly once; otherwise it is as before or as
   after executing it once.
   */
  lemma CommandOnce(w: World, s: Line, p: Packet, left: nat, last: ErrorStatus)
    requires IsCommand(p) && Tame(w)
    ensures var o := CommandRun(w, s, p, left, last);
            && (o.status == Ok ==>
                  && o.answer == Some(Execute(s.chip, p).1) && Accepts(Execute(s.chip, p).1)
                  && o.line.chip == Execute(s.chip, p).0)
            && (o.line.chip == s.chip || o.line.chip == Execute(s.chip, p).0)
  {
    hide Execute, Accepts, Tame, CommandRun, IsCommand;
    CommandSettles(s.chip, p);
    CommandFromEither(w, s.chip, s, p, left, last);
    CommandEffect(w, s, p, left, last);
  }

  lemma {:induction false} CommandFromEither(w: World, m: Zones, s: Line, p: Packet, left: nat, last: ErrorStatus)
    requires IsCommand(p) && Tame(w) && Settles(m, p)
    requires s.chip == m || s.chip == Execute(m, p).0
    ensures var o := CommandRun(w, s, p, left, last);
            o.status == Ok ==>
              && o.answer == Some(Execute(m, p).1) && Accepts(Execute(m, p).1)
              && o.line.chip == Execute(m, p).0
    decreases left
  {
    hide Execute, Exchange, Judge, Tame, Accepts, IsCommand;
    if left > 0 {
      var (reply, s') := Exchange(w, s, p);
      AcceptedIsGenuine(w, s, p);
      if Judge(reply).Retry? {
        CommandFromEither(w, m, s', p, left - 1, Judge(reply).status);
      }
    }
  }

  /** On any bus at all, a whole run has the effect of one execution or of none. */
  lemma CommandEffect(w: World, s: Line, p: Packet, left: nat, last: ErrorStatus)
    requires IsCommand(p)
    ensures var chip := CommandRun(w, s, p, left, last).line.chip;
            chip == s.chip || chip == Execute(s.chip, p).0
  {
    hide Execute, CommandRun, Accepts, IsCommand;
    CommandSettles(s.chip, p);
    EffectFromEither(w, s.chip, s, p, left, last);
  }

  lemma {:induction false} EffectFromEither(w: World, m: Zones, s: Line, p: Packet, left: nat, last: ErrorStatus)
    requires IsCommand(p) && Settles(m, p)
    requires s.chip == m || s.chip == Execute(m, p).0
    ensures var chip := CommandRun(w, s, p, left, last).line.chip;
            chip == m || chip == Execute(m, p).0
    decreases left
  {
    hide Execute, Judge, Accepts, IsCommand;
    if left > 0 {
      var (reply, s') := Exchange(w, s, p);
      if Judge(reply).Retry? {
        EffectFromEither(w, m, s', p, left - 1, Judge(reply).status);
      }
    }
  }

  /** The answer to a read, where accepted replies fit. */
  lemma {:induction false} ReadFits(w: World, s: Line, p: Packet, left: nat, last: ErrorStatus)
    requires IsCommand(p) && p[1] == OPCODE_READ && FitsRecords(w)
    ensures var o := CommandRun(w, s, p, left, last);
            o.status == Ok ==>
              o.answer.Some? && (|o.answer.value| <= 7 || |o.answer.value| <= |ExecuteRead(s.chip, p)|)
    decreases left
  {
    hide ExecuteRead, Judge, Accepted, WellFramed;
    if left > 0 {
      var (reply, s') := Exchange(w, s, p);
      ExecuteAnswerAccepted(s.chip, p);
      var genuine := if w.hears(s.tick) then Some(ExecuteRead(s.chip, p)) else None;
      assert Answerable(genuine) && reply == w.channel(s.tick, genuine) && s'.chip == s.chip;
      JudgeShape(reply);
      if Judge(reply).Retry? {
        ReadFits(w, s', p, left - 1, Judge(reply).status);
      }
    }
  }

  /** On a clean bus a command whose answer is acceptable succeeds. */
  lemma CommandClean(w: World, s: Line, p: Packet, left: nat, last: ErrorStatus)
    requires IsCommand(p) && Clean(w) && left > 0
    requires Accepts(Execute(s.chip, p).1)
    ensures CommandRun(w, s, p, left, last).status == Ok
  {
    hide Execute, Judge, IsCommand, Accepted, WellFramed;
  }

  /** Short answers are statuses; longer ones are data, whatever they say. */
  lemma LongAnswerAccepted(data: seq<byte>)
    requires 2 <= |data| <= 252
    ensures Accepts(AnswerPacket(data)) && Payload(AnswerPacket(data)) == data
  {
    hide CrcBytes, Accepted;
    AnswerRecovered(data);
  }

  lemma SuccessAccepted()
    ensures Accepts(StatusAnswer(STATUS_SUCCES)) && StatusAnswer(STATUS_SUCCES)[1] == STATUS_SUCCES
    ensures StatusAnswer(STATUS_EXEC_ERROR)[1] != STATUS_SUCCES
  {
    hide Accepted, CrcBytes, WellFramed;
    AnswerRecovered([STATUS_SUCCES]);
    AnswerRecovered([STATUS_EXEC_ERROR]);
    var a, e := StatusAnswer(STATUS_SUCCES), StatusAnswer(STATUS_EXEC_ERROR);
    assert a[1] == Payload(a)[0] == STATUS_SUCCES;
    assert e[1] == Payload(e)[0] == STATUS_EXEC_ERROR;
  }

  /** All the assumptions about the bus can be met together. */
  lemma CleanBusExists() returns (w: World)
    ensures Clean(w) && Noisy(w) && Tame(w)
  {
    hide Accepted, PacketDistance;
    AnswerRecovered([STATUS_WAKE_OK]);
    var confirmed := StatusAnswer(STATUS_WAKE_OK);
    assert confirmed[1] == Payload(confirmed)[0];
    w := World(
      _ => true,
      (t: nat, g: Option<Packet>) =>
        if g.Some? && WellFramed(g.value) then Delivered(g.value) else Failed(Communication),
      _ => Delivered(confirmed));
    forall t: nat, g: Packet | WellFramed(g) ensures Disturbed(g, w.channel(t, Some(g)).bytes) {
      SamePacket(g);
    }
    NoisyIsTame(w);
  }

  lemma SamePacket(g: Packet)
    requires WellFramed(g)
    ensures Disturbed(g, g)
  {
    DistanceZero(BitsOf(g), BitsOf(g));
  }
}
