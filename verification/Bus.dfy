/**
 The unreliable bus between library and chip, and what the retry loops of
 communication.c make of it: nothing is assumed about the replies but their framing.
 */
module Bus {
  import opened Bits
  import opened Chip
  import opened Packets
  import opened Protocol
  import opened Wrappers

  datatype Reply = Failed(status: ErrorStatus) | Delivered(bytes: Frame)

  /**
   Everything the bus may do, one entry per exchange: whether the chip receives the command,
   what arrives when the chip answers so (or not at all), and what arrives after a wake pulse.
   */
  datatype World = World(
    hears: nat -> bool,
    channel: (nat, Option<Packet>) -> Reply,
    wakes: nat -> Reply)

  datatype Line = Line(chip: Zones, tick: nat)

  function Exchange(w: World, s: Line, p: Packet): (Reply, Line)
    requires IsCommand(p)
  {
    if w.hears(s.tick) then
      var (chip, answer) := Execute(s.chip, p);
      (w.channel(s.tick, Some(answer)), Line(chip, s.tick + 1))
    else (w.channel(s.tick, None), Line(s.chip, s.tick + 1))
  }

  /** How the loop of command treats a reply. */
  datatype Verdict = Accept | Retry(status: ErrorStatus) | Kill

  predicate IsRejectedStatus(code: byte) {
    code == STATUS_PARSE_ERROR || code == STATUS_EXEC_ERROR || code == STATUS_COMMUNICATION_ERROR
  }

  function Judge(reply: Reply): Verdict {
    match reply
    case Failed(status) => Retry(status)
    case Delivered(b) =>
      if !Accepted(b) then Retry(Communication)
      else if Value(b[0]) == 4 && IsRejectedStatus(b[1]) then Retry(BadCommunicationStatus)
      else if Value(b[0]) == 4 && b[1] == STATUS_WAKE_OK then Kill
      else Accept
  }

  /** Which replies pass, which end the loop, and with which status the others are sent back. */
  lemma JudgeMeaning(reply: Reply)
    ensures Judge(reply).Accept? <==>
            && reply.Delivered? && Accepted(reply.bytes)
            && !(|reply.bytes| == 4 && reply.bytes[1] in {0x03, 0x0F, 0xFF, 0x11})
    ensures Judge(reply).Kill? <==>
            reply.Delivered? && Accepted(reply.bytes) && |reply.bytes| == 4 && reply.bytes[1] == 0x11
    ensures reply.Failed? ==> Judge(reply) == Retry(reply.status)
    ensures reply.Delivered? && Judge(reply).Retry? ==>
              Judge(reply).status == if Accepted(reply.bytes) then BadCommunicationStatus else Communication
  {
    hide Accepted, Value;
  }

  datatype Outcome = Outcome(status: Status, answer: Option<Packet>, line: Line)

  /** command, with this many exchanges left and this status so far. */
  function CommandRun(w: World, s: Line, p: Packet, left: nat, last: ErrorStatus): Outcome
    requires IsCommand(p)
    decreases left
  {
    if left == 0 then Outcome(last, None, s)
    else
      var (reply, s') := Exchange(w, s, p);
      match Judge(reply)
      case Accept => Outcome(Ok, Some(reply.bytes), s')
      case Retry(status) => CommandRun(w, s', p, left - 1, status)
      case Kill => Outcome(BadCommunicationStatus, None, s')
  }

  const EXCHANGES: nat := TRY_SEND_RECV_ON_COMM_ERROR + 2

  /** wake, with this many pulses left and this status so far. */
  function WakeRun(w: World, tick: nat, left: nat, last: ErrorStatus): (Status, nat)
    decreases left
  {
    if left == 0 then (last, tick)
    else
      match w.wakes(tick)
      case Failed(status) => WakeRun(w, tick + 1, left - 1, status)
      case Delivered(b) =>
        if Accepted(b) && b[1] == STATUS_WAKE_OK then (Ok, tick + 1)
        else WakeRun(w, tick + 1, left - 1, Communication)
  }

  predicate Confirms(reply: Reply) {
    reply.Delivered? && Accepted(reply.bytes) && reply.bytes[1] == 0x11
  }

  /** wake succeeds exactly when one of its pulses is confirmed, and stops at the first that is. */
  lemma {:induction false} WakeConfirmed(w: World, tick: nat, left: nat, last: ErrorStatus)
    ensures var (status, after) := WakeRun(w, tick, left, last);
            && tick <= after <= tick + left
            && (status == Ok <==> exists t :: tick <= t < tick + left && Confirms(w.wakes(t)))
            && (status == Ok ==> after > tick && Confirms(w.wakes(after - 1)) &&
                                 forall t :: tick <= t < after - 1 ==> !Confirms(w.wakes(t)))
            && (status != Ok ==>
                  && after == tick + left
                  && (left > 0 ==>
                        var reply := w.wakes(tick + left - 1);
                        status == if reply.Failed? then reply.status else Communication))
    decreases left
  {
    hide Accepted;
    if left > 0 && !Confirms(w.wakes(tick)) {
      var next: ErrorStatus := if w.wakes(tick).Failed? then w.wakes(tick).status else Communication;
      WakeConfirmed(w, tick + 1, left - 1, next);
      assert WakeRun(w, tick, left, last) == WakeRun(w, tick + 1, left - 1, next);
    }
  }

  // ---- The loop as a choice among replies ----

  /** The replies of n exchanges, were all of them made. */
  function Replies(w: World, s: Line, p: Packet, n: nat): (rs: seq<Reply>)
    requires IsCommand(p)
    ensures |rs| == n
    decreases n
  {
    if n == 0 then []
    else
      var (reply, s') := Exchange(w, s, p);
      [reply] + Replies(w, s', p, n - 1)
  }

  /** The bus after n exchanges. */
  function LineAfter(w: World, s: Line, p: Packet, n: nat): Line
    requires IsCommand(p)
    decreases n
  {
    if n == 0 then s else LineAfter(w, Exchange(w, s, p).1, p, n - 1)
  }

  /** The first reply that is not sent back for another try. */
  function FirstDecisive(rs: seq<Reply>): (k: nat)
    ensures k <= |rs|
  {
    if rs == [] || !Judge(rs[0]).Retry? then 0 else 1 + FirstDecisive(rs[1..])
  }

  lemma {:induction false} FirstDecisiveMeaning(rs: seq<Reply>)
    ensures var k := FirstDecisive(rs);
            && (forall i :: 0 <= i < k ==> Judge(rs[i]).Retry?)
            && (k < |rs| ==> !Judge(rs[k]).Retry?)
  {
    hide Judge;
    if rs != [] && Judge(rs[0]).Retry? {
      FirstDecisiveMeaning(rs[1..]);
    }
  }

  /** The status of the last reply that was sent back. */
  function LastStatus(rs: seq<Reply>, last: ErrorStatus): ErrorStatus {
    if rs != [] && Judge(rs[|rs| - 1]).Retry? then Judge(rs[|rs| - 1]).status else last
  }

  /** What a caller can rely on: the first acceptable reply, unless a WAKE_OK status or the last try comes before it. */
  predicate Chosen(rs: seq<Reply>, last: ErrorStatus, o: Outcome) {
    var k := FirstDecisive(rs);
    if k == |rs| then
      o.answer == None && o.status == LastStatus(rs, last)
    else if Judge(rs[k]) == Kill then
      o.answer == None && o.status == BadCommunicationStatus
    else
      rs[k].Delivered? && o.answer == Some(rs[k].bytes) && o.status == Ok
  }

  lemma DecisiveTail(reply: Reply, rs: seq<Reply>, last: ErrorStatus, o: Outcome)
    requires Judge(reply).Retry?
    ensures FirstDecisive([reply] + rs) == 1 + FirstDecisive(rs)
    ensures Chosen(rs, Judge(reply).status, o) ==> Chosen([reply] + rs, last, o)
  {
    hide Judge;
    FirstDecisiveMeaning(rs);
    assert ([reply] + rs)[1..] == rs;
  }

  lemma DecisiveHead(reply: Reply, rs: seq<Reply>)
    requires !Judge(reply).Retry?
    ensures FirstDecisive([reply] + rs) == 0
  {
    hide Judge;
  }

  /** The loop refines the choice of the first decisive reply, and makes no exchange beyond it. */
  lemma {:induction false} CommandChooses(w: World, s: Line, p: Packet, left: nat, last: ErrorStatus)
    requires IsCommand(p)
    ensures Chosen(Replies(w, s, p, left), last, CommandRun(w, s, p, left, last))
    ensures var k := FirstDecisive(Replies(w, s, p, left));
            CommandRun(w, s, p, left, last).line == LineAfter(w, s, p, if k < left then k + 1 else left)
    decreases left
  {
    hide Exchange, Judge, IsCommand, FirstDecisive;
    if left == 0 {
      assert FirstDecisive([]) == 0;
    } else {
      var (reply, s') := Exchange(w, s, p);
      var rest := Replies(w, s', p, left - 1);
      JudgeShape(reply);
      if Judge(reply).Retry? {
        CommandChooses(w, s', p, left - 1, Judge(reply).status);
        hide Chosen;
        DecisiveTail(reply, rest, last, CommandRun(w, s, p, left, last));
      } else {
        DecisiveHead(reply, rest);
        assert LineAfter(w, s', p, 0) == s';
      }
    }
  }

  lemma JudgeShape(reply: Reply)
    ensures !Judge(reply).Retry? ==> reply.Delivered?
  {
  }

  /** An OK answer has a valid checksum and is none of the four rejected status packets; a failure has no answer. */
  lemma {:induction false} CommandAnswerSound(w: World, s: Line, p: Packet, left: nat, last: ErrorStatus)
    requires IsCommand(p)
    ensures var o := CommandRun(w, s, p, left, last);
            && (o.status == Ok <==> o.answer.Some?)
            && (o.answer.Some? ==>
                  && WellFramed(o.answer.value) && Accepted(o.answer.value)
                  && !(|o.answer.value| == 4 && o.answer.value[1] in {0x03, 0x0F, 0xFF, 0x11}))
    decreases left
  {
    hide Accepted, Execute, Judge, Value;
    if left > 0 {
      var (reply, s') := Exchange(w, s, p);
      JudgeMeaning(reply);
      if Judge(reply).Retry? {
        CommandAnswerSound(w, s', p, left - 1, Judge(reply).status);
      }
    }
  }

  /** How many exchanges a run makes: all it may, unless an answer is accepted or a WAKE_OK status ends it. */
  lemma {:induction false} CommandCount(w: World, s: Line, p: Packet, left: nat, last: ErrorStatus)
    requires IsCommand(p)
    ensures var o := CommandRun(w, s, p, left, last);
            && s.tick <= o.line.tick <= s.tick + left
            && (left > 0 ==> s.tick < o.line.tick)
            && (o.line.tick < s.tick + left ==> o.status == Ok || o.status == BadCommunicationStatus)
    decreases left
  {
    hide Judge, Execute;
    if left > 0 {
      var (reply, s') := Exchange(w, s, p);
      if Judge(reply).Retry? {
        CommandCount(w, s', p, left - 1, Judge(reply).status);
      }
    }
  }

  // ---- The lower layer ----

  /** The wire a handle holds; its calls are the exchanges above. */
  class Wire {
    const world: World
    var chip: Zones
    var tick: nat
    /** How many wake pulses have been sent. */
    var pulses: nat
    /** How often idle fails before it succeeds; the kernel layer of the library never reports a failure. */
    var idleFaults: nat

    constructor (world: World, chip: Zones, idleFaults: nat)
      ensures this.world == world && this.chip == chip && tick == 0 && pulses == 0 && this.idleFaults == idleFaults
    {
      this.world, this.chip, tick, pulses, this.idleFaults := world, chip, 0, 0, idleFaults;
    }

    function Now(): Line
      reads this
    {
      Line(chip, tick)
    }

    method Ni2cCommand(packet: Packet) returns (reply: Reply)
      requires IsCommand(packet)
      modifies this`chip, this`tick
      ensures (reply, Now()) == Exchange(world, old(Now()), packet)
    {
      var (r, next) := Exchange(world, Line(chip, tick), packet);
      chip, tick := next.chip, next.tick;
      return r;
    }

    method Ni2cWake() returns (reply: Reply)
      modifies this`tick, this`pulses
      ensures reply == world.wakes(old(tick)) && Now() == Line(old(chip), old(tick) + 1)
      ensures pulses == old(pulses) + 1
    {
      reply := world.wakes(tick);
      tick, pulses := tick + 1, pulses + 1;
    }

    method Ni2cIdle() returns (status: Status)
      modifies this`idleFaults
      ensures status == Ok <==> old(idleFaults) == 0
      ensures old(idleFaults) > 0 ==> idleFaults == old(idleFaults) - 1
    {
      if idleFaults == 0 {
        return Ok;
      }
      idleFaults := idleFaults - 1;
      return Communication;
    }
  }
}
