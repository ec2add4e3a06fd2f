/** The sending side of a TFTP transfer as a machine driven by what its socket reports.

    `Await` is the life of one packet (retransmissions included); `Feed` is one step of a whole
    transfer.  The imperative transfer of module TftpTransfer is proved to do exactly this. */
module TftpSender {
  import opened Bytes
  import opened TftpRequest
  import opened TftpPackets

  const NUM_RETRIES := 5

  /** What a read from the transfer's socket can report. */
  datatype Event = Timeout | SocketFault | Packet(content: bytes)

  predicate Matches(e: Event, number: nat) {
    e.Packet? && Classify(e.content) == Ack(number)
  }

  predicate Fatal(e: Event) {
    e.SocketFault? || (e.Packet? && Classify(e.content) == Abort)
  }

  function Timeouts(es: seq<Event>): nat {
    if es == [] then 0 else (if es[0].Timeout? then 1 else 0) + Timeouts(es[1..])
  }

  predicate NoneFatal(es: seq<Event>) {
    es == [] || (!Fatal(es[0]) && NoneFatal(es[1..]))
  }

  // ---- One packet ---------------------------------------------------------------

  /** How the wait for one acknowledgement ends; `Pending` is a wait that has not ended yet. */
  datatype Verdict = Acked | GaveUp | PeerAborted | Faulted | Pending

  datatype Reaction = Ignore | Resend | Settle(verdict: Verdict)

  /** The effect of one event on a packet that has been written `tries` times. */
  function React(number: nat, tries: nat, e: Event): Reaction {
    match e
    case Timeout => if tries < NUM_RETRIES then Resend else Settle(GaveUp)
    case SocketFault => Settle(Faulted)
    case Packet(p) =>
      match Classify(p)
      case Noise => Ignore
      case Ack(n) => if n == number then Settle(Acked) else Ignore
      case Abort => Settle(PeerAborted)
  }

  datatype Exchange = Exchange(verdict: Verdict, rest: seq<Event>, resends: nat)

  function Await(number: nat, tries: nat, es: seq<Event>): (x: Exchange)
    requires 1 <= tries <= NUM_RETRIES
    ensures tries + x.resends <= NUM_RETRIES
    ensures |x.rest| <= |es|
    decreases |es|
  {
    if es == [] then Exchange(Pending, [], 0)
    else
      match React(number, tries, es[0])
      case Ignore => Await(number, tries, es[1..])
      case Resend =>
        var x := Await(number, tries + 1, es[1..]);
        x.(resends := x.resends + 1)
      case Settle(v) => Exchange(v, es[1..], 0)
  }

  /** Event `i` is the awaited acknowledgement, and neither a fatal event nor too many
      timeouts come before it. */
  predicate AckInTime(number: nat, tries: nat, es: seq<Event>, i: nat) {
    && i < |es|
    && Matches(es[i], number)
    && NoneFatal(es[..i])
    && tries + Timeouts(es[..i]) <= NUM_RETRIES
  }

  lemma AckInTimeShift(number: nat, tries: nat, e: Event, rest: seq<Event>, i: nat)
    ensures AckInTime(number, tries, [e] + rest, i + 1) <==>
            !Fatal(e) && AckInTime(number, tries + (if e.Timeout? then 1 else 0), rest, i)
  {
    if i < |rest| {
      assert ([e] + rest)[..i + 1] == [e] + rest[..i];
    }
  }

  lemma {:induction false} AckedHasAck(number: nat, tries: nat, es: seq<Event>) returns (i: nat)
    requires 1 <= tries <= NUM_RETRIES
    requires Await(number, tries, es).verdict == Acked
    ensures AckInTime(number, tries, es, i)
    decreases |es|
  {
    if Matches(es[0], number) {
      i := 0;
    } else {
      i := AckedHasAck(number, tries + (if es[0].Timeout? then 1 else 0), es[1..]);
      AckInTimeShift(number, tries, es[0], es[1..], i);
      assert es == [es[0]] + es[1..];
      i := i + 1;
    }
  }

  lemma {:induction false} AckIsTaken(number: nat, tries: nat, es: seq<Event>, i: nat)
    requires 1 <= tries <= NUM_RETRIES
    requires AckInTime(number, tries, es, i)
    ensures Await(number, tries, es).verdict == Acked
    decreases i
  {
    if 0 < i && !Matches(es[0], number) {
      assert es == [es[0]] + es[1..];
      AckInTimeShift(number, tries, es[0], es[1..], i - 1);
      AckIsTaken(number, tries + (if es[0].Timeout? then 1 else 0), es[1..], i - 1);
    }
  }

  /** A packet is acknowledged exactly when a matching ACK arrives in time. */
  lemma AckedExactly(number: nat, tries: nat, es: seq<Event>)
    requires 1 <= tries <= NUM_RETRIES
    ensures Await(number, tries, es).verdict == Acked <==>
            exists i: nat :: AckInTime(number, tries, es, i)
  {
    if Await(number, tries, es).verdict == Acked {
      var i := AckedHasAck(number, tries, es);
    }
    if i: nat :| AckInTime(number, tries, es, i) {
      AckIsTaken(number, tries, es, i);
    }
  }

  /** The events a wait uses up are the front of the stream. */
  lemma {:induction false} AwaitUses(number: nat, tries: nat, es: seq<Event>)
    requires 1 <= tries <= NUM_RETRIES
    ensures var x := Await(number, tries, es);
            es == es[..|es| - |x.rest|] + x.rest && (x.verdict == Pending ==> x.rest == [])
    decreases |es|
  {
    if es != [] {
      var r := React(number, tries, es[0]);
      if !r.Settle? {
        AwaitUses(number, tries + (if r.Resend? then 1 else 0), es[1..]);
      }
    }
  }

  /** Only timeouts cause a packet to be written again: duplicate, stale, short and
      unintelligible packets never do. */
  lemma {:induction false} OnlyTimeoutsResend(number: nat, tries: nat, es: seq<Event>)
    requires 1 <= tries <= NUM_RETRIES
    ensures var x := Await(number, tries, es);
            && x.resends == Timeouts(es[..|es| - |x.rest|]) - (if x.verdict == GaveUp then 1 else 0)
            && (x.verdict == GaveUp ==> tries + x.resends == NUM_RETRIES)
    decreases |es|
  {
    if es != [] {
      var r := React(number, tries, es[0]);
      if !r.Settle? {
        var tries' := if r.Resend? then tries + 1 else tries;
        OnlyTimeoutsResend(number, tries', es[1..]);
        var x := Await(number, tries', es[1..]);
        assert es[..|es| - |x.rest|][1..] == es[1..][..|es[1..]| - |x.rest|];
      } else {
        assert es[..1][1..] == [];
      }
    }
  }

  // ---- One transfer ---------------------------------------------------------------

  /** A transfer to be made: the payloads of DATA blocks 1, 2, ..., the block size, whether the
      block size has to be acknowledged first, and the message of the read that finds no more. */
  datatype Job = Job(blocks: seq<bytes>, bsize: nat, oack: bool, readError: bytes)

  /** The packet the sender waits on for block `k`; block 0 is the option acknowledgement. */
  function BlockPacket(j: Job, k: nat): bytes
    requires k <= |j.blocks|
  {
    if k == 0 then OackPacket(j.bsize) else DataPacket(k % BLOCK_NUMBERS, j.blocks[k - 1])
  }

  datatype Outcome = Success | TimedOut | Aborted | SocketError | ReadFailed

  /** `Sending(k, t)`: block `k` has been written `t` times and is not acknowledged. */
  datatype Sender = Sending(block: nat, tries: nat) | Finished(block: nat, outcome: Outcome)

  datatype Move = Move(state: Sender, writes: seq<bytes>) {
    /** This move with `before` written first. */
    function After(before: seq<bytes>): Move {
      Move(state, before + writes)
    }
  }

  predicate SenderOk(j: Job, s: Sender) {
    && s.block <= |j.blocks|
    && (s.Sending? ==> 1 <= s.tries <= NUM_RETRIES && (s.block == 0 ==> j.oack))
  }

  /** Block `k` is a DATA block that is not full, which ends the transfer. */
  predicate Short(j: Job, k: nat)
    requires k <= |j.blocks|
  {
    0 < k && |j.blocks[k - 1]| < j.bsize
  }

  /** What follows the acknowledgement of block `k`. */
  function Advance(j: Job, k: nat): (m: Move)
    requires k <= |j.blocks|
    ensures SenderOk(j, m.state)
  {
    if Short(j, k) then Move(Finished(k, Success), [])
    else if k < |j.blocks| then Move(Sending(k + 1, 1), [BlockPacket(j, k + 1)])
    else Move(Finished(k, ReadFailed), [ErrorPacket(j.readError)])
  }

  function Begin(j: Job): (m: Move)
    ensures SenderOk(j, m.state)
  {
    if j.oack then Move(Sending(0, 1), [BlockPacket(j, 0)]) else Advance(j, 0)
  }

  function OutcomeOf(v: Verdict): Outcome
    requires v != Acked && v != Pending
  {
    match v
    case GaveUp => TimedOut
    case PeerAborted => Aborted
    case Faulted => SocketError
  }

  function Settled(j: Job, k: nat, v: Verdict): (m: Move)
    requires k <= |j.blocks| && v != Pending
    ensures SenderOk(j, m.state)
  {
    if v == Acked then Advance(j, k) else Move(Finished(k, OutcomeOf(v)), [])
  }

  function Feed(j: Job, s: Sender, e: Event): (m: Move)
    requires SenderOk(j, s)
    ensures SenderOk(j, m.state)
  {
    if s.Finished? then Move(s, [])
    else
      match React(s.block % BLOCK_NUMBERS, s.tries, e)
      case Ignore => Move(s, [])
      case Resend => Move(Sending(s.block, s.tries + 1), [BlockPacket(j, s.block)])
      case Settle(v) => Settled(j, s.block, v)
  }

  /** Feeding a list of events, from a given state. */
  function RunFrom(j: Job, s: Sender, es: seq<Event>): (m: Move)
    requires SenderOk(j, s)
    ensures SenderOk(j, m.state)
    decreases |es|
  {
    if es == [] then Move(s, [])
    else
      var m := Feed(j, s, es[0]);
      RunFrom(j, m.state, es[1..]).After(m.writes)
  }

  /** A whole transfer: everything it writes, and the state it is in, after these events. */
  function Run(j: Job, es: seq<Event>): (m: Move)
    ensures SenderOk(j, m.state)
  {
    var first := Begin(j);
    RunFrom(j, first.state, es).After(first.writes)
  }

  lemma {:induction false} RunFromFinished(j: Job, s: Sender, es: seq<Event>)
    requires SenderOk(j, s) && s.Finished?
    ensures RunFrom(j, s, es) == Move(s, [])
  {
    if es != [] {
      RunFromFinished(j, s, es[1..]);
    }
  }

  lemma AfterAfter(m: Move, first: seq<bytes>, second: seq<bytes>)
    ensures m.After(second).After(first) == m.After(first + second)
  {
    assert first + (second + m.writes) == (first + second) + m.writes;
  }

  lemma AfterNothing(m: Move)
    ensures m.After([]) == m
  {
  }

  /** Events may be fed in two goes. */
  lemma {:induction false} RunFromConcat(j: Job, s: Sender, es: seq<Event>, more: seq<Event>)
    requires SenderOk(j, s)
    ensures var m := RunFrom(j, s, es);
            RunFrom(j, s, es + more) == RunFrom(j, m.state, more).After(m.writes)
    decreases |es|
  {
    if es == [] {
      assert es + more == more;
    } else {
      var f := Feed(j, s, es[0]);
      RunFromConcat(j, f.state, es[1..], more);
      assert (es + more)[1..] == es[1..] + more;
      AfterAfter(RunFrom(j, RunFrom(j, s, es).state, more), f.writes, RunFrom(j, f.state, es[1..]).writes);
    }
  }

  lemma RunNothing(j: Job)
    ensures Run(j, []) == Begin(j)
  {
    assert Begin(j).writes + [] == Begin(j).writes;
  }

  /** One more event is one more step. */
  lemma RunSnoc(j: Job, es: seq<Event>, e: Event)
    ensures var m := Run(j, es);
            Run(j, es + [e]) == Feed(j, m.state, e).After(m.writes)
  {
    var first := Begin(j);
    var m := RunFrom(j, first.state, es);
    RunFromConcat(j, first.state, es, [e]);
    var f := Feed(j, m.state, e);
    assert RunFrom(j, m.state, [e]) == f by {
      assert [e][1..] == [];
      assert f.writes + [] == f.writes;
    }
    AfterAfter(f, first.writes, m.writes);
  }

  /** What the next event does to any run, in terms of the bytes received.  A finished transfer writes
      nothing more.  A client's ERROR or a socket fault ends it at once, without another write; the
      fifth timeout of a packet ends it, earlier ones repeat the packet; only an ACK with the number
      of the packet that is awaited leads on; everything else is ignored. */
  lemma NextStep(j: Job, es: seq<Event>, e: Event)
    ensures var m, next := Run(j, es), Run(j, es + [e]);
            var k := m.state.block;
            && (m.state.Finished? ==> next == m)
            && (m.state.Sending? ==>
                  next == match e
                          case SocketFault => Move(Finished(k, SocketError), m.writes)
                          case Timeout =>
                            if m.state.tries < 5 then Move(Sending(k, m.state.tries + 1), m.writes + [BlockPacket(j, k)])
                            else Move(Finished(k, TimedOut), m.writes)
                          case Packet(p) =>
                            if IsError(p) then Move(Finished(k, Aborted), m.writes)
                            else if IsAck(p, k) then Advance(j, k).After(m.writes)
                            else m)
  {
    RunSnoc(j, es, e);
    var m := Run(j, es);
    assert m.writes + [] == m.writes;
    if e.Packet? {
      ClassifyExactly(e.content);
    }
  }

  /** A client's ERROR packet, whatever follows its opcode. */
  predicate IsError(p: bytes) {
    4 <= |p| && p[0] == 0 && p[1] == 5
  }

  /** An ACK with the number of block `k`. */
  predicate IsAck(p: bytes, k: nat) {
    4 <= |p| && p[0] == 0 && p[1] == 4 && p[2] as int * 256 + p[3] as int == k % 65536
  }

  /** What a run comes to once a packet's exchange is known. */
  function AfterExchange(j: Job, k: nat, tries: nat, x: Exchange): Move
    requires k <= |j.blocks|
  {
    var again := Repeat(BlockPacket(j, k), x.resends);
    if x.verdict == Pending then Move(Sending(k, tries + x.resends), again)
    else
      var m := Settled(j, k, x.verdict);
      RunFrom(j, m.state, x.rest).After(m.writes).After(again)
  }

  lemma AfterResend(j: Job, k: nat, tries: nat, x: Exchange)
    requires k <= |j.blocks|
    ensures AfterExchange(j, k, tries, x.(resends := x.resends + 1)) ==
            AfterExchange(j, k, tries + 1, x).After([BlockPacket(j, k)])
  {
    var pkt := BlockPacket(j, k);
    if x.verdict != Pending {
      var m := Settled(j, k, x.verdict);
      AfterAfter(RunFrom(j, m.state, x.rest).After(m.writes), [pkt], Repeat(pkt, x.resends));
    }
  }

  /** A transfer is one exchange after another: the machine's run from a waiting state is the
      wait for that packet's acknowledgement followed by what its verdict leads to. */
  lemma {:induction false} RunAwait(j: Job, k: nat, tries: nat, es: seq<Event>, x: Exchange)
    requires SenderOk(j, Sending(k, tries)) && x == Await(k % BLOCK_NUMBERS, tries, es)
    ensures RunFrom(j, Sending(k, tries), es) == AfterExchange(j, k, tries, x)
    decreases |es|
  {
    var number := k % BLOCK_NUMBERS;
    if es != [] {
      var reaction := React(number, tries, es[0]);
      RunReacts(j, k, tries, es, reaction);
      if reaction.Ignore? {
        RunAwait(j, k, tries, es[1..], x);
      } else if reaction.Resend? {
        var y := Await(number, tries + 1, es[1..]);
        AfterResend(j, k, tries, y);
        RunAwait(j, k, tries + 1, es[1..], y);
      } else {
        var m := Settled(j, k, reaction.verdict);
        AfterNothing(RunFrom(j, m.state, es[1..]).After(m.writes));
      }
    }
  }

  lemma RunReacts(j: Job, k: nat, tries: nat, es: seq<Event>, reaction: Reaction)
    requires SenderOk(j, Sending(k, tries)) && es != [] && reaction == React(k % BLOCK_NUMBERS, tries, es[0])
    ensures RunFrom(j, Sending(k, tries), es) ==
            match reaction
            case Ignore => RunFrom(j, Sending(k, tries), es[1..])
            case Resend => RunFrom(j, Sending(k, tries + 1), es[1..]).After([BlockPacket(j, k)])
            case Settle(v) => var m := Settled(j, k, v); RunFrom(j, m.state, es[1..]).After(m.writes)
  {
    var f := Feed(j, Sending(k, tries), es[0]);
    AfterNothing(RunFrom(j, f.state, es[1..]));
  }
}
