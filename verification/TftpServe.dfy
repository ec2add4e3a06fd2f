/** The TFTP server: requests arrive on one socket, each accepted one starts a transfer with a socket
    of its own, and all transfers read the same blob.  What happens on the sockets is interleaved in
    any order. */
module TftpServe {
  import opened Bytes
  import opened Selecting
  import opened TftpRequest
  import opened TftpPackets
  import opened TftpSender
  import opened TftpTransfer
  import opened TftpClient
  import opened TftpOutput

  const REQUEST_BUFFER := 512

  /** A datagram on the listening socket, or an event on the socket of the i-th transfer started. */
  datatype Input = Datagram(addr: bytes, packet: bytes) | Socket(transfer: nat, event: Event)

  datatype Session = Session(addr: bytes, req: Rrq, progress: Move)

  /** The transfers started, and the addresses that were sent an error instead. */
  datatype Server = Server(sessions: seq<Session>, refused: seq<bytes>)

  /** A request as the listening socket's buffer holds it. */
  function Request(packet: bytes): Option<Rrq> {
    Parse(packet[..Min(|packet|, REQUEST_BUFFER)])
  }

  function BlobJob(blob: bytes, req: Rrq): Job {
    JobFor(Source(blob, AtEof), req)
  }

  predicate SessionOk(blob: bytes, s: Session) {
    SenderOk(BlobJob(blob, s.req), s.progress.state)
  }

  predicate ServerOk(blob: bytes, sv: Server) {
    forall i | 0 <= i < |sv.sessions| :: SessionOk(blob, sv.sessions[i])
  }

  function Open(blob: bytes, addr: bytes, req: Rrq): (s: Session)
    ensures SessionOk(blob, s)
  {
    Session(addr, req, Begin(BlobJob(blob, req)))
  }

  function FeedSession(blob: bytes, s: Session, e: Event): (s': Session)
    requires SessionOk(blob, s)
    ensures SessionOk(blob, s')
  {
    s.(progress := Feed(BlobJob(blob, s.req), s.progress.state, e).After(s.progress.writes))
  }

  function Handle(blob: bytes, sv: Server, input: Input): (sv': Server)
    requires ServerOk(blob, sv)
    ensures ServerOk(blob, sv')
  {
    match input
    case Datagram(addr, packet) =>
      var req := Request(packet);
      if req.None? then sv.(refused := sv.refused + [addr])
      else sv.(sessions := sv.sessions + [Open(blob, addr, req.value)])
    case Socket(i, e) =>
      if i < |sv.sessions| then sv.(sessions := sv.sessions[i := FeedSession(blob, sv.sessions[i], e)])
      else sv
  }

  function Serve(blob: bytes, inputs: seq<Input>): (sv: Server)
    ensures ServerOk(blob, sv)
  {
    if inputs == [] then Server([], [])
    else Handle(blob, Serve(blob, inputs[..|inputs| - 1]), inputs[|inputs| - 1])
  }

  lemma ServeOneMore(blob: bytes, inputs: seq<Input>, i: nat)
    requires i < |inputs|
    ensures Serve(blob, inputs[..i + 1]) == Handle(blob, Serve(blob, inputs[..i]), inputs[i])
  {
    assert inputs[..i + 1][..i] == inputs[..i];
  }

  // ---- Each transfer on its own ---------------------------------------------------------

  /** The accepted requests among the inputs, in order of arrival. */
  function Accepted(inputs: seq<Input>): seq<(bytes, Rrq)> {
    if inputs == [] then []
    else
      var before, last := Accepted(inputs[..|inputs| - 1]), inputs[|inputs| - 1];
      if last.Datagram? && Request(last.packet).Some? then before + [(last.addr, Request(last.packet).value)]
      else before
  }

  /** The addresses of the datagrams that are not acceptable requests, in order of arrival. */
  function Rejected(inputs: seq<Input>): seq<bytes> {
    if inputs == [] then []
    else
      var before, last := Rejected(inputs[..|inputs| - 1]), inputs[|inputs| - 1];
      if last.Datagram? && Request(last.packet).None? then before + [last.addr] else before
  }

  /** What the i-th transfer's own socket reported once that transfer existed. */
  function EventsOf(inputs: seq<Input>, i: nat): seq<Event> {
    if inputs == [] then []
    else
      var prefix, last := inputs[..|inputs| - 1], inputs[|inputs| - 1];
      if last.Socket? && last.transfer == i && i < |Accepted(prefix)| then EventsOf(prefix, i) + [last.event]
      else EventsOf(prefix, i)
  }

  lemma {:induction false} NoEventsYet(inputs: seq<Input>, i: nat)
    requires |Accepted(inputs)| <= i
    ensures EventsOf(inputs, i) == []
  {
    if inputs != [] {
      NoEventsYet(inputs[..|inputs| - 1], i);
    }
  }

  lemma SessionAlone(blob: bytes, sv: Server, inputs: seq<Input>, i: nat)
    requires ServerOk(blob, sv) && inputs != [] && i < |Accepted(inputs)|
    requires var before := inputs[..|inputs| - 1];
             && |sv.sessions| == |Accepted(before)|
             && (i < |sv.sessions| ==> sv.sessions[i] == Alone(blob, before, i))
    ensures var after := Handle(blob, sv, inputs[|inputs| - 1]);
            |after.sessions| == |Accepted(inputs)| && after.sessions[i] == Alone(blob, inputs, i)
  {
    var before, last := inputs[..|inputs| - 1], inputs[|inputs| - 1];
    if i == |Accepted(before)| {
      NoEventsYet(before, i);
      RunNothing(BlobJob(blob, Request(last.packet).value));
    } else if last.Socket? && last.transfer == i {
      RunSnoc(BlobJob(blob, Accepted(before)[i].1), EventsOf(before, i), last.event);
    } else {
      assert Alone(blob, inputs, i) == Alone(blob, before, i);
    }
  }

  /** The i-th transfer run by itself on its own request and its own events. */
  function Alone(blob: bytes, inputs: seq<Input>, i: nat): Session
    requires i < |Accepted(inputs)|
  {
    var (addr, req) := Accepted(inputs)[i];
    Session(addr, req, Run(BlobJob(blob, req), EventsOf(inputs, i)))
  }

  /** However the inputs are interleaved, there is one transfer per accepted request, each of them
      has done exactly what it would have done alone, and every other datagram was refused. */
  lemma {:induction false} TransfersIndependent(blob: bytes, inputs: seq<Input>)
    ensures var sv := Serve(blob, inputs);
            && |sv.sessions| == |Accepted(inputs)|
            && (forall i | 0 <= i < |sv.sessions| :: sv.sessions[i] == Alone(blob, inputs, i))
            && sv.refused == Rejected(inputs)
  {
    if inputs != [] {
      var before := inputs[..|inputs| - 1];
      TransfersIndependent(blob, before);
      forall i | 0 <= i < |Accepted(inputs)|
        ensures Serve(blob, inputs).sessions[i] == Alone(blob, inputs, i)
      {
        SessionAlone(blob, Serve(blob, before), inputs, i);
      }
    }
  }

  /** What the listening socket makes of an input: only the first 512 bytes of a datagram count. */
  function Taken(input: Input): Option<(bytes, Rrq)> {
    if input.Socket? then None
    else
      var req := Parse(input.packet[..Min(|input.packet|, 512)]);
      if req.None? then None else Some((input.addr, req.value))
  }

  function TurnedDown(input: Input): Option<bytes> {
    if input.Datagram? && Parse(input.packet[..Min(|input.packet|, 512)]).None? then Some(input.addr) else None
  }

  /** Transfers are numbered in the order of the requests that started them, one for each acceptable
      request, and the sender of every other datagram is told so, in order. */
  lemma OneEach(inputs: seq<Input>) returns (taken: seq<nat>, turnedDown: seq<nat>)
    ensures Keeps(inputs, Taken, Accepted(inputs), taken)
    ensures Keeps(inputs, TurnedDown, Rejected(inputs), turnedDown)
  {
    AcceptedCollects(inputs);
    taken := CollectKeeps(inputs, Taken);
    turnedDown := CollectKeeps(inputs, TurnedDown);
  }

  lemma {:induction false} AcceptedCollects(inputs: seq<Input>)
    ensures Accepted(inputs) == Collect(inputs, Taken) && Rejected(inputs) == Collect(inputs, TurnedDown)
  {
    if inputs != [] {
      AcceptedCollects(inputs[..|inputs| - 1]);
    }
  }

  /** `events` is all that the socket of transfer `i` reported after input number `since` and before
      number `n`, in order; `at` says at which input each event came. */
  ghost predicate Reported(inputs: seq<Input>, i: nat, since: nat, n: nat, events: seq<Event>, at: seq<nat>) {
    && n <= |inputs| && |at| == |events|
    && (forall k | 0 <= k < |at| :: since < at[k] < n && inputs[at[k]] == Socket(i, events[k]))
    && (forall k, l | 0 <= k < l < |at| :: at[k] < at[l])
    && (forall m | since < m < n && inputs[m].Socket? && inputs[m].transfer == i :: m in at)
  }

  lemma ReportedMore(inputs: seq<Input>, i: nat, since: nat, n: nat, events: seq<Event>, at: seq<nat>)
    requires Reported(inputs, i, since, n, events, at) && n < |inputs|
    ensures if inputs[n].Socket? && inputs[n].transfer == i && since < n then
              Reported(inputs, i, since, n + 1, events + [inputs[n].event], at + [n])
            else Reported(inputs, i, since, n + 1, events, at)
  {
  }

  /** The events of transfer `i` are those its own socket reported after its request came in, all of
      them and in order. */
  lemma OwnEvents(inputs: seq<Input>, i: nat, taken: seq<nat>) returns (at: seq<nat>)
    requires Keeps(inputs, Taken, Accepted(inputs), taken) && i < |taken|
    ensures Reported(inputs, i, taken[i], |inputs|, EventsOf(inputs, i), at)
  {
    at := EventsUpTo(inputs, i, taken, |inputs|);
    assert inputs[..|inputs|] == inputs;
  }

  lemma EventsMore(inputs: seq<Input>, i: nat, n: nat)
    requires n < |inputs|
    ensures EventsOf(inputs[..n + 1], i) ==
            if inputs[n].Socket? && inputs[n].transfer == i && i < |Accepted(inputs[..n])| then
              EventsOf(inputs[..n], i) + [inputs[n].event]
            else EventsOf(inputs[..n], i)
  {
    assert inputs[..n + 1][..n] == inputs[..n];
  }

  lemma {:induction false} EventsUpTo(inputs: seq<Input>, i: nat, taken: seq<nat>, n: nat) returns (at: seq<nat>)
    requires Keeps(inputs, Taken, Accepted(inputs), taken) && i < |taken| && n <= |inputs|
    ensures Reported(inputs, i, taken[i], n, EventsOf(inputs[..n], i), at)
  {
    at := [];
    if 0 < n {
      at := EventsUpTo(inputs, i, taken, n - 1);
      EventsMore(inputs, i, n - 1);
      AcceptedUpTo(inputs, taken, n - 1);
      ReportedMore(inputs, i, taken[i], n - 1, EventsOf(inputs[..n - 1], i), at);
      if inputs[n - 1].Socket? && inputs[n - 1].transfer == i && taken[i] < n - 1 {
        at := at + [n - 1];
      }
    }
  }

  /** The first `count` entries of `taken` are those below `n`. */
  ghost predicate Below(taken: seq<nat>, n: nat, count: nat) {
    count <= |taken| && forall i | 0 <= i < |taken| :: taken[i] < n <==> i < count
  }

  lemma BelowMore(taken: seq<nat>, n: nat, count: nat)
    requires Below(taken, n, count) && forall i, k | 0 <= i < k < |taken| :: taken[i] < taken[k]
    ensures if n in taken then Below(taken, n + 1, count + 1) else Below(taken, n + 1, count)
  {
    if n in taken {
      var c :| 0 <= c < |taken| && taken[c] == n;
      assert count <= c && n <= taken[count];
    }
  }

  lemma {:induction false} AcceptedUpTo(inputs: seq<Input>, taken: seq<nat>, n: nat)
    requires Keeps(inputs, Taken, Accepted(inputs), taken) && n <= |inputs|
    ensures Below(taken, n, |Accepted(inputs[..n])|)
  {
    if 0 < n {
      AcceptedUpTo(inputs, taken, n - 1);
      assert inputs[..n][..n - 1] == inputs[..n - 1];
      BelowMore(taken, n - 1, |Accepted(inputs[..n - 1])|);
      assert Taken(inputs[n - 1]).Some? <==> n - 1 in taken;
    }
  }

  /** So every session that reports success has written the whole blob, whatever the others did. */
  lemma EverySuccessIsTheBlob(blob: bytes, inputs: seq<Input>, i: nat)
    requires i < |Serve(blob, inputs).sessions|
    ensures var s := Serve(blob, inputs).sessions[i];
            s.progress.state.Finished? && s.progress.state.outcome == Success ==>
              ReceiveAll(NEW_CLIENT, BlockSizeFor(s.req), s.progress.writes).got == blob
  {
    TransfersIndependent(blob, inputs);
    SuccessMeansWholeFile(Source(blob, AtEof), Accepted(inputs)[i].1, EventsOf(inputs, i));
  }
}
