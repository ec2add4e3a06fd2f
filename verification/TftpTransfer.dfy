/** The transfer as the server runs it: nested retry loops, a reader with an offset, one reused
    packet buffer and a 16-bit counter.  Everything it writes is what module TftpSender's machine
    writes on the same events. */
module TftpTransfer {
  import opened Bytes
  import opened TftpRequest
  import opened TftpPackets
  import opened TftpSender

  /** What one read from the socket gave; `NoEvent` is a read that never returns. */
  datatype Received = Datagram(length: nat) | DeadlinePassed | Broken | NoEvent

  /** A connected socket: the events still to come and the packets written so far. */
  class Conn {
    var events: seq<Event>
    var sent: seq<bytes>

    constructor (events: seq<Event>)
      ensures this.events == events && sent == []
    {
      this.events := events;
      sent := [];
    }

    method Write(b: bytes)
      modifies this`sent
      ensures sent == old(sent) + [b]
    {
      sent := sent + [b];
    }

    /** Takes the next event; a datagram is cut to the buffer, whose other bytes stay. */
    method Read(recv: array<byte>) returns (r: Received)
      modifies this`events, recv
      ensures r == NoEvent <==> old(events) == []
      ensures events == if r == NoEvent then [] else old(events)[1..]
      ensures r == DeadlinePassed <==> old(events) != [] && old(events)[0].Timeout?
      ensures r == Broken <==> old(events) != [] && old(events)[0].SocketFault?
      ensures r.Datagram? ==>
                var p := old(events)[0].content;
                r.length == Min(|p|, recv.Length) && recv[..r.length] == p[..r.length]
    {
      if events == [] {
        return NoEvent;
      }
      var e := events[0];
      events := events[1..];
      match e {
        case Timeout => r := DeadlinePassed;
        case SocketFault => r := Broken;
        case Packet(p) =>
          var n := Min(|p|, recv.Length);
          forall i | 0 <= i < n {
            recv[i] := p[i];
          }
          r := Datagram(n);
      }
    }
  }

  /** The exchange of a packet whose `tries` writes have all timed out. */
  ghost function Retry(number: nat, tries: nat, es: seq<Event>): Exchange
    requires tries <= NUM_RETRIES
  {
    if tries < NUM_RETRIES then
      var x := Await(number, tries + 1, es);
      x.(resends := x.resends + 1)
    else Exchange(GaveUp, es, 0)
  }

  /** Reading only the first 256 bytes of a packet does not change what it says. */
  lemma ClassifyPrefix(p: bytes, n: nat)
    requires n == Min(|p|, 256)
    ensures Classify(p[..n]) == Classify(p)
  {
    if 4 <= |p| {
      assert p[..n][..2] == p[..2] && p[..n][2..4] == p[2..4];
    }
  }

  /** Waits, after one write, for something that settles the packet or for the deadline. */
  method AwaitOnce(conn: Conn, number: nat, ghost tries: nat) returns (settled: Option<Verdict>)
    requires 1 <= tries <= NUM_RETRIES
    modifies conn`events
    ensures settled.Some? ==> Await(number, tries, old(conn.events)) == Exchange(settled.value, conn.events, 0)
    ensures settled.None? ==> Await(number, tries, old(conn.events)) == Retry(number, tries, conn.events)
  {
    var recv := new byte[256];
    while true
      invariant Await(number, tries, conn.events) == Await(number, tries, old(conn.events))
      decreases |conn.events|
    {
      ghost var es := conn.events;
      var r := conn.Read(recv);
      match r {
        case NoEvent => return Some(Pending);
        case DeadlinePassed => return None;
        case Broken => return Some(Faulted);
        case Datagram(n) =>
          ClassifyPrefix(es[0].content, n);
          if n >= 4 {
            var opcode := Get16(recv[..2]);
            assert recv[..n][..2] == recv[..2] && recv[..n][2..4] == recv[2..4];
            if opcode == 4 {
              if Get16(recv[2..4]) == number {
                return Some(Acked);
              }
            } else if opcode == 5 {
              return Some(PeerAborted);
            }
          }
      }
    }
  }

  /** Sends one packet up to five times, until it is settled. */
  method SendPacket(conn: Conn, b: bytes, number: nat) returns (v: Verdict)
    modifies conn
    ensures var x := Await(number, 1, old(conn.events));
            v == x.verdict && conn.events == x.rest && conn.sent == old(conn.sent) + Repeat(b, x.resends + 1)
  {
    ghost var x := Retry(number, 0, conn.events);
    var try := 0;
    while try < NUM_RETRIES
      invariant 0 <= try <= NUM_RETRIES
      invariant var y := Retry(number, try, conn.events);
                x == y.(resends := y.resends + try)
      invariant conn.sent == old(conn.sent) + Repeat(b, try)
    {
      conn.Write(b);
      RepeatSnoc(b, try);
      var settled := AwaitOnce(conn, number, try + 1);
      if settled.Some? {
        return settled.value;
      }
      try := try + 1;
    }
    v := GaveUp;
  }

  lemma {:induction false} RepeatSnoc(b: bytes, n: nat)
    ensures Repeat(b, n) + [b] == Repeat(b, n + 1)
  {
  }

  /** An ERROR packet, filled in byte by byte. */
  method MkError(message: bytes) returns (b: array<byte>)
    ensures fresh(b) && b[..] == ErrorPacket(message) && ErrorBytes(b[..], message)
  {
    b := new byte[|message| + 5](_ => 0);
    b[1] := 5;
    forall i | 0 <= i < |message| {
      b[4 + i] := message[i];
    }
    PacketBytes(0, [], message, 0);
  }

  // ---- Reading the file -----------------------------------------------------------

  datatype ReadError = NoError | UnexpectedEof | Eof | Failed(message: bytes)

  /** A byte stream over bytes that other streams may share.  It never writes to them. */
  class Reader {
    const data: array<byte>
    const end: StreamEnd
    var off: nat

    constructor (data: array<byte>, end: StreamEnd)
      ensures this.data == data && this.end == end && off == 0
    {
      this.data, this.end := data, end;
      off := 0;
    }

    ghost function Contents(): Source
      reads data
    {
      Source(data[..], end)
    }

    /** Fills the buffer from index `from` on, as far as there are bytes. */
    method ReadFull(buf: array<byte>, from: nat) returns (n: nat, err: ReadError)
      requires off <= data.Length && from < buf.Length && buf != data
      modifies this`off, buf
      ensures n == Min(buf.Length - from, data.Length - old(off)) && off == old(off) + n
      ensures buf[..from] == old(buf[..from])
      ensures buf[from..from + n] == data[old(off)..off]
      ensures err.NoError? <==> n == buf.Length - from
      ensures err.Failed? <==> n < buf.Length - from && end.Failing?
      ensures err.Failed? ==> err.message == end.message
      ensures err.Eof? <==> n == 0 && end.AtEof?
    {
      n := Min(buf.Length - from, data.Length - off);
      var start := off;
      for i := 0 to n
        modifies buf
        invariant buf[..from] == old(buf[..from])
        invariant buf[from..from + i] == data[start..start + i]
      {
        buf[from + i] := data[start + i];
      }
      off := off + n;
      err := if n == buf.Length - from then NoError
             else match end
                  case Failing(message) => Failed(message)
                  case CutShort => UnexpectedEof
                  case AtEof => if n == 0 then Eof else UnexpectedEof;
    }
  }

  /** The handler that serves the same bytes to everyone: a stream of its own for every transfer,
      over the one shared array. */
  method Blob(b: array<byte>) returns (f: Reader)
    ensures fresh(f) && f.data == b && f.end == AtEof && f.off == 0
  {
    f := new Reader(b, AtEof);
  }

  // ---- The transfer ----------------------------------------------------------------

  const DEFAULT_BLOCK := 512

  function BlockSizeFor(req: Rrq): (b: nat)
    ensures 0 < b
  {
    if req.blockSize > 0 then req.blockSize else DEFAULT_BLOCK
  }

  /** The message of the read that ends a transfer; a stream that was cut short never gets there. */
  function ReadMessage(end: StreamEnd): bytes {
    if end.Failing? then end.message else Ascii("EOF")
  }

  /** What a request asks of a given byte stream. */
  function JobFor(src: Source, req: Rrq): Job {
    var b := BlockSizeFor(req);
    Job(Chunks(src.data, b, src.end), b, req.blockSize > 0, ReadMessage(src.end))
  }

  /** How a transfer ended, if it did. */
  datatype Ending = Ended(outcome: Outcome) | HandlerFailed | Blocked

  function EndingOf(s: Sender): Ending {
    if s.Finished? then Ended(s.outcome) else Blocked
  }

  function VerdictEnding(v: Verdict): Ending
    requires v != Acked
  {
    if v == Pending then Blocked else Ended(OutcomeOf(v))
  }

  /** The rest of a transfer whose blocks up to `k` are acknowledged. */
  ghost function RestOfRun(j: Job, k: nat, es: seq<Event>): Move
    requires k <= |j.blocks|
  {
    var m := Advance(j, k);
    RunFrom(j, m.state, es).After(m.writes)
  }

  /** One round of the data loop, as the machine sees it: block `k` is sent until it is
      settled, and only an acknowledgement leads on. */
  lemma SendRound(j: Job, k: nat, first: bool, es: seq<Event>, x: Exchange)
    requires first ==> j.oack && k == 0
    requires !first ==> 0 < k <= |j.blocks|
    requires x == Await(k % BLOCK_NUMBERS, 1, es)
    ensures var w := Repeat(BlockPacket(j, k), x.resends + 1);
            var run := RunFrom(j, Sending(k, 1), es).After([BlockPacket(j, k)]);
            && (x.verdict == Acked ==> run == RestOfRun(j, k, x.rest).After(w))
            && (x.verdict != Acked ==> run.writes == w && EndingOf(run.state) == VerdictEnding(x.verdict))
  {
    RunAwait(j, k, 1, es, x);
    var pkt := BlockPacket(j, k);
    var again := Repeat(pkt, x.resends);
    if x.verdict == Acked {
      AfterAfter(RestOfRun(j, k, x.rest), [pkt], again);
    } else if x.verdict != Pending {
      RunFromFinished(j, Settled(j, k, x.verdict).state, x.rest);
      assert again + ([] + []) == again;
    }
  }

  /** A full transaction with a client, once its socket is set up and the handler was asked. */
  method Transfer(conn: Conn, req: Rrq, handle: Result<Reader, bytes>) returns (end: Ending)
    requires handle.Ok? ==> handle.value.off == 0
    modifies conn, if handle.Ok? then {handle.value} else {}
    ensures handle.Err? ==> end == HandlerFailed && conn.sent == old(conn.sent) + [ErrorPacket(handle.error)]
    ensures handle.Ok? ==>
              var m := Run(JobFor(handle.value.Contents(), req), old(conn.events));
              conn.sent == old(conn.sent) + m.writes && end == EndingOf(m.state)
    ensures handle.Ok? ==> handle.value.data[..] == old(handle.value.data[..])
  {
    if handle.Err? {
      var e := MkError(handle.error);
      conn.Write(e[..]);
      return HandlerFailed;
    }
    var f := handle.value;
    ghost var j := JobFor(f.Contents(), req);
    ghost var total := Run(j, conn.events).After(conn.sent);
    var bsize := 512;
    if req.blockSize > 0 {
      bsize := req.blockSize;
      var v := SendOack(conn, req.blockSize, j, total);
      if v != Acked {
        return VerdictEnding(v);
      }
    } else {
      assert total == RestOfRun(j, 0, conn.events).After(conn.sent);
    }
    end := DataLoop(conn, f, bsize, j, total);
  }

  /** Sends the option acknowledgement of a transfer that is to come to `total`. */
  method SendOack(conn: Conn, size: nat, ghost j: Job, ghost total: Move) returns (v: Verdict)
    requires j.oack && j.bsize == size && total == Run(j, conn.events).After(conn.sent)
    modifies conn
    ensures v == Acked ==> total == RestOfRun(j, 0, conn.events).After(conn.sent)
    ensures v != Acked ==> conn.sent == total.writes && VerdictEnding(v) == EndingOf(total.state)
  {
    ghost var sent, x := conn.sent, Await(0, 1, conn.events);
    SendRound(j, 0, true, conn.events, x);
    v := SendPacket(conn, OackPacket(size), 0);
    AfterAfter(RestOfRun(j, 0, x.rest), sent, Repeat(OackPacket(size), x.resends + 1));
  }

  /** Prepares the next DATA packet in the buffer's first `n + 4` bytes. */
  method FillBlock(f: Reader, buf: array<byte>, number: nat) returns (n: nat, err: ReadError)
    requires f.off <= f.data.Length && 4 < buf.Length && buf != f.data && number < BLOCK_NUMBERS
    requires buf[0] == 0 && buf[1] == 3
    modifies f`off, buf
    ensures buf[0] == 0 && buf[1] == 3
    ensures n == Min(buf.Length - 4, f.data.Length - old(f.off)) && f.off == old(f.off) + n
    ensures buf[..n + 4] == DataPacket(number, old(f.data[f.off..])[..n])
    ensures f.data[f.off..] == old(f.data[f.off..])[n..]
    ensures err.Failed? <==> n < buf.Length - 4 && f.end.Failing?
    ensures err.Failed? ==> err.message == f.end.message
    ensures err.Eof? <==> n == 0 && f.end.AtEof?
  {
    buf[2], buf[3] := number / 256, number % 256;
    assert buf[..4] == [0, 3] + Put16(number);
    n, err := f.ReadFull(buf, 4);
    assert buf[0] == buf[..4][0] && buf[1] == buf[..4][1];
    assert buf[..n + 4] == buf[..4] + buf[4..4 + n];
    assert f.data[old(f.off)..f.off] == old(f.data[f.off..])[..n];
  }

  /** What one read finds, in terms of the blocks that are left. */
  lemma NextBlock(j: Job, k: nat, unread: bytes, end: StreamEnd, n: nat)
    requires 0 < j.bsize && k <= |j.blocks| && j.blocks[k..] == Chunks(unread, j.bsize, end)
    requires n == Min(j.bsize, |unread|)
    ensures k == |j.blocks| <==> (n == 0 && end.AtEof?) || (n < j.bsize && end.Failing?)
    ensures k < |j.blocks| ==>
              && j.blocks[k] == unread[..n]
              && (n == j.bsize ==> j.blocks[k + 1..] == Chunks(unread[n..], j.bsize, end))
  {
    var c := Chunks(unread, j.bsize, end);
    if k < |j.blocks| {
      assert j.blocks[k] == c[0];
      assert j.blocks[k + 1..] == c[1..];
      assert unread[..|unread|] == unread;
    }
  }

  /** Increment of an unsigned 16-bit counter. */
  function Next16(n: nat): (r: nat)
    requires n < BLOCK_NUMBERS
    ensures r < BLOCK_NUMBERS
  {
    if n + 1 == BLOCK_NUMBERS then 0 else n + 1
  }

  /** The 16-bit counter follows the block count through every wrap-around. */
  lemma CounterFollowsBlocks(k: nat)
    ensures Next16(k % BLOCK_NUMBERS) == (k + 1) % BLOCK_NUMBERS
  {
  }

  /** The rest of a run that ends without another exchange. */
  lemma RestFinished(j: Job, k: nat, es: seq<Event>)
    requires k <= |j.blocks|
    ensures Short(j, k) ==> RestOfRun(j, k, es) == Move(Finished(k, Success), [])
    ensures !Short(j, k) && k == |j.blocks| ==>
              RestOfRun(j, k, es) == Move(Finished(k, ReadFailed), [ErrorPacket(j.readError)])
  {
    if Advance(j, k).state.Finished? {
      RunFromFinished(j, Advance(j, k).state, es);
    }
  }

  /** Sends block `k + 1` of a transfer that is to come to `total`. */
  method SendBlock(conn: Conn, b: bytes, number: nat, ghost j: Job, ghost k: nat, ghost total: Move)
    returns (v: Verdict)
    requires k < |j.blocks| && !Short(j, k)
    requires number == (k + 1) % BLOCK_NUMBERS && b == BlockPacket(j, k + 1)
    requires total == RestOfRun(j, k, conn.events).After(conn.sent)
    modifies conn
    ensures v == Acked ==> total == RestOfRun(j, k + 1, conn.events).After(conn.sent)
    ensures v != Acked ==> conn.sent == total.writes && VerdictEnding(v) == EndingOf(total.state)
  {
    ghost var sent, x := conn.sent, Await(number, 1, conn.events);
    SendRound(j, k + 1, false, conn.events, x);
    v := SendPacket(conn, b, number);
    AfterAfter(RestOfRun(j, k + 1, x.rest), sent, Repeat(b, x.resends + 1));
  }

  /** The data loop of a transfer, from the first block on. */
  method DataLoop(conn: Conn, f: Reader, bsize: nat, ghost j: Job, ghost total: Move) returns (end: Ending)
    requires 0 < bsize == j.bsize && f.off == 0
    requires j.blocks == Chunks(f.data[..], bsize, f.end) && j.readError == ReadMessage(f.end)
    requires total == RestOfRun(j, 0, conn.events).After(conn.sent)
    modifies conn, f
    ensures conn.sent == total.writes && end == EndingOf(total.state)
  {
    var number := 1;
    var buf := new byte[bsize + 4](_ => 0);
    buf[1] := 3;
    ghost var k := 0;
    assert f.data[0..] == f.data[..];
    while true
      invariant f.off <= f.data.Length && buf[0] == 0 && buf[1] == 3
      invariant k <= |j.blocks| && !Short(j, k) && number == (k + 1) % BLOCK_NUMBERS
      invariant j.blocks[k..] == Chunks(f.data[f.off..], bsize, f.end)
      invariant total == RestOfRun(j, k, conn.events).After(conn.sent)
      decreases f.data.Length - f.off
    {
      ghost var unread := f.data[f.off..];
      var n, err := FillBlock(f, buf, number);
      NextBlock(j, k, unread, f.end, n);
      if err.Eof? || err.Failed? {
        var e := MkError(if err.Failed? then err.message else Ascii("EOF"));
        RestFinished(j, k, conn.events);
        conn.Write(e[..]);
        return Ended(ReadFailed);
      }
      var v := SendBlock(conn, buf[..n + 4], number, j, k, total);
      if v != Acked {
        return VerdictEnding(v);
      }
      CounterFollowsBlocks(k + 1);
      k := k + 1;
      number := Next16(number);
      if n < bsize {
        RestFinished(j, k, conn.events);
        return Ended(Success);
      }
    }
  }
}
