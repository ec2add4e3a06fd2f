/** Concurrent transfers on the heap: every transfer has its own socket, reader, counter and packet
    buffer, and all of them read the bytes of one shared array.  A transfer runs from one read of its
    socket to the next; between two such steps any number of steps of other transfers may happen. */
module TftpSessions {
  import opened Bytes
  import opened TftpRequest
  import opened TftpPackets
  import opened TftpSender
  import opened TftpTransfer
  import Bootp
  import Spec = TftpServe

  /** A transfer that waits for its socket: the variables it has at that point. */
  class Session {
    const addr: bytes
    const req: Rrq
    const f: Reader
    const buf: array<byte>
    const conn: Conn
    var awaitingOack: bool
    var number: nat
    var n: nat
    var tries: nat
    var outcome: Option<Outcome>
    ghost var block: nat

    ghost function TheJob(): Job
      reads f.data
    {
      JobFor(f.Contents(), req)
    }

    ghost function State(): Sender
      reads this
    {
      if outcome.Some? then Finished(block, outcome.value) else Sending(block, tries)
    }

    ghost function Value(): Spec.Session
      reads this, conn
    {
      Spec.Session(addr, req, Move(State(), conn.sent))
    }

    ghost function Repr(): set<object> {
      {this, f, buf, conn}
    }

    /** The buffer is this session's own, and not the array the bytes come from. */
    ghost predicate Separate() {
      f.data != buf && buf.Length == BlockSizeFor(req) + 4
    }

    /** The next read yields what follows block `block`. */
    ghost predicate AtBlock()
      reads this, f, f.data
    {
      var j := TheJob();
      && block <= |j.blocks| && f.off <= f.data.Length && number == block % BLOCK_NUMBERS
      && j.blocks[block..] == Chunks(f.data[f.off..], j.bsize, f.end)
    }

    /** The buffer still holds the packet of the block that is awaited. */
    ghost predicate Holds()
      reads this, buf, f.data
    {
      var j := TheJob();
      && block <= |j.blocks| && (awaitingOack <==> block == 0)
      && (block == 0 ==> j.oack)
      && (0 < block ==> n + 4 <= buf.Length && n == |j.blocks[block - 1]| && buf[..n + 4] == BlockPacket(j, block))
    }

    ghost predicate Valid()
      reads this, f, buf, f.data
    {
      && Separate() && buf[0] == 0 && buf[1] == 3
      && SenderOk(TheJob(), State())
      && (outcome.None? ==>
            && number == block % BLOCK_NUMBERS && Holds()
            && (!Short(TheJob(), block) ==> AtBlock()))
    }

    /** What the read of the next block finds, in terms of the blocks that are left. */
    lemma NextRead(unread: bytes, size: nat)
      requires AtBlock() && unread == f.data[f.off..] && size == Min(BlockSizeFor(req), |unread|)
      ensures var j := TheJob();
              && (block == |j.blocks| <==> (size == 0 && f.end.AtEof?) || (size < j.bsize && f.end.Failing?))
              && (block < |j.blocks| ==>
                    && j.blocks[block] == unread[..size]
                    && (size == j.bsize ==> j.blocks[block + 1..] == Chunks(unread[size..], j.bsize, f.end)))
    {
      NextBlock(TheJob(), block, unread, f.end, size);
    }

    /** Sends the block that has just been read into the buffer. */
    method SendRead(size: nat)
      requires Separate() && buf[0] == 0 && buf[1] == 3 && outcome == None && f.off <= f.data.Length
      requires block < |TheJob().blocks| && !Short(TheJob(), block) && number == (block + 1) % BLOCK_NUMBERS
      requires size == |TheJob().blocks[block]| && size + 4 <= buf.Length
      requires buf[..size + 4] == BlockPacket(TheJob(), block + 1)
      requires size == BlockSizeFor(req) ==>
                 TheJob().blocks[block + 1..] == Chunks(f.data[f.off..], BlockSizeFor(req), f.end)
      modifies this, conn`sent
      ensures Valid()
      ensures Move(State(), conn.sent) == Advance(TheJob(), old(block)).After(old(conn.sent))
    {
      awaitingOack, tries, n, block := false, 1, size, block + 1;
      conn.Write(buf[..n + 4]);
    }

    /** Reports that nothing more could be read. */
    method FailRead(message: bytes)
      requires Separate() && buf[0] == 0 && buf[1] == 3 && outcome == None
      requires block == |TheJob().blocks| && !Short(TheJob(), block) && message == TheJob().readError
      modifies this, conn`sent
      ensures Valid()
      ensures Move(State(), conn.sent) == Advance(TheJob(), old(block)).After(old(conn.sent))
    {
      var e := MkError(message);
      conn.Write(e[..]);
      outcome := Some(ReadFailed);
    }

    /** Reads and sends the block after the one that was acknowledged. */
    method SendNext()
      requires Separate() && buf[0] == 0 && buf[1] == 3
      requires AtBlock() && !Short(TheJob(), block) && outcome == None
      modifies this, f`off, buf, conn`sent
      ensures Valid()
      ensures Move(State(), conn.sent) == Advance(TheJob(), old(block)).After(old(conn.sent))
    {
      NextRead(f.data[f.off..], Min(BlockSizeFor(req), |f.data[f.off..]|));
      CounterFollowsBlocks(block);
      number := Next16(number);
      var size, err := FillBlock(f, buf, number);
      if err.Eof? || err.Failed? {
        FailRead(if err.Failed? then err.message else Ascii("EOF"));
      } else {
        SendRead(size);
      }
    }

    /** Opens a transfer for a request and sends its first packet. */
    constructor (addr: bytes, req: Rrq, f: Reader)
      requires f.off == 0
      modifies f
      ensures this.addr == addr && this.req == req && this.f == f && fresh(Repr() - {f})
      ensures Valid() && Value() == Spec.Session(addr, req, Begin(TheJob()))
    {
      this.addr, this.req, this.f := addr, req, f;
      var b := new byte[BlockSizeFor(req) + 4](_ => 0);
      b[1] := 3;
      buf := b;
      conn := new Conn([]);
      awaitingOack, number, n, tries, outcome, block := req.blockSize > 0, 0, 0, 1, None, 0;
      new;
      assert f.data[0..] == f.data[..];
      if req.blockSize > 0 {
        conn.Write(OackPacket(req.blockSize));
      } else {
        SendNext();
      }
    }

    /** What a received packet says, from the first bytes the read returns. */
    method OnPacket(p: bytes)
      requires Valid() && outcome == None
      modifies this, f`off, buf, conn`sent
      ensures Valid()
      ensures Move(State(), conn.sent) == Feed(TheJob(), old(State()), Packet(p)).After(old(conn.sent))
    {
      ghost var j, s := TheJob(), State();
      if 4 <= |p| {
        var opcode := Get16(p[..2]);
        if opcode == 4 && Get16(p[2..4]) == number {
          if !awaitingOack && n < BlockSizeFor(req) {
            outcome := Some(Success);
          } else {
            SendNext();
          }
        } else if opcode == 5 {
          outcome := Some(Aborted);
        }
      }
    }

    /** One step: the socket reports something, and the transfer runs until it waits again. */
    method OnEvent(e: Event)
      requires Valid()
      modifies this, f`off, buf, conn`sent
      ensures Valid()
      ensures Move(State(), conn.sent) == Feed(TheJob(), old(State()), e).After(old(conn.sent))
    {
      if outcome.Some? {
        return;
      }
      match e {
        case Timeout =>
          if tries < NUM_RETRIES {
            tries := tries + 1;
            conn.Write(if awaitingOack then OackPacket(req.blockSize) else buf[..n + 4]);
          } else {
            outcome := Some(TimedOut);
          }
        case SocketFault =>
          outcome := Some(SocketError);
        case Packet(p) =>
          OnPacket(p);
      }
    }
  }

  /** The server: the shared bytes, the buffer requests are received in, and the transfers started. */
  class Server {
    const blob: array<byte>
    const requests: array<byte>
    var sessions: seq<Session>
    var refused: seq<bytes>
    ghost var owned: set<object>

    /** No session owns an object of another one, or the shared bytes. */
    ghost predicate Disjoint()
      reads this
    {
      && this in owned && requests in owned && blob !in owned
      && (forall i | 0 <= i < |sessions| :: sessions[i].Repr() <= owned - {this, requests})
      && (forall i, k | 0 <= i < |sessions| && 0 <= k < |sessions| && i != k :: sessions[i].Repr() !! sessions[k].Repr())
    }

    ghost predicate Valid()
      reads this, blob, sessions, (set s | s in sessions :: s.f), (set s | s in sessions :: s.buf)
    {
      && requests.Length == Spec.REQUEST_BUFFER && requests != blob
      && Disjoint()
      && (forall i | 0 <= i < |sessions| :: sessions[i].f.data == blob && sessions[i].f.end == AtEof)
      && (forall i | 0 <= i < |sessions| :: sessions[i].Valid())
    }

    /** The transfers, as values. */
    ghost predicate Shows(v: Spec.Server)
      reads this, sessions, set s | s in sessions :: s.conn
    {
      && |v.sessions| == |sessions| && v.refused == refused
      && forall i | 0 <= i < |sessions| :: v.sessions[i] == sessions[i].Value()
    }

    constructor (blob: array<byte>)
      ensures this.blob == blob && fresh(owned)
      ensures Valid() && Shows(Spec.Server([], []))
    {
      this.blob := blob;
      requests := new byte[Spec.REQUEST_BUFFER](_ => 0);
      sessions, refused := [], [];
      owned := {this, requests};
    }

    /** Adds a session that shares nothing with the others but the bytes it reads. */
    method Add(s: Session, ghost v: Spec.Server)
      requires Valid() && Shows(v)
      requires s.Valid() && s.f.data == blob && s.f.end == AtEof && blob !in s.Repr() && s.Repr() !! owned
      modifies this`sessions, this`owned
      ensures owned == old(owned) + s.Repr()
      ensures Valid() && Shows(v.(sessions := v.sessions + [s.Value()]))
    {
      sessions := sessions + [s];
      owned := owned + s.Repr();
    }

    method Open(addr: bytes, req: Rrq) returns (s: Session)
      ensures fresh(s.Repr()) && s.f.data == blob && s.f.end == AtEof && s.Valid()
      ensures s.Value() == Spec.Open(blob[..], addr, req)
    {
      var f := Blob(blob);
      s := new Session(addr, req, f);
    }

    /** Starts a transfer. */
    method Accept(addr: bytes, req: Rrq, ghost v: Spec.Server)
      requires Valid() && Shows(v)
      modifies this`sessions, this`owned
      ensures Valid() && fresh(owned - old(owned))
      ensures Shows(v.(sessions := v.sessions + [Spec.Open(blob[..], addr, req)]))
    {
      var s := Open(addr, req);
      Add(s, v);
    }

    method Refuse(addr: bytes, ghost v: Spec.Server)
      requires Valid() && Shows(v)
      modifies this`refused
      ensures Valid() && Shows(v.(refused := v.refused + [addr]))
    {
      refused := refused + [addr];
    }

    /** Parses a request in the buffer that all requests go through. */
    method Parsed(packet: bytes, ghost v: Spec.Server) returns (req: Option<Rrq>)
      requires Valid() && Shows(v)
      modifies requests
      ensures Valid() && Shows(v) && req == Spec.Request(packet)
    {
      var n := Min(|packet|, Spec.REQUEST_BUFFER);
      Bootp.CopyAt(requests, 0, packet);
      assert requests[..n] == packet[..n];
      req := ParseRRQ(requests[..n]);
    }

    /** A datagram on the listening socket: it is refused, or a transfer of its own is started. */
    method OnDatagram(addr: bytes, packet: bytes, ghost v: Spec.Server)
      requires Valid() && Shows(v) && Spec.ServerOk(blob[..], v)
      modifies this, requests
      ensures Valid() && fresh(owned - old(owned))
      ensures Shows(Spec.Handle(blob[..], v, Spec.Datagram(addr, packet)))
    {
      var req := Parsed(packet, v);
      if req.None? {
        Refuse(addr, v);
      } else {
        Accept(addr, req.value, v);
      }
    }

    /** An event on the socket of one transfer: that transfer makes a step, and no other object
        changes. */
    method OnSocket(i: nat, e: Event, ghost v: Spec.Server)
      requires Valid() && Shows(v) && Spec.ServerOk(blob[..], v)
      modifies if i < |sessions| then sessions[i].Repr() else {}
      ensures Valid() && Shows(Spec.Handle(blob[..], v, Spec.Socket(i, e)))
    {
      if i < |sessions| {
        var s := sessions[i];
        s.OnEvent(e);
        forall k | 0 <= k < |sessions| && k != i
          ensures sessions[k].Valid() && sessions[k].Value() == old(sessions[k].Value())
        {
          assert sessions[k].Repr() !! s.Repr();
        }
        assert s.Value() == Spec.FeedSession(blob[..], v.sessions[i], e);
      }
    }

    method OnInput(input: Spec.Input, ghost v: Spec.Server)
      requires Valid() && Shows(v) && Spec.ServerOk(blob[..], v)
      modifies owned
      ensures Valid() && fresh(owned - old(owned))
      ensures Shows(Spec.Handle(blob[..], v, input))
    {
      match input {
        case Datagram(addr, packet) => OnDatagram(addr, packet, v);
        case Socket(i, e) => OnSocket(i, e, v);
      }
    }
  }

  method ServeInputs(blob: array<byte>, inputs: seq<Spec.Input>) returns (server: Server)
    ensures fresh(server.owned) && server.blob == blob && server.Valid()
    ensures server.Shows(Spec.Serve(blob[..], inputs))
  {
    server := new Server(blob);
    ghost var data, v := blob[..], Spec.Server([], []);
    for i := 0 to |inputs|
      invariant fresh(server.owned)
      invariant server.blob == blob && blob[..] == data && server.Valid() && server.Shows(v)
      invariant v == Spec.Serve(data, inputs[..i])
    {
      server.OnInput(inputs[i], v);
      Spec.ServeOneMore(data, inputs, i);
      v := Spec.Handle(data, v, inputs[i]);
    }
    assert inputs[..|inputs|] == inputs;
  }

  /** The server over any sequence of interleaved inputs, on a blob that nobody else writes.  Every
      transfer has sent, and is in the state, that its own request and its own events alone lead to,
      although all of them ran in turns on one heap; and the blob is as it was. */
  method ServeBlob(blob: array<byte>, inputs: seq<Spec.Input>) returns (server: Server)
    ensures fresh(server.owned) && server.blob == blob && server.Valid()
    ensures blob[..] == old(blob[..])
    ensures |server.sessions| == |Spec.Accepted(inputs)| && server.refused == Spec.Rejected(inputs)
    ensures forall i | 0 <= i < |server.sessions| ::
              server.sessions[i].Value() == Spec.Alone(blob[..], inputs, i)
  {
    server := ServeInputs(blob, inputs);
    Spec.TransfersIndependent(blob[..], inputs);
  }
}
