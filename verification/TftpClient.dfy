/** The receiving side of a transfer, as sections 2, 4, 5 and 6 of RFC 1350 describe it
    (with the option acknowledgement of RFC 2347). */
module TftpClient {
  import opened Bytes
  import opened TftpPackets

  datatype Phase = Receiving | Complete | Stopped

  /** `count` blocks have been received in order; `got` is what they hold. */
  datatype Client = Client(count: nat, got: bytes, phase: Phase)

  const NEW_CLIENT := Client(0, [], Receiving)

  datatype Response = Response(client: Client, ack: Option<nat>)

  /** The next block in order is kept and acknowledged; the one before it is acknowledged again;
      a short block completes the transfer; an error ends it. */
  function Receive(c: Client, bsize: nat, p: bytes): Response {
    if |p| < 4 || c.phase == Stopped then Response(c, None)
    else
      var opcode, number := Get16(p[..2]), Get16(p[2..4]);
      if opcode == 3 then
        if c.phase == Receiving && number == (c.count + 1) % BLOCK_NUMBERS then
          var phase := if |p| - 4 < bsize then Complete else Receiving;
          Response(Client(c.count + 1, c.got + p[4..], phase), Some(c.count + 1))
        else if 0 < c.count && number == c.count % BLOCK_NUMBERS then Response(c, Some(c.count))
        else Response(c, None)
      else if opcode == 6 && c.count == 0 then Response(c, Some(0))
      else if opcode == 5 then Response(c.(phase := if c.phase == Complete then Complete else Stopped), None)
      else Response(c, None)
  }

  /** Everything in a list of packets, received in that order. */
  function ReceiveAll(c: Client, bsize: nat, ps: seq<bytes>): Client
    decreases |ps|
  {
    if ps == [] then c else ReceiveAll(Receive(c, bsize, ps[0]).client, bsize, ps[1..])
  }

  lemma {:induction false} ReceiveAllConcat(c: Client, bsize: nat, ps: seq<bytes>, qs: seq<bytes>)
    ensures ReceiveAll(c, bsize, ps + qs) == ReceiveAll(ReceiveAll(c, bsize, ps), bsize, qs)
    decreases |ps|
  {
    if ps == [] {
      assert ps + qs == qs;
    } else {
      assert (ps + qs)[1..] == ps[1..] + qs;
      ReceiveAllConcat(Receive(c, bsize, ps[0]).client, bsize, ps[1..], qs);
    }
  }

  // ---- How the client sees each kind of packet -------------------------------------

  lemma ReceiveData(c: Client, bsize: nat, number: nat, payload: bytes)
    requires number < BLOCK_NUMBERS
    ensures Receive(c, bsize, DataPacket(number, payload)) ==
            if c.phase == Receiving && number == (c.count + 1) % BLOCK_NUMBERS then
              Response(Client(c.count + 1, c.got + payload, if |payload| < bsize then Complete else Receiving),
                       Some(c.count + 1))
            else if c.phase != Stopped && 0 < c.count && number == c.count % BLOCK_NUMBERS then
              Response(c, Some(c.count))
            else Response(c, None)
  {
    var p := DataPacket(number, payload);
    assert p[..2] == [0, 3] && p[2..4] == Put16(number) && p[4..] == payload;
  }

  lemma ReceiveOack(c: Client, bsize: nat, size: nat)
    ensures Receive(c, bsize, OackPacket(size)) ==
            if c.phase != Stopped && c.count == 0 then Response(c, Some(0)) else Response(c, None)
  {
    assert OackPacket(size)[..2] == [0, 6];
  }

  lemma ReceiveError(c: Client, bsize: nat, message: bytes)
    ensures Receive(c, bsize, ErrorPacket(message)) ==
            Response(c.(phase := if c.phase == Receiving then Stopped else c.phase), None)
  {
    assert ErrorPacket(message)[..2] == [0, 5];
  }
}
