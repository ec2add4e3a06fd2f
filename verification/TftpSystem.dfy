/** A transfer as a whole: the server's sender, a client, and a network between them that may lose,
    duplicate, delay and reorder packets at will.

    The network never forgets: any packet ever sent may be delivered, at any later time, any number
    of times, or not at all.  Every packet in flight remembers which block it was sent for; neither
    side can see that number, only the 16 bits of it that are in the packet. */
module TftpSystem {
  import opened Bytes
  import opened TftpRequest
  import opened TftpPackets
  import opened TftpSender
  import opened TftpTransfer
  import opened TftpClient
  import opened TftpOutput

  datatype Flying = Flying(block: nat, content: bytes)

  datatype System = System(sender: Sender, client: Client, toClient: set<Flying>, toServer: set<Flying>)

  /** Something the sender's socket reports by itself (a timeout, a fault, a client's ERROR, noise),
      or the delivery of a packet in flight. */
  datatype Action = Local(event: Event) | ToServer(packet: Flying) | ToClient(packet: Flying)

  predicate Enabled(sys: System, a: Action) {
    match a
    case Local(e) => !(e.Packet? && Classify(e.content).Ack?)
    case ToServer(f) => f in sys.toServer
    case ToClient(f) => f in sys.toClient
  }

  /** The sender makes a move, and what it writes takes off. */
  function Moved(sys: System, m: Move): System {
    sys.(sender := m.state, toClient := sys.toClient + set p | p in m.writes :: Flying(m.state.block, p))
  }

  function AckFor(block: nat): Flying {
    Flying(block, AckPacket(block % BLOCK_NUMBERS))
  }

  function Responded(sys: System, r: Response): System {
    sys.(client := r.client, toServer := sys.toServer + if r.ack.Some? then {AckFor(r.ack.value)} else {})
  }

  function Step(j: Job, sys: System, a: Action): (sys': System)
    requires SenderOk(j, sys.sender)
    ensures SenderOk(j, sys'.sender)
  {
    if !Enabled(sys, a) then sys
    else
      match a
      case Local(e) => Moved(sys, Feed(j, sys.sender, e))
      case ToServer(f) => Moved(sys, Feed(j, sys.sender, Packet(f.content)))
      case ToClient(f) => Responded(sys, Receive(sys.client, j.bsize, f.content))
  }

  function Start(j: Job): System {
    Moved(System(Begin(j).state, NEW_CLIENT, {}, {}), Begin(j))
  }

  /** The system after any sequence of actions. */
  function Play(j: Job, acts: seq<Action>): (sys: System)
    ensures SenderOk(j, sys.sender)
  {
    if acts == [] then Start(j) else Step(j, Play(j, acts[..|acts| - 1]), acts[|acts| - 1])
  }

  /** What the sender's socket reported during these actions. */
  function EventsIn(j: Job, acts: seq<Action>): seq<Event> {
    if acts == [] then []
    else
      var before, a := acts[..|acts| - 1], acts[|acts| - 1];
      EventsIn(j, before) + (if Enabled(Play(j, before), a) then EventOf(a) else [])
  }

  function EventOf(a: Action): seq<Event> {
    match a
    case Local(e) => [e]
    case ToServer(f) => [Packet(f.content)]
    case ToClient(_) => []
  }

  predicate InFlight(sys: System, p: bytes) {
    exists f <- sys.toClient :: f.content == p
  }

  lemma MovedInFlight(sys: System, m: Move, p: bytes)
    ensures InFlight(Moved(sys, m), p) <==> InFlight(sys, p) || p in m.writes
  {
    if p in m.writes {
      assert Flying(m.state.block, p) in Moved(sys, m).toClient;
    }
    if f :| f in sys.toClient && f.content == p {
      assert f in Moved(sys, m).toClient;
    }
  }

  /** The sender's part of any play is a run of the machine on what its socket reported, and what is
      in flight to the client is what that run wrote. */
  lemma {:induction false} PlayIsRun(j: Job, acts: seq<Action>)
    ensures var sys, m := Play(j, acts), Run(j, EventsIn(j, acts));
            sys.sender == m.state && forall p :: InFlight(sys, p) <==> p in m.writes
  {
    if acts == [] {
      RunNothing(j);
      forall p ensures InFlight(Start(j), p) <==> p in Begin(j).writes {
        MovedInFlight(System(Begin(j).state, NEW_CLIENT, {}, {}), Begin(j), p);
      }
    } else {
      var front, a := acts[..|acts| - 1], acts[|acts| - 1];
      var before, es := Play(j, front), EventsIn(j, front);
      PlayIsRun(j, front);
      if Enabled(before, a) && !a.ToClient? {
        var e := EventOf(a)[0];
        RunSnoc(j, es, e);
        assert EventsIn(j, acts) == es + [e];
        var m := Feed(j, before.sender, e);
        forall p ensures InFlight(Moved(before, m), p) <==> p in Run(j, es).writes + m.writes {
          MovedInFlight(before, m, p);
        }
      } else {
        assert EventsIn(j, acts) == es;
        assert Play(j, acts).toClient == before.toClient;
      }
    }
  }

  // ---- What a transfer promises ---------------------------------------------------------

  /** The last block the sender takes to have been received. */
  function AckedUpTo(s: Sender): int {
    if s.Finished? && (s.outcome == Success || s.outcome == ReadFailed) then s.block else s.block - 1
  }

  /** The client holds exactly the first blocks of the file, no fewer than the sender believes and
      no more than it sent; and if the sender reports success, or the client takes the transfer for
      complete, the client holds the whole file. */
  predicate Safe(j: Job, sys: System) {
    && sys.client.count <= |j.blocks|
    && sys.client.got == Flatten(j.blocks[..sys.client.count])
    && AckedUpTo(sys.sender) <= sys.client.count <= sys.sender.block
    && (sys.sender.Finished? && sys.sender.outcome == Success ==> sys.client.got == Flatten(j.blocks))
    && (sys.client.phase == Complete ==> sys.client.got == Flatten(j.blocks))
  }

  predicate SentByServer(j: Job, sys: System, f: Flying) {
    && f.block <= sys.sender.block
    && (f.content == ErrorPacket(j.readError)
        || (f.block <= |j.blocks| && f.content == BlockPacket(j, f.block) && (f.block == 0 ==> j.oack)))
  }

  predicate SentByClient(j: Job, sys: System, f: Flying) {
    f.block <= sys.client.count && f == AckFor(f.block) && (f.block == 0 ==> j.oack)
  }

  ghost predicate Inv(j: Job, sys: System) {
    && SenderOk(j, sys.sender) && EndingSound(j, sys.sender)
    && Safe(j, sys)
    && (sys.client.phase == Complete ==> Short(j, sys.client.count))
    && (sys.client.phase == Receiving ==> !Short(j, sys.client.count))
    && (forall f <- sys.toClient :: SentByServer(j, sys, f))
    && (forall f <- sys.toServer :: SentByClient(j, sys, f))
  }

  /** The delivery of a packet for an earlier block that the other side cannot tell from the one it
      is waiting for. */
  predicate Confusing(sys: System, a: Action) {
    match a
    case Local(_) => false
    case ToServer(f) => f.block < sys.sender.block && f.block % BLOCK_NUMBERS == sys.sender.block % BLOCK_NUMBERS
    case ToClient(f) =>
      && 0 < f.block <= sys.client.count && sys.client.phase == Receiving
      && f.block % BLOCK_NUMBERS == (sys.client.count + 1) % BLOCK_NUMBERS
  }

  lemma SameNumber(a: nat, b: nat)
    requires a < b && a % BLOCK_NUMBERS == b % BLOCK_NUMBERS
    ensures a + BLOCK_NUMBERS <= b
  {
  }

  // ---- The invariant holds as long as nothing confusing is delivered ----------------------

  lemma MovedKeepsInv(j: Job, sys: System, m: Move)
    requires WellFormed(j) && Inv(j, sys)
    requires SenderOk(j, m.state) && EndingSound(j, m.state)
    requires sys.sender.block <= m.state.block && AckedUpTo(m.state) <= sys.client.count
    requires forall p <- m.writes :: p == ErrorPacket(j.readError) || (p == BlockPacket(j, m.state.block) && (m.state.block == 0 ==> j.oack))
    ensures Inv(j, Moved(sys, m))
  {
    assert j.blocks[..|j.blocks|] == j.blocks;
  }

  lemma FeedKeepsInv(j: Job, sys: System, e: Event)
    requires WellFormed(j) && Inv(j, sys)
    requires sys.sender.Sending? && Matches(e, sys.sender.block % BLOCK_NUMBERS) ==> sys.client.count == sys.sender.block
    ensures Inv(j, Moved(sys, Feed(j, sys.sender, e)))
  {
    MovedKeepsInv(j, sys, Feed(j, sys.sender, e));
  }

  /** The client takes the next block. */
  lemma AcceptKeepsInv(j: Job, sys: System, c': Client)
    requires WellFormed(j) && Inv(j, sys)
    requires sys.client.phase == Receiving && sys.client.count < |j.blocks| && sys.client.count < sys.sender.block
    requires var k := sys.client.count;
             c' == Client(k + 1, sys.client.got + j.blocks[k], if |j.blocks[k]| < j.bsize then Complete else Receiving)
    ensures Inv(j, Responded(sys, Response(c', Some(c'.count))))
  {
    var k := sys.client.count;
    assert j.blocks[..k + 1] == j.blocks[..k] + [j.blocks[k]];
    FlattenSnoc(j.blocks[..k], j.blocks[k]);
    if k + 1 == |j.blocks| {
      assert j.blocks[..k + 1] == j.blocks;
    }
  }

  /** The client keeps what it has, and acknowledges it again or not; or it stops. */
  lemma KeepKeepsInv(j: Job, sys: System, r: Response)
    requires WellFormed(j) && Inv(j, sys)
    requires r.client == sys.client || r.client == sys.client.(phase := Stopped)
    requires r.ack.Some? ==> r.ack.value == sys.client.count && (sys.client.count == 0 ==> j.oack)
    ensures Inv(j, Responded(sys, r))
  {
  }

  lemma ReceiveKeepsInv(j: Job, sys: System, f: Flying)
    requires WellFormed(j) && Inv(j, sys) && f in sys.toClient && !Confusing(sys, ToClient(f))
    ensures Inv(j, Responded(sys, Receive(sys.client, j.bsize, f.content)))
  {
    var c, r := sys.client, Receive(sys.client, j.bsize, f.content);
    assert SentByServer(j, sys, f);
    if f.content == ErrorPacket(j.readError) {
      ReceiveError(c, j.bsize, j.readError);
      KeepKeepsInv(j, sys, r);
    } else if f.block == 0 {
      ReceiveOack(c, j.bsize, j.bsize);
      KeepKeepsInv(j, sys, r);
    } else {
      ReceiveData(c, j.bsize, f.block % BLOCK_NUMBERS, j.blocks[f.block - 1]);
      if c.phase == Receiving && f.block % BLOCK_NUMBERS == (c.count + 1) % BLOCK_NUMBERS {
        assert f.block == c.count + 1;
        AcceptKeepsInv(j, sys, r.client);
      } else {
        KeepKeepsInv(j, sys, r);
      }
    }
  }

  lemma StepKeepsInv(j: Job, sys: System, a: Action)
    requires WellFormed(j) && Inv(j, sys)
    requires Enabled(sys, a) ==> !Confusing(sys, a)
    ensures Inv(j, Step(j, sys, a))
  {
    if Enabled(sys, a) {
      match a {
        case Local(e) =>
          FeedKeepsInv(j, sys, e);
        case ToServer(f) =>
          assert SentByClient(j, sys, f);
          ClassifyAck(f.block % BLOCK_NUMBERS);
          FeedKeepsInv(j, sys, Packet(f.content));
        case ToClient(f) =>
          ReceiveKeepsInv(j, sys, f);
      }
    }
  }

  lemma StartInv(j: Job)
    requires WellFormed(j)
    ensures Inv(j, Start(j))
  {
    assert j.blocks[..0] == [];
  }

  // ---- Runs in which packets do not live too long ------------------------------------------

  /** The packet is for one of the 65536 blocks up to the one the receiving side waits for. */
  predicate Recent(sys: System, a: Action) {
    match a
    case Local(_) => true
    case ToServer(f) => sys.sender.block < f.block + BLOCK_NUMBERS
    case ToClient(f) => sys.client.count + 1 < f.block + BLOCK_NUMBERS
  }

  ghost predicate RecentRun(j: Job, acts: seq<Action>) {
    acts == [] ||
    (var before, a := Play(j, acts[..|acts| - 1]), acts[|acts| - 1];
     RecentRun(j, acts[..|acts| - 1]) && (Enabled(before, a) ==> Recent(before, a)))
  }

  lemma RecentNotConfusing(sys: System, a: Action)
    requires Recent(sys, a)
    ensures !Confusing(sys, a)
  {
    if Confusing(sys, a) {
      if a.ToServer? {
        SameNumber(a.packet.block, sys.sender.block);
      } else {
        SameNumber(a.packet.block, sys.client.count + 1);
      }
    }
  }

  lemma {:induction false} RecentRunInv(j: Job, acts: seq<Action>)
    requires WellFormed(j) && RecentRun(j, acts)
    ensures Inv(j, Play(j, acts))
  {
    if acts == [] {
      StartInv(j);
    } else {
      var before, a := Play(j, acts[..|acts| - 1]), acts[|acts| - 1];
      RecentRunInv(j, acts[..|acts| - 1]);
      if Enabled(before, a) {
        RecentNotConfusing(before, a);
      }
      StepKeepsInv(j, before, a);
    }
  }

  /** However long the file, a run in which no packet is delivered 65536 or more blocks late is safe. */
  lemma SafeIfRecent(j: Job, acts: seq<Action>)
    requires WellFormed(j) && RecentRun(j, acts)
    ensures Safe(j, Play(j, acts))
  {
    RecentRunInv(j, acts);
  }

  // ---- Files short enough for the block numbers ---------------------------------------------

  /** No two packets of the transfer can be mistaken for one another. */
  predicate Unambiguous(j: Job) {
    |j.blocks| < BLOCK_NUMBERS || (!j.oack && |j.blocks| == BLOCK_NUMBERS && Short(j, BLOCK_NUMBERS))
  }

  lemma NothingConfusing(j: Job, sys: System, a: Action)
    requires Unambiguous(j) && Inv(j, sys) && Enabled(sys, a)
    ensures !Confusing(sys, a)
  {
    if Confusing(sys, a) {
      match a {
        case ToServer(f) =>
          assert SentByClient(j, sys, f);
          SameNumber(f.block, sys.sender.block);
        case ToClient(f) =>
          SameNumber(f.block, sys.client.count + 1);
      }
    }
  }

  lemma {:induction false} UnambiguousInv(j: Job, acts: seq<Action>)
    requires WellFormed(j) && Unambiguous(j)
    ensures Inv(j, Play(j, acts))
  {
    if acts == [] {
      StartInv(j);
    } else {
      var before, a := Play(j, acts[..|acts| - 1]), acts[|acts| - 1];
      UnambiguousInv(j, acts[..|acts| - 1]);
      if Enabled(before, a) {
        NothingConfusing(j, before, a);
      }
      StepKeepsInv(j, before, a);
    }
  }

  // ---- Files that are too long -----------------------------------------------------------------

  function FlyingBlock(j: Job, k: nat): Flying
    requires k <= |j.blocks|
  {
    Flying(k, BlockPacket(j, k))
  }

  /** Every block before `k` has been sent, received and acknowledged; block `k` has been sent. */
  ghost predicate AtBlock(j: Job, sys: System, k: nat) {
    && 1 <= k <= |j.blocks|
    && sys.sender == Sending(k, 1)
    && sys.client == Holding(j, k - 1)
    && (forall i | 1 <= i <= k :: FlyingBlock(j, i) in sys.toClient)
    && (forall i: nat | 1 <= i < k || (i == 0 && j.oack) :: AckFor(i) in sys.toServer)
  }

  lemma PlaySnoc(j: Job, acts: seq<Action>, a: Action)
    ensures Play(j, acts + [a]) == Step(j, Play(j, acts), a)
  {
    assert (acts + [a])[..|acts|] == acts;
  }

  lemma ArrivalStep(j: Job, sys: System, k: nat)
    requires WellFormed(j) && AtBlock(j, sys, k) && SenderOk(j, sys.sender)
    ensures Step(j, sys, ToClient(FlyingBlock(j, k))) ==
            sys.(client := Holding(j, k), toServer := sys.toServer + {AckFor(k)})
  {
    var r := Receive(sys.client, j.bsize, FlyingBlock(j, k).content);
    TakesNext(j, k - 1);
    ReceiveData(sys.client, j.bsize, k % BLOCK_NUMBERS, j.blocks[k - 1]);
    assert r == Response(Holding(j, k), Some(k));
  }

  /** Block `k` arrives. */
  lemma BlockArrives(j: Job, acts: seq<Action>, k: nat) returns (acts': seq<Action>)
    requires WellFormed(j) && AtBlock(j, Play(j, acts), k)
    ensures var sys, sys' := Play(j, acts), Play(j, acts');
            sys' == sys.(client := Holding(j, k), toServer := sys.toServer + {AckFor(k)})
  {
    acts' := acts + [ToClient(FlyingBlock(j, k))];
    PlaySnoc(j, acts, ToClient(FlyingBlock(j, k)));
    ArrivalStep(j, Play(j, acts), k);
  }

  /** An acknowledgement with the awaited number moves the sender on, whatever it was sent for. */
  lemma AckMovesOn(j: Job, acts: seq<Action>, a: nat, k: nat) returns (acts': seq<Action>)
    requires AckFor(a) in Play(j, acts).toServer && a % BLOCK_NUMBERS == k % BLOCK_NUMBERS
    requires Play(j, acts).sender == Sending(k, 1)
    ensures Play(j, acts') == Moved(Play(j, acts), Advance(j, k))
  {
    acts' := acts + [ToServer(AckFor(a))];
    PlaySnoc(j, acts, ToServer(AckFor(a)));
    ClassifyAck(k % BLOCK_NUMBERS);
  }

  lemma FirstBlockSent(j: Job) returns (acts: seq<Action>)
    requires WellFormed(j) && j.blocks != []
    ensures AtBlock(j, Play(j, acts), 1)
  {
    acts := [];
    if j.oack {
      var oack := FlyingBlock(j, 0);
      acts := [ToClient(oack)];
      assert acts[..0] == [];
      assert Play(j, []) == Start(j);
      assert oack in Start(j).toClient;
      ReceiveOack(NEW_CLIENT, j.bsize, j.bsize);
      acts := AckMovesOn(j, acts, 0, 0);
      assert FlyingBlock(j, 1) in Play(j, acts).toClient;
    } else {
      assert FlyingBlock(j, 1) in Start(j).toClient;
    }
  }

  lemma NextBlockSent(j: Job, sys: System, k: nat)
    requires WellFormed(j) && AtBlock(j, sys, k) && k < |j.blocks|
    ensures AtBlock(j, Moved(sys.(client := Holding(j, k), toServer := sys.toServer + {AckFor(k)}), Advance(j, k)), k + 1)
  {
    assert Advance(j, k) == Move(Sending(k + 1, 1), [BlockPacket(j, k + 1)]);
    var sys' := Moved(sys.(client := Holding(j, k), toServer := sys.toServer + {AckFor(k)}), Advance(j, k));
    assert FlyingBlock(j, k + 1) in sys'.toClient;
    forall i | 1 <= i <= k + 1 ensures FlyingBlock(j, i) in sys'.toClient {
    }
  }

  /** The transfer can get to any block without a hitch. */
  lemma {:induction false} ReachBlock(j: Job, k: nat) returns (acts: seq<Action>)
    requires WellFormed(j) && 1 <= k <= |j.blocks|
    ensures AtBlock(j, Play(j, acts), k)
  {
    if k == 1 {
      acts := FirstBlockSent(j);
    } else {
      acts := ReachBlock(j, k - 1);
      NextBlockSent(j, Play(j, acts), k - 1);
      acts := BlockArrives(j, acts, k - 1);
      acts := AckMovesOn(j, acts, k - 1, k - 1);
    }
  }

  /** An old acknowledgement is taken for that of block `k`, which the client does not have. */
  lemma StaleAckTaken(j: Job, k: nat, a: nat) returns (acts: seq<Action>)
    requires WellFormed(j) && 1 <= k <= |j.blocks|
    requires (1 <= a < k || (a == 0 && j.oack)) && a % BLOCK_NUMBERS == k % BLOCK_NUMBERS
    ensures Play(j, acts).sender == Advance(j, k).state && Play(j, acts).client == Holding(j, k - 1)
  {
    acts := ReachBlock(j, k);
    acts := AckMovesOn(j, acts, a, k);
  }

  lemma StaleStep(j: Job, sys: System)
    requires SenderOk(j, sys.sender) && |j.blocks| == BLOCK_NUMBERS && !Short(j, |j.blocks|)
    requires sys.client == Holding(j, |j.blocks|) && FlyingBlock(j, 1) in sys.toClient
    ensures Step(j, sys, ToClient(FlyingBlock(j, 1))).client.count == |j.blocks| + 1
  {
    ReceiveData(sys.client, j.bsize, 1, j.blocks[0]);
  }

  /** An old block is taken for the one after the last. */
  lemma StaleBlockTaken(j: Job) returns (acts: seq<Action>)
    requires WellFormed(j) && |j.blocks| == BLOCK_NUMBERS && !Short(j, |j.blocks|)
    ensures Play(j, acts).client.count == |j.blocks| + 1
  {
    var n, stale := |j.blocks|, FlyingBlock(j, 1);
    acts := ReachBlock(j, n);
    acts := BlockArrives(j, acts, n);
    PlaySnoc(j, acts, ToClient(stale));
    StaleStep(j, Play(j, acts));
    acts := acts + [ToClient(stale)];
  }

  /** A file too long for the block numbers can be transferred wrongly: an old acknowledgement makes
      the sender skip a block, or an old block is appended by the client. */
  lemma UnsafeRun(j: Job) returns (acts: seq<Action>)
    requires WellFormed(j) && !Unambiguous(j)
    ensures !Safe(j, Play(j, acts))
  {
    if j.oack {
      acts := StaleAckTaken(j, BLOCK_NUMBERS, 0);
    } else if BLOCK_NUMBERS < |j.blocks| {
      acts := StaleAckTaken(j, BLOCK_NUMBERS + 1, 1);
    } else {
      acts := StaleBlockTaken(j);
    }
  }

  /** The sender reports success although the client never got the last block. */
  predicate FalseSuccess(j: Job, sys: System) {
    sys.sender.Finished? && sys.sender.outcome == Success && sys.client.count < |j.blocks|
  }

  /** For every file that ends inside a block and is too long, an old acknowledgement can be taken for
      that of the last block: the sender reports success and the client waits for the rest. */
  lemma FalseSuccessRun(j: Job) returns (acts: seq<Action>)
    requires WellFormed(j) && !Unambiguous(j) && Short(j, |j.blocks|)
    ensures Play(j, acts).sender == Finished(|j.blocks|, Success)
    ensures Play(j, acts).client == Holding(j, |j.blocks| - 1) && Play(j, acts).client.phase == Receiving
  {
    acts := StaleAckTaken(j, |j.blocks|, |j.blocks| - BLOCK_NUMBERS);
  }

  /** No run falsely reports success if and only if the block numbers are unambiguous or the file
      does not end inside a block, in which case success is never reported at all. */
  lemma FalseSuccessExactly(j: Job)
    requires WellFormed(j)
    ensures (exists acts :: FalseSuccess(j, Play(j, acts))) <==> !Unambiguous(j) && Short(j, |j.blocks|)
  {
    if !Unambiguous(j) && Short(j, |j.blocks|) {
      var acts := FalseSuccessRun(j);
      assert FalseSuccess(j, Play(j, acts));
    }
    if acts :| FalseSuccess(j, Play(j, acts)) {
      PlayIsRun(j, acts);
      EndingSoundFrom(j, Begin(j).state, EventsIn(j, acts));
      if Unambiguous(j) {
        UnambiguousInv(j, acts);
      }
    }
  }

  /** Every run is safe if and only if the block numbers are unambiguous. */
  lemma SafeExactly(j: Job)
    requires WellFormed(j)
    ensures (forall acts :: Safe(j, Play(j, acts))) <==> Unambiguous(j)
  {
    if Unambiguous(j) {
      forall acts ensures Safe(j, Play(j, acts)) {
        UnambiguousInv(j, acts);
      }
    } else {
      var acts := UnsafeRun(j);
    }
  }

  lemma MulAtMost(q: nat, n: nat, b: nat)
    requires q <= n
    ensures q * b <= n * b
  {
  }

  lemma QuotientBounds(d: nat, b: nat, q: nat, r: nat, n: nat)
    requires r < b && d == q * b + r
    ensures q < n <==> d < n * b
    ensures q + (if r != 0 then 1 else 0) <= n <==> d <= n * b
  {
    if q < n {
      MulAtMost(q + 1, n, b);
      assert (q + 1) * b == q * b + b;
    } else {
      MulAtMost(n, q, b);
      if n < q {
        MulAtMost(n + 1, q, b);
        assert (n + 1) * b == n * b + b;
      }
    }
  }

  lemma BlockCountBounds(d: nat, b: nat)
    requires 0 < b
    ensures d / b < 65536 <==> d < 65536 * b
    ensures d / b + (if d % b != 0 then 1 else 0) <= 65535 <==> d <= 65535 * b
  {
    var q, r := d / b, d % b;
    assert d == q * b + r;
    QuotientBounds(d, b, q, r, 65535);
    QuotientBounds(d, b, q, r, 65536);
  }

  /** In terms of the file: a file of `d` bytes in blocks of `b`. */
  lemma UnambiguousLength(data: bytes, req: Rrq)
    ensures Unambiguous(JobFor(Source(data, AtEof), req)) <==>
            if req.blockSize > 0 then |data| <= 65535 * BlockSizeFor(req)
            else |data| < 65536 * BlockSizeFor(req)
  {
    JobMeaning(Source(data, AtEof), req);
    BlockCountBounds(|data|, BlockSizeFor(req));
  }

  /** What safety means for the file: the client's bytes are a prefix of it, and all of it once the
      sender has reported success. */
  lemma SafeMeansPrefix(data: bytes, req: Rrq, sys: System)
    requires Safe(JobFor(Source(data, AtEof), req), sys)
    ensures sys.client.got <= data
    ensures sys.sender.Finished? && sys.sender.outcome == Success ==> sys.client.got == data
  {
    JobMeaning(Source(data, AtEof), req);
    FlattenPrefix(JobFor(Source(data, AtEof), req).blocks, sys.client.count);
  }

  /** Success is trustworthy for exactly the files whose length is safe, or is a multiple of the block
      size, so that success is never reported. */
  lemma SuccessTrustedExactly(data: bytes, req: Rrq)
    ensures var j := JobFor(Source(data, AtEof), req);
            (forall acts :: !FalseSuccess(j, Play(j, acts))) <==>
            || |data| % BlockSizeFor(req) == 0
            || if req.blockSize > 0 then |data| <= 65535 * BlockSizeFor(req) else |data| < 65536 * BlockSizeFor(req)
  {
    JobMeaning(Source(data, AtEof), req);
    FalseSuccessExactly(JobFor(Source(data, AtEof), req));
    UnambiguousLength(data, req);
  }

  /** When it is not, there is a run that reports success while the client lacks bytes of the file. */
  lemma SuccessLosesBytes(data: bytes, req: Rrq) returns (acts: seq<Action>)
    requires |data| % BlockSizeFor(req) != 0 && !Unambiguous(JobFor(Source(data, AtEof), req))
    ensures var sys := Play(JobFor(Source(data, AtEof), req), acts);
            sys.sender.Finished? && sys.sender.outcome == Success && sys.client.got < data
  {
    var j := JobFor(Source(data, AtEof), req);
    JobMeaning(Source(data, AtEof), req);
    acts := FalseSuccessRun(j);
    var n := |j.blocks|;
    assert j.blocks == j.blocks[..n - 1] + [j.blocks[n - 1]];
    FlattenSnoc(j.blocks[..n - 1], j.blocks[n - 1]);
    assert j.blocks[n - 1] in j.blocks;
  }

  /** The whole result, for every file and request: in every run over such a network the client's
      bytes are a prefix of the file that keeps up with the sender, and all of it once success is
      reported, exactly when the file is short enough. */
  lemma TransferSafeExactly(data: bytes, req: Rrq)
    ensures var j := JobFor(Source(data, AtEof), req);
            && Flatten(j.blocks) == data
            && ((forall acts :: Safe(j, Play(j, acts))) <==>
                if req.blockSize > 0 then |data| <= 65535 * BlockSizeFor(req)
                else |data| < 65536 * BlockSizeFor(req))
  {
    JobMeaning(Source(data, AtEof), req);
    SafeExactly(JobFor(Source(data, AtEof), req));
    UnambiguousLength(data, req);
  }
}
