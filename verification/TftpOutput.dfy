/** What a transfer writes, over every run: the shape of its output, how much of it there can be,
    what it adds up to, and when it ends and how. */
module TftpOutput {
  import opened Bytes
  import opened Decimal
  import opened TftpRequest
  import opened TftpPackets
  import opened TftpSender
  import opened TftpTransfer
  import opened TftpClient

  /** Only the last block of a job may be short. */
  predicate WellFormed(j: Job) {
    && (forall i | 0 <= i < |j.blocks| :: |j.blocks[i]| <= j.bsize)
    && (forall i | 0 <= i < |j.blocks| - 1 :: |j.blocks[i]| == j.bsize)
  }

  /** The job of a request has the stream's blocks.  The last of them is short exactly when the
      stream ends inside a block or was cut short, and empty exactly when it was cut short between
      two blocks. */
  lemma JobMeaning(src: Source, req: Rrq)
    ensures var j := JobFor(src, req);
            && 0 < j.bsize && WellFormed(j)
            && (Short(j, |j.blocks|) <==> EndsShort(src.data, j.bsize, src.end))
            && |j.blocks| == |src.data| / j.bsize + (if Short(j, |j.blocks|) then 1 else 0)
            && ([] in j.blocks <==> src.end.CutShort? && |src.data| % j.bsize == 0)
            && Flatten(j.blocks) <= src.data
            && (!src.end.Failing? ==> Flatten(j.blocks) == src.data)
  {
    ChunksCount(src.data, BlockSizeFor(req), src.end);
    ChunksSizes(src.data, BlockSizeFor(req), src.end);
    ChunksJoined(src.data, BlockSizeFor(req), src.end);
  }

  // ---- The shape of the output -------------------------------------------------------

  /** Blocks `from`, `from + 1`, ... written `counts[0]`, `counts[1]`, ... times. */
  function Sends(j: Job, from: nat, counts: seq<nat>): seq<bytes>
    requires from + |counts| <= |j.blocks| + 1
    decreases |counts|
  {
    if counts == [] then [] else Repeat(BlockPacket(j, from), counts[0]) + Sends(j, from + 1, counts[1..])
  }

  /** The first packet written is the option acknowledgement, numbered 0, or else block 1. */
  function FirstBlock(j: Job): nat {
    if j.oack then 0 else 1
  }

  /** The error packet that ends a transfer whose reader has nothing more. */
  function Tail(j: Job, s: Sender): seq<bytes> {
    if s.Finished? && s.outcome == ReadFailed then [ErrorPacket(j.readError)] else []
  }

  predicate EachTried(counts: seq<nat>) {
    forall i | 0 <= i < |counts| :: 1 <= counts[i] <= NUM_RETRIES
  }

  /** `m` goes on from a state in which block `k` has been written `t` times: `counts[0]` is how
      often that block is written again, the rest how often the following ones are written. */
  predicate Shape(j: Job, k: nat, t: nat, counts: seq<nat>, m: Move) {
    && counts != [] && counts[0] + t <= NUM_RETRIES && EachTried(counts[1..])
    && m.state.block + 1 == k + |counts| <= |j.blocks| + 1
    && m.writes == Sends(j, k, counts) + Tail(j, m.state)
  }

  /** Writing block `k` once more in front. */
  function OneMore(counts: seq<nat>): (r: seq<nat>)
    requires counts != []
    ensures |r| == |counts| && r[0] == counts[0] + 1 && r[1..] == counts[1..]
  {
    [counts[0] + 1] + counts[1..]
  }

  lemma ShapeResend(j: Job, k: nat, t: nat, counts: seq<nat>, m: Move)
    requires Shape(j, k, t, counts, m) && 0 < t
    ensures Shape(j, k, t - 1, OneMore(counts), m.After([BlockPacket(j, k)]))
  {
    assert Sends(j, k, OneMore(counts)) == [BlockPacket(j, k)] + Sends(j, k, counts);
  }

  lemma ShapeNext(j: Job, k: nat, t: nat, counts: seq<nat>, m: Move)
    requires 0 < k && Shape(j, k, 0, counts, m) && 1 <= counts[0] && t <= NUM_RETRIES
    ensures Shape(j, k - 1, t, [0] + counts, m)
  {
    assert ([0] + counts)[1..] == counts;
    assert counts == [counts[0]] + counts[1..];
  }

  lemma ShapeEnd(j: Job, k: nat, t: nat, m: Move)
    requires t <= NUM_RETRIES && m.state.block == k <= |j.blocks| && m.writes == Tail(j, m.state)
    ensures Shape(j, k, t, [0], m)
  {
    assert Sends(j, k, [0]) == [];
  }

  /** The four things one event can do to a sender that waits for block `k`. */
  predicate FeedResult(j: Job, k: nat, t: nat, m: Move)
    requires k <= |j.blocks|
  {
    || m == Move(Sending(k, t), [])
    || (t < NUM_RETRIES && m == Move(Sending(k, t + 1), [BlockPacket(j, k)]))
    || m == Advance(j, k)
    || (m.state.Finished? && m.state.block == k && m.writes == [] && Tail(j, m.state) == [])
  }

  lemma FeedCases(j: Job, k: nat, t: nat, e: Event)
    requires SenderOk(j, Sending(k, t))
    ensures FeedResult(j, k, t, Feed(j, Sending(k, t), e))
  {
  }

  lemma ShapeOver(j: Job, k: nat, t: nat, m: Move) returns (counts: seq<nat>)
    requires k <= |j.blocks| && 1 <= t <= NUM_RETRIES && FeedResult(j, k, t, m) && m.state.Finished?
    ensures Shape(j, k, t, counts, Move(m.state, []).After(m.writes))
  {
    counts := [0];
    assert m.writes + [] == m.writes;
    ShapeEnd(j, k, t, m);
  }

  lemma ShapeOn(j: Job, k: nat, t: nat, m: Move, rest: Move, more: seq<nat>) returns (counts: seq<nat>)
    requires k <= |j.blocks| && 1 <= t <= NUM_RETRIES && FeedResult(j, k, t, m) && m.state.Sending?
    requires Shape(j, m.state.block, m.state.tries, more, rest)
    ensures Shape(j, k, t, counts, rest.After(m.writes))
  {
    counts := more;
    if m == Move(Sending(k, t), []) {
      AfterNothing(rest);
    } else {
      ShapeResend(j, m.state.block, m.state.tries, more, rest);
      counts := OneMore(more);
      if m.state.block == k + 1 {
        ShapeNext(j, k + 1, t, counts, rest.After(m.writes));
        counts := [0] + counts;
      }
    }
  }

  lemma {:induction false} ShapeFrom(j: Job, k: nat, t: nat, es: seq<Event>) returns (counts: seq<nat>)
    requires SenderOk(j, Sending(k, t))
    ensures Shape(j, k, t, counts, RunFrom(j, Sending(k, t), es))
    decreases |es|
  {
    if es == [] {
      counts := [0];
      ShapeEnd(j, k, t, Move(Sending(k, t), []));
    } else {
      var m := Feed(j, Sending(k, t), es[0]);
      FeedCases(j, k, t, es[0]);
      if m.state.Finished? {
        RunFromFinished(j, m.state, es[1..]);
        counts := ShapeOver(j, k, t, m);
      } else {
        var more := ShapeFrom(j, m.state.block, m.state.tries, es[1..]);
        counts := ShapeOn(j, k, t, m, RunFrom(j, m.state, es[1..]), more);
      }
    }
  }

  /** Every run writes consecutive blocks in order, each between one and five times, up to the
      block it is at, and then an error packet exactly if its reader gave out. */
  lemma RunShape(j: Job, es: seq<Event>) returns (counts: seq<nat>)
    ensures EachTried(counts) && forall i | 0 <= i < |counts| :: 1 <= counts[i] <= 5
    ensures var m := Run(j, es);
            && m.state.block + 1 == FirstBlock(j) + |counts|
            && m.writes == Sends(j, FirstBlock(j), counts) + Tail(j, m.state)
  {
    var b, first := Begin(j), FirstBlock(j);
    if b.state.Finished? {
      counts := [];
      RunFromFinished(j, b.state, es);
    } else {
      counts := ShapeFrom(j, first, 1, es);
      ShapeResend(j, first, 1, counts, RunFrom(j, b.state, es));
      counts := OneMore(counts);
      assert counts == [counts[0]] + counts[1..];
    }
  }

  lemma {:induction false} SendsBounds(j: Job, from: nat, counts: seq<nat>)
    requires from + |counts| <= |j.blocks| + 1 && EachTried(counts)
    ensures |counts| <= |Sends(j, from, counts)| <= NUM_RETRIES * |counts|
    ensures forall p <- Sends(j, from, counts) ::
              exists k: nat | from <= k < from + |counts| :: p == BlockPacket(j, k)
    decreases |counts|
  {
    if counts != [] {
      SendsBounds(j, from + 1, counts[1..]);
      forall p <- Sends(j, from, counts)
        ensures exists k: nat | from <= k < from + |counts| :: p == BlockPacket(j, k)
      {
        if p !in Sends(j, from + 1, counts[1..]) {
          assert p == BlockPacket(j, from);
        }
      }
    }
  }

  /** However the network behaves, a transfer writes at most five packets per block, plus five
      option acknowledgements and one error. */
  lemma WritesBounded(j: Job, es: seq<Event>)
    ensures var m := Run(j, es);
            |m.writes| - |Tail(j, m.state)| <= 5 * (|j.blocks| + 1)
  {
    var first := FirstBlock(j);
    var counts := RunShape(j, es);
    SendsBounds(j, first, counts);
  }

  predicate IsData(p: bytes) {
    2 <= |p| && p[..2] == [0, 3]
  }

  /** Every DATA packet of every run carries at most a block, and none is empty unless a block is. */
  lemma DataFits(j: Job, es: seq<Event>)
    requires WellFormed(j)
    ensures forall p <- Run(j, es).writes :: IsData(p) ==> 4 <= |p| <= j.bsize + 4 && (|p| == 4 ==> [] in j.blocks)
    ensures forall p <- Run(j, es).writes :: IsData(p) && |p| < j.bsize + 4 ==> p == BlockPacket(j, |j.blocks|)
  {
    var first := FirstBlock(j);
    var counts := RunShape(j, es);
    SendsBounds(j, first, counts);
    assert !IsData(ErrorPacket(j.readError)) by {
      assert ErrorPacket(j.readError)[1] == 5;
    }
    forall p <- Run(j, es).writes | IsData(p)
      ensures 4 <= |p| <= j.bsize + 4 && (|p| == 4 ==> [] in j.blocks)
      ensures |p| < j.bsize + 4 ==> p == BlockPacket(j, |j.blocks|)
    {
      if p in Sends(j, first, counts) {
        var k: nat :| first <= k < first + |counts| && p == BlockPacket(j, k);
        assert p[1] == p[..2][1];
        assert j.blocks[k - 1] in j.blocks;
      }
    }
  }

  /** Every packet of every run, byte by byte: the option acknowledgement of the block size, a block
      under its number, or the reader's error. */
  lemma OnTheWire(j: Job, es: seq<Event>)
    ensures forall p <- Run(j, es).writes ::
              || (j.oack && OackBytes(p, j.bsize))
              || (exists i | 0 <= i < |j.blocks| :: DataBytes(p, i + 1, j.blocks[i]))
              || ErrorBytes(p, j.readError)
  {
    var first := FirstBlock(j);
    var counts := RunShape(j, es);
    SendsBounds(j, first, counts);
    forall p <- Run(j, es).writes
      ensures (j.oack && OackBytes(p, j.bsize)) || ErrorBytes(p, j.readError)
              || exists i | 0 <= i < |j.blocks| :: DataBytes(p, i + 1, j.blocks[i])
    {
      if p in Sends(j, first, counts) {
        var k: nat :| first <= k < first + |counts| && p == BlockPacket(j, k);
        PacketBytes(k, if k == 0 then [] else j.blocks[k - 1], [], j.bsize);
        assert 0 < k ==> DataBytes(p, (k - 1) + 1, j.blocks[k - 1]);
      } else {
        PacketBytes(0, [], j.readError, 0);
      }
    }
  }

  lemma SendsLastStep(j: Job, from: nat, counts: seq<nat>, last: bytes)
    requires 1 < |counts| && from + |counts| <= |j.blocks| + 1
    requires var tail := Sends(j, from + 1, counts[1..]); tail != [] && tail[|tail| - 1] == last
    ensures var out := Sends(j, from, counts); out != [] && out[|out| - 1] == last
  {
  }

  lemma {:induction false} SendsLast(j: Job, from: nat, counts: seq<nat>)
    requires counts != [] && from + |counts| <= |j.blocks| + 1 && EachTried(counts)
    ensures var out := Sends(j, from, counts);
            out != [] && out[|out| - 1] == BlockPacket(j, from + |counts| - 1)
    decreases |counts|
  {
    if 1 < |counts| {
      SendsLast(j, from + 1, counts[1..]);
      SendsLastStep(j, from, counts, BlockPacket(j, from + |counts| - 1));
    } else {
      assert counts[1..] == [];
      assert Sends(j, from, counts) == Repeat(BlockPacket(j, from), counts[0]);
    }
  }

  /** The last packet a successful run writes is the last block's, which is short. */
  lemma SuccessEndsShort(j: Job, es: seq<Event>)
    requires WellFormed(j) && Succeeds(j, es)
    ensures var out := Run(j, es).writes;
            && out != [] && Short(j, |j.blocks|)
            && out[|out| - 1] == BlockPacket(j, |j.blocks|)
  {
    EndingSoundFrom(j, Begin(j).state, es);
    var counts := RunShape(j, es);
    SendsLast(j, FirstBlock(j), counts);
  }

  /** The first thing a transfer with an option acknowledgement writes is that acknowledgement. */
  lemma OackFirst(j: Job, es: seq<Event>)
    requires j.oack
    ensures |Run(j, es).writes| > 0 && Run(j, es).writes[0] == OackPacket(j.bsize)
  {
  }

  /** For every accepted request, every stream and every run: the request is the printed form of some
      text; if that asks for a block size, the size used is the last one asked for or 1450 if that is
      less, and a client that parses the option acknowledgement reads exactly that size; every DATA
      packet fits it, and in a successful run only the packet of the last block is not full. */
  lemma BlockSizeAgreement(packet: bytes, src: Source, es: seq<Event>) returns (t: RequestText, asked: nat)
    requires Parse(packet).Some?
    ensures Acceptable(t) && Print(t) == packet
    ensures var j := JobFor(src, Parse(packet).value);
            var out := Run(j, es).writes;
            && 8 <= j.bsize <= 1450
            && (j.oack <==> exists i | 0 <= i < |t.options| :: t.options[i].name == Ascii("blksize"))
            && (!j.oack ==> j.bsize == 512)
            && (j.oack ==> LastAsked(t.options, asked)
                           && j.bsize == Min(Atoi(t.options[asked].value).value, 1450))
            && (j.oack ==> |out| > 0 && |out[0]| > 2
                           && var pairs := SplitPairs(out[0][2..]);
                              pairs.Some? && |pairs.value| == 1 && pairs.value[0].name == Ascii("blksize")
                              && Atoi(pairs.value[0].value) == Some(j.bsize))
            && (forall p <- out :: IsData(p) ==> 4 <= |p| <= j.bsize + 4 <= 1454)
            && (!src.end.CutShort? ==> forall p <- out :: IsData(p) ==> 4 < |p|)
            && (Succeeds(j, es) ==> forall p <- out :: IsData(p) && |p| < j.bsize + 4 <==> p == out[|out| - 1])
  {
    var req := Parse(packet).value;
    var j := JobFor(src, req);
    JobMeaning(src, req);
    t := ParseSound(packet);
    asked := 0;
    DataFits(j, es);
    if j.oack {
      asked := FindLastAsked(t.options);
      LastBlockSizeExact(t.options, asked);
      OackFirst(j, es);
      OackTellsBlockSize(j.bsize);
    }
    if Succeeds(j, es) {
      SuccessEndsShort(j, es);
      LastBlockIsData(j);
    }
  }

  lemma LastBlockIsData(j: Job)
    requires Short(j, |j.blocks|)
    ensures var p := BlockPacket(j, |j.blocks|); IsData(p) && |p| < j.bsize + 4
  {
    assert BlockPacket(j, |j.blocks|)[..2] == [0, 3];
  }

  // ---- What the output adds up to ------------------------------------------------------

  /** A client that has everything up to block `k`. */
  function Holding(j: Job, k: nat): Client
    requires k <= |j.blocks|
  {
    Client(k, Flatten(j.blocks[..k]), if Short(j, k) then Complete else Receiving)
  }

  lemma TakesNext(j: Job, k: nat)
    requires WellFormed(j) && k < |j.blocks|
    ensures Receive(Holding(j, k), j.bsize, BlockPacket(j, k + 1)).client == Holding(j, k + 1)
  {
    ReceiveData(Holding(j, k), j.bsize, (k + 1) % BLOCK_NUMBERS, j.blocks[k]);
    assert j.blocks[..k + 1] == j.blocks[..k] + [j.blocks[k]];
    FlattenSnoc(j.blocks[..k], j.blocks[k]);
  }

  lemma IgnoresAgain(j: Job, k: nat)
    requires k <= |j.blocks|
    ensures Receive(Holding(j, k), j.bsize, BlockPacket(j, k)).client == Holding(j, k)
  {
    if k == 0 {
      ReceiveOack(Holding(j, k), j.bsize, j.bsize);
    } else {
      ReceiveData(Holding(j, k), j.bsize, k % BLOCK_NUMBERS, j.blocks[k - 1]);
    }
  }

  /** What a client holds after receiving everything a run wrote. */
  function Delivered(j: Job, s: Sender): Client
    requires s.block <= |j.blocks|
  {
    var c := Holding(j, s.block);
    if s.Finished? && s.outcome == ReadFailed then c.(phase := Stopped) else c
  }

  lemma {:induction false} DeliveredAfter(j: Job, c: Client, m: Move, es: seq<Event>)
    requires SenderOk(j, m.state) && WellFormed(j)
    requires m.state.Sending? && ReceiveAll(c, j.bsize, m.writes) == Holding(j, m.state.block)
    ensures ReceiveAll(c, j.bsize, RunFrom(j, m.state, es).After(m.writes).writes)
         == Delivered(j, RunFrom(j, m.state, es).state)
    decreases |es|
  {
    var run := RunFrom(j, m.state, es);
    ReceiveAllConcat(c, j.bsize, m.writes, run.writes);
    if es != [] {
      var h := Holding(j, m.state.block);
      var f := Feed(j, m.state, es[0]);
      FeedDelivers(j, m.state, es[0]);
      if f.state.Finished? {
        RunFromFinished(j, f.state, es[1..]);
        assert f.writes + [] == f.writes;
      } else {
        DeliveredAfter(j, h, f, es[1..]);
      }
    }
  }

  lemma FeedDelivers(j: Job, s: Sender, e: Event)
    requires SenderOk(j, s) && s.Sending? && WellFormed(j)
    ensures var m := Feed(j, s, e);
            ReceiveAll(Holding(j, s.block), j.bsize, m.writes) == Delivered(j, m.state)
  {
    var m := Feed(j, s, e);
    var h := Holding(j, s.block);
    if m.writes != [] {
      assert ReceiveAll(h, j.bsize, m.writes) == ReceiveAll(Receive(h, j.bsize, m.writes[0]).client, j.bsize, []);
      if m.state.Finished? {
        ReceiveError(h, j.bsize, j.readError);
      } else if m.state.block == s.block {
        IgnoresAgain(j, s.block);
      } else {
        TakesNext(j, s.block);
      }
    }
  }

  /** Received in order, the output of every run is the file up to the block the run is at, however
      often packets were repeated and however often the 16-bit block number wrapped around. */
  lemma OutputIsPrefix(j: Job, es: seq<Event>)
    requires WellFormed(j)
    ensures ReceiveAll(NEW_CLIENT, j.bsize, Run(j, es).writes) == Delivered(j, Run(j, es).state)
  {
    var b := Begin(j);
    assert Holding(j, 0) == NEW_CLIENT;
    if b.state.Sending? {
      if j.oack {
        IgnoresAgain(j, 0);
      } else {
        TakesNext(j, 0);
      }
      assert ReceiveAll(NEW_CLIENT, j.bsize, b.writes) == ReceiveAll(Receive(NEW_CLIENT, j.bsize, b.writes[0]).client, j.bsize, []);
      DeliveredAfter(j, NEW_CLIENT, b, es);
    } else {
      RunFromFinished(j, b.state, es);
      ReceiveError(NEW_CLIENT, j.bsize, j.readError);
      assert Run(j, es).writes == [ErrorPacket(j.readError)];
      assert ReceiveAll(NEW_CLIENT, j.bsize, [ErrorPacket(j.readError)]) == ReceiveAll(Receive(NEW_CLIENT, j.bsize, ErrorPacket(j.readError)).client, j.bsize, []);
    }
  }

  predicate Succeeds(j: Job, es: seq<Event>) {
    Run(j, es).state.Finished? && Run(j, es).state.outcome == Success
  }

  // ---- How transfers end -----------------------------------------------------------------

  /** What the two endings that follow an acknowledgement mean. */
  predicate EndingSound(j: Job, s: Sender) {
    && s.block <= |j.blocks|
    && (s.Finished? && s.outcome == Success ==> Short(j, s.block))
    && (s.Finished? && s.outcome == ReadFailed ==> s.block == |j.blocks| && !Short(j, s.block))
  }

  lemma {:induction false} EndingSoundFrom(j: Job, s: Sender, es: seq<Event>)
    requires SenderOk(j, s) && EndingSound(j, s)
    ensures EndingSound(j, RunFrom(j, s, es).state)
    decreases |es|
  {
    if es != [] {
      EndingSoundFrom(j, Feed(j, s, es[0]).state, es[1..]);
    }
  }

  /** When a transfer reports success, what it wrote is everything its stream delivered, and the
      stream either reached its end inside a block or was cut short. */
  lemma SuccessMeansWholeFile(src: Source, req: Rrq, es: seq<Event>)
    ensures var j := JobFor(src, req);
            var m := Run(j, es);
            Succeeds(j, es) ==>
              && EndsShort(src.data, j.bsize, src.end)
              && m.state.block == |j.blocks|
              && ReceiveAll(NEW_CLIENT, j.bsize, m.writes) == Client(|j.blocks|, src.data, Complete)
  {
    var j := JobFor(src, req);
    JobMeaning(src, req);
    EndingSoundFrom(j, Begin(j).state, es);
    OutputIsPrefix(j, es);
    assert j.blocks[..|j.blocks|] == j.blocks;
  }

  // ---- Transfers without a block size option -----------------------------------------------

  /** A request that asks for no block size is served in blocks of 512 bytes (section 2 of RFC 1350):
      no option is acknowledged, every DATA packet but the last block's has 516 bytes, and a client
      that never heard of block sizes holds everything once success is reported. */
  lemma WithoutBlksize(t: RequestText, src: Source, es: seq<Event>)
    requires Acceptable(t) && forall i | 0 <= i < |t.options| :: t.options[i].name != Ascii("blksize")
    ensures Parse(Print(t)).Some?
    ensures var j := JobFor(src, Parse(Print(t)).value);
            var out := Run(j, es).writes;
            && (forall p <- out :: |p| < 2 || p[..2] != [0, 6])
            && (forall p <- out :: IsData(p) ==> |p| == 516 || (|p| < 516 && p == BlockPacket(j, |j.blocks|)))
            && (Succeeds(j, es) ==>
                  && (forall p <- out :: IsData(p))
                  && (forall i | 0 <= i < |out| :: |out[i]| == 516 || (|out[i]| < 516 && out[i] == out[|out| - 1]))
                  && ReceiveAll(NEW_CLIENT, 512, out) == Client(|src.data| / 512 + 1, src.data, Complete))
  {
    ParsePrint(t);
    var req := Parse(Print(t)).value;
    JobMeaning(src, req);
    Blocks512(JobFor(src, req), es);
    SuccessMeansWholeFile(src, req, es);
  }

  lemma Blocks512(j: Job, es: seq<Event>)
    requires WellFormed(j) && !j.oack && j.bsize == 512
    ensures var out := Run(j, es).writes;
            && (forall p <- out :: |p| < 2 || p[..2] != [0, 6])
            && (forall p <- out :: IsData(p) ==> |p| == 516 || (|p| < 516 && p == BlockPacket(j, |j.blocks|)))
            && (Succeeds(j, es) ==>
                  && (forall p <- out :: IsData(p))
                  && (forall i | 0 <= i < |out| :: |out[i]| == 516 || (|out[i]| < 516 && out[i] == out[|out| - 1])))
  {
    DataFits(j, es);
    NoOack(j, es);
    if Succeeds(j, es) {
      SuccessEndsShort(j, es);
      OnlyData(j, es);
      AllFullButLast(Run(j, es).writes, BlockPacket(j, |j.blocks|));
    }
  }

  lemma NoOack(j: Job, es: seq<Event>)
    requires !j.oack
    ensures forall p <- Run(j, es).writes :: |p| < 2 || p[..2] != [0, 6]
  {
    OnTheWire(j, es);
    forall p <- Run(j, es).writes ensures |p| < 2 || p[..2] != [0, 6] {
      assert 2 <= |p| ==> p[..2][1] == p[1];
    }
  }

  lemma AllFullButLast(out: seq<bytes>, last: bytes)
    requires out != [] && out[|out| - 1] == last
    requires forall p <- out :: |p| == 516 || (|p| < 516 && p == last)
    ensures forall i | 0 <= i < |out| :: |out[i]| == 516 || (|out[i]| < 516 && out[i] == out[|out| - 1])
  {
    forall i | 0 <= i < |out| ensures |out[i]| == 516 || (|out[i]| < 516 && out[i] == out[|out| - 1]) {
      assert out[i] in out;
    }
  }

  lemma OnlyData(j: Job, es: seq<Event>)
    requires !j.oack && Succeeds(j, es)
    ensures forall p <- Run(j, es).writes :: IsData(p)
  {
    var counts := RunShape(j, es);
    SendsBounds(j, 1, counts);
    forall p <- Run(j, es).writes ensures IsData(p) {
      var k: nat :| 1 <= k < 1 + |counts| && p == BlockPacket(j, k);
      assert p[..2] == [0, 3];
    }
  }

  // ---- Transfers that break off ------------------------------------------------------------

  /** An event that breaks off a transfer whose packet has been written `tries` times. */
  predicate BreaksOff(e: Event, tries: nat, o: Outcome) {
    match o
    case Aborted => e.Packet? && IsError(e.content)
    case SocketError => e.SocketFault?
    case TimedOut => e.Timeout? && tries == 5
    case Success => false
    case ReadFailed => false
  }

  predicate BrokenOffAt(j: Job, es: seq<Event>, i: nat, o: Outcome) {
    && i < |es| && Run(j, es[..i]).state.Sending?
    && BreaksOff(es[i], Run(j, es[..i]).state.tries, o)
  }

  /** A transfer is broken off exactly when its client sends an ERROR, its socket fails, or its packet
      times out for the fifth time, while it is still going on; and then it writes nothing more. */
  lemma {:induction false} BrokenOffExactly(j: Job, es: seq<Event>, o: Outcome)
    requires o == Aborted || o == SocketError || o == TimedOut
    ensures var s := Run(j, es).state;
            s.Finished? && s.outcome == o <==> exists i: nat :: BrokenOffAt(j, es, i, o)
    ensures forall i: nat :: BrokenOffAt(j, es, i, o) ==>
              Run(j, es) == Move(Finished(Run(j, es[..i]).state.block, o), Run(j, es[..i]).writes)
  {
    if es == [] {
      RunNothing(j);
    } else {
      var n := |es| - 1;
      var front, e := es[..n], es[n];
      assert es == front + [e];
      NextStep(j, front, e);
      BrokenOffExactly(j, front, o);
      forall i: nat | i < n ensures BrokenOffAt(j, es, i, o) <==> BrokenOffAt(j, front, i, o) {
        assert es[..i] == front[..i];
      }
      if Run(j, es).state.Finished? && Run(j, es).state.outcome == o {
        if Run(j, front).state.Finished? {
          var i: nat :| BrokenOffAt(j, front, i, o);
          assert BrokenOffAt(j, es, i, o);
        } else {
          assert BrokenOffAt(j, es, n, o);
        }
      }
      forall i: nat | BrokenOffAt(j, es, i, o)
        ensures Run(j, es) == Move(Finished(Run(j, es[..i]).state.block, o), Run(j, es[..i]).writes)
      {
        if i < n {
          assert BrokenOffAt(j, front, i, o) && es[..i] == front[..i];
        }
      }
    }
  }

  /** A transfer whose reader gives out tells the client why, in the last packet it writes: the
      stream's own error, or "EOF" where it ended between two blocks. */
  lemma ReadErrorTold(src: Source, req: Rrq, es: seq<Event>)
    ensures var m := Run(JobFor(src, req), es);
            m.state.Finished? && m.state.outcome == ReadFailed ==>
              && m.writes != [] && !src.end.CutShort?
              && ErrorBytes(m.writes[|m.writes| - 1], if src.end.Failing? then src.end.message else [69, 79, 70])
  {
    var j := JobFor(src, req);
    JobMeaning(src, req);
    if Run(j, es).state.Finished? && Run(j, es).state.outcome == ReadFailed {
      ErrorComesLast(j, es);
    }
    assert Ascii("EOF") == [69, 79, 70];
  }

  lemma ErrorComesLast(j: Job, es: seq<Event>)
    requires Run(j, es).state.Finished? && Run(j, es).state.outcome == ReadFailed
    ensures var out := Run(j, es).writes;
            out != [] && ErrorBytes(out[|out| - 1], j.readError) && !Short(j, |j.blocks|)
  {
    EndingSoundFrom(j, Begin(j).state, es);
    var counts := RunShape(j, es);
    PacketBytes(0, [], j.readError, 0);
  }

  /** Events that acknowledge a packet with their last one: before it come only timeouts, not too
      many of them, and packets that say nothing. */
  predicate Round(number: nat, tries: nat, es: seq<Event>)
    decreases |es|
  {
    && es != [] && tries <= NUM_RETRIES
    && if |es| == 1 then Matches(es[0], number)
       else !Matches(es[0], number) && !Fatal(es[0])
            && Round(number, tries + (if es[0].Timeout? then 1 else 0), es[1..])
  }

  /** In other words: the last event is the first matching acknowledgement, and it is in time. */
  lemma {:induction false} RoundMeans(number: nat, tries: nat, es: seq<Event>)
    ensures Round(number, tries, es) <==>
            && es != [] && AckInTime(number, tries, es, |es| - 1)
            && forall i | 0 <= i < |es| - 1 :: !Matches(es[i], number)
    decreases |es|
  {
    if |es| == 1 {
      assert es[..0] == [];
    } else if es != [] {
      RoundMeans(number, tries + (if es[0].Timeout? then 1 else 0), es[1..]);
      assert es == [es[0]] + es[1..];
      AckInTimeShift(number, tries, es[0], es[1..], |es| - 2);
      assert forall i | 0 <= i < |es| - 2 :: es[1..][i] == es[i + 1];
    }
  }

  lemma {:induction false} RoundAcked(number: nat, tries: nat, es: seq<Event>, rest: seq<Event>)
    requires 1 <= tries && Round(number, tries, es)
    ensures Await(number, tries, es + rest) == Exchange(Acked, rest, Timeouts(es))
    decreases |es|
  {
    assert (es + rest)[1..] == es[1..] + rest;
    if |es| == 1 {
      assert es[1..] + rest == rest;
    } else {
      RoundAcked(number, tries + (if es[0].Timeout? then 1 else 0), es[1..], rest);
    }
  }

  function Concat(rounds: seq<seq<Event>>): seq<Event> {
    if rounds == [] then [] else rounds[0] + Concat(rounds[1..])
  }

  /** The rounds acknowledge blocks `from`, `from + 1`, ... in turn. */
  predicate Rounds(from: nat, rounds: seq<seq<Event>>)
    decreases |rounds|
  {
    rounds == [] || (Round(from % BLOCK_NUMBERS, 1, rounds[0]) && Rounds(from + 1, rounds[1..]))
  }

  /** How often each block is written when these rounds acknowledge it. */
  function RoundCounts(rounds: seq<seq<Event>>): (counts: seq<nat>)
    ensures |counts| == |rounds|
  {
    if rounds == [] then [] else [Timeouts(rounds[0]) + 1] + RoundCounts(rounds[1..])
  }

  /** One round takes a transfer over one block. */
  lemma RoundStep(j: Job, k: nat, round: seq<Event>, rest: seq<Event>, es: seq<Event>)
    requires SenderOk(j, Sending(k, 1)) && Round(k % BLOCK_NUMBERS, 1, round) && es == round + rest
    ensures RunFrom(j, Sending(k, 1), es).After([BlockPacket(j, k)]) ==
            RestOfRun(j, k, rest).After(Repeat(BlockPacket(j, k), Timeouts(round) + 1))
  {
    RoundAcked(k % BLOCK_NUMBERS, 1, round, rest);
    SendRound(j, k, k == 0, es, Exchange(Acked, rest, Timeouts(round)));
  }

  lemma RestWaits(j: Job, k: nat, es: seq<Event>)
    requires k < |j.blocks| && !Short(j, k)
    ensures RestOfRun(j, k, es) == RunFrom(j, Sending(k + 1, 1), es).After([BlockPacket(j, k + 1)])
  {
  }

  /** A run that ends in state `s` having written block `from` and the following ones as often as
      these rounds have them written. */
  function Written(j: Job, from: nat, rounds: seq<seq<Event>>, s: Sender): Move
    requires from + |rounds| <= |j.blocks| + 1
  {
    Move(s, Sends(j, from, RoundCounts(rounds)) + Tail(j, s))
  }

  lemma WrittenMore(j: Job, from: nat, rounds: seq<seq<Event>>, s: Sender)
    requires rounds != [] && from + |rounds| <= |j.blocks| + 1
    ensures Written(j, from, rounds, s) ==
            Written(j, from + 1, rounds[1..], s).After(Repeat(BlockPacket(j, from), Timeouts(rounds[0]) + 1))
  {
    assert RoundCounts(rounds)[1..] == RoundCounts(rounds[1..]);
    AfterAfter(Move(s, Tail(j, s)), Repeat(BlockPacket(j, from), Timeouts(rounds[0]) + 1),
               Sends(j, from + 1, RoundCounts(rounds[1..])));
  }

  lemma {:induction false} AcknowledgedFrom(j: Job, k: nat, rounds: seq<seq<Event>>)
    requires WellFormed(j) && k + |rounds| == |j.blocks| && Rounds(k + 1, rounds)
    ensures RestOfRun(j, k, Concat(rounds)) == Written(j, k + 1, rounds, Advance(j, |j.blocks|).state)
    decreases |rounds|
  {
    if rounds == [] {
      RestFinished(j, k, []);
    } else {
      RestWaits(j, k, Concat(rounds));
      RoundStep(j, k + 1, rounds[0], Concat(rounds[1..]), Concat(rounds));
      AcknowledgedFrom(j, k + 1, rounds[1..]);
      WrittenMore(j, k + 1, rounds, Advance(j, |j.blocks|).state);
    }
  }

  lemma AcknowledgedOption(j: Job, k: nat, rounds: seq<seq<Event>>)
    requires WellFormed(j) && j.oack && k == 0 && |rounds| == |j.blocks| + 1 && Rounds(k, rounds)
    ensures RunFrom(j, Sending(k, 1), Concat(rounds)).After([BlockPacket(j, k)]) ==
            Written(j, k, rounds, Advance(j, |j.blocks|).state)
  {
    AcknowledgedFrom(j, k, rounds[1..]);
    WrittenMore(j, k, rounds, Advance(j, |j.blocks|).state);
    RoundStep(j, k, rounds[0], Concat(rounds[1..]), Concat(rounds));
  }

  /** If every packet is acknowledged in time, the transfer ends, having written every block once
      more often than its round timed out: with success when the last block is short, and
      with an error packet after the last byte when it is not. */
  lemma AllAcknowledged(j: Job, first: nat, rounds: seq<seq<Event>>)
    requires WellFormed(j) && first == FirstBlock(j)
    requires first + |rounds| == |j.blocks| + 1 && Rounds(first, rounds)
    ensures Run(j, Concat(rounds)) ==
            Written(j, first, rounds, Finished(|j.blocks|, if Short(j, |j.blocks|) then Success else ReadFailed))
  {
    RunStarts(j, first, Concat(rounds));
    if j.oack {
      AcknowledgedOption(j, first, rounds);
    } else {
      AcknowledgedFrom(j, first - 1, rounds);
    }
  }

  lemma RunStarts(j: Job, first: nat, es: seq<Event>)
    requires first == FirstBlock(j)
    ensures j.oack ==> Run(j, es) == RunFrom(j, Sending(first, 1), es).After([BlockPacket(j, first)])
    ensures !j.oack ==> Run(j, es) == RestOfRun(j, first - 1, es)
  {
  }

  /** Every packet is acknowledged at once. */
  function PromptRounds(from: nat, n: nat): (rounds: seq<seq<Event>>)
    ensures |rounds| == n
    decreases n
  {
    if n == 0 then [] else [[Packet(AckPacket(from % BLOCK_NUMBERS))]] + PromptRounds(from + 1, n - 1)
  }

  lemma {:induction false} PromptRoundsAcknowledge(from: nat, n: nat)
    ensures Rounds(from, PromptRounds(from, n))
    decreases n
  {
    if 0 < n {
      ClassifyAck(from % BLOCK_NUMBERS);
      PromptRoundsAcknowledge(from + 1, n - 1);
    }
  }

  /** The run in which every packet is acknowledged at once. */
  lemma PromptRun(j: Job) returns (es: seq<Event>)
    requires WellFormed(j)
    ensures Run(j, es).state == Finished(|j.blocks|, if Short(j, |j.blocks|) then Success else ReadFailed)
  {
    var rounds := PromptRounds(FirstBlock(j), |j.blocks| + 1 - FirstBlock(j));
    PromptRoundsAcknowledge(FirstBlock(j), |j.blocks| + 1 - FirstBlock(j));
    AllAcknowledged(j, FirstBlock(j), rounds);
    es := Concat(rounds);
  }

  /** Success can be reported for exactly the streams that end inside a block or are cut short: for a
      file whose length is a multiple of the block size, the empty file included, it never can. */
  lemma SuccessReachableExactly(src: Source, req: Rrq)
    ensures (exists es :: Succeeds(JobFor(src, req), es)) <==> EndsShort(src.data, BlockSizeFor(req), src.end)
  {
    var j := JobFor(src, req);
    JobMeaning(src, req);
    if es :| Succeeds(j, es) {
      SuccessMeansWholeFile(src, req, es);
    }
    if Short(j, |j.blocks|) {
      var es := PromptRun(j);
      assert Succeeds(j, es);
    }
  }

  /** Every stream that is cut short has a run that reports success, after which the client takes
      what it has for the whole file. */
  lemma CutShortTakenForWhole(src: Source, req: Rrq) returns (es: seq<Event>)
    requires src.end.CutShort?
    ensures var j := JobFor(src, req);
            Succeeds(j, es) && ReceiveAll(NEW_CLIENT, j.bsize, Run(j, es).writes) == Client(|j.blocks|, src.data, Complete)
  {
    JobMeaning(src, req);
    es := PromptRun(JobFor(src, req));
    SuccessMeansWholeFile(src, req, es);
  }

  /** So success can be trusted to mean that the stream reached its end exactly when the stream is
      not cut short. */
  lemma SuccessTrustworthyExactly(src: Source, req: Rrq)
    ensures (forall es :: Succeeds(JobFor(src, req), es) ==> src.end.AtEof?) <==> !src.end.CutShort?
  {
    forall es | Succeeds(JobFor(src, req), es) ensures src.end.AtEof? || src.end.CutShort? {
      SuccessMeansWholeFile(src, req, es);
    }
    if src.end.CutShort? {
      var es := CutShortTakenForWhole(src, req);
    }
  }

  /** A file whose length is a multiple of the block size: in no run does a client ever see the end
      of the file.  When every block has been acknowledged it holds all the bytes, and what it gets
      next is an error packet, where section 6 of RFC 1350 asks for an empty block. */
  lemma ExactMultipleEndsInError(src: Source, req: Rrq, es: seq<Event>)
    requires src.end.AtEof? && |src.data| % BlockSizeFor(req) == 0
    ensures var j := JobFor(src, req);
            var m := Run(j, es);
            var c := ReceiveAll(NEW_CLIENT, j.bsize, m.writes);
            && c.phase != Complete
            && (m.state.Finished? ==> m.state.outcome != Success)
            && (m.state.Finished? && m.state.outcome == ReadFailed ==>
                  c == Client(|j.blocks|, src.data, Stopped) && m.writes[|m.writes| - 1] == ErrorPacket(Ascii("EOF")))
  {
    var j := JobFor(src, req);
    JobMeaning(src, req);
    EndingSoundFrom(j, Begin(j).state, es);
    OutputIsPrefix(j, es);
    SuccessMeansWholeFile(src, req, es);
    var first := FirstBlock(j);
    var counts := RunShape(j, es);
    assert j.blocks[..|j.blocks|] == j.blocks;
  }

  /** How many timeouts a transfer can still survive. */
  function Patience(j: Job, s: Sender): nat
    requires SenderOk(j, s)
  {
    if s.Finished? then 0 else NUM_RETRIES * (|j.blocks| - s.block) + NUM_RETRIES - s.tries + 1
  }

  lemma {:induction false} TimeoutsSpendPatience(j: Job, s: Sender, es: seq<Event>)
    requires SenderOk(j, s)
    ensures RunFrom(j, s, es).state.Sending? ==>
              Timeouts(es) + Patience(j, RunFrom(j, s, es).state) <= Patience(j, s)
    decreases |es|
  {
    if es != [] {
      if s.Finished? {
        RunFromFinished(j, s, es);
      } else {
        TimeoutsSpendPatience(j, Feed(j, s, es[0]).state, es[1..]);
      }
    }
  }

  /** Every transfer ends, whatever its client does: none outlives five timeouts per packet. */
  lemma TransferEnds(j: Job, es: seq<Event>)
    requires Timeouts(es) >= 5 * (|j.blocks| + 1)
    ensures Run(j, es).state.Finished?
  {
    TimeoutsSpendPatience(j, Begin(j).state, es);
  }
}
