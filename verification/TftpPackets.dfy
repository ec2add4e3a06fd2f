/** The packets of a TFTP read transfer (section 5 of RFC 1350, RFC 2347) and the blocks of a file. */
module TftpPackets {
  import opened Bytes
  import opened Decimal
  import opened TftpRequest

  const BLOCK_NUMBERS := 65536

  function DataPacket(number: nat, payload: bytes): bytes
    requires number < BLOCK_NUMBERS
  {
    [0, 3] + Put16(number) + payload
  }

  function AckPacket(number: nat): bytes
    requires number < BLOCK_NUMBERS
  {
    [0, 4] + Put16(number)
  }

  function ErrorPacket(message: bytes): bytes {
    [0, 5, 0, 0] + message + [0]
  }

  function OackPacket(size: nat): bytes {
    [0, 6] + ((BLKSIZE + [0]) + ((Itoa(size) + [0]) + []))
  }

  /** How the server reads a packet from its client: only the first four bytes matter. */
  datatype Signal = Noise | Ack(number: nat) | Abort

  function Classify(p: bytes): Signal {
    if |p| < 4 then Noise
    else if Get16(p[..2]) == 4 then Ack(Get16(p[2..4]))
    else if Get16(p[..2]) == 5 then Abort
    else Noise
  }

  /** What the server makes of every packet, byte by byte: an ERROR ends the transfer whatever its code
      and message, an ACK counts for the number in its third and fourth byte. */
  lemma ClassifyExactly(p: bytes)
    ensures Classify(p) == Abort <==> 4 <= |p| && p[0] == 0 && p[1] == 5
    ensures forall n: nat ::
              Classify(p) == Ack(n) <==> 4 <= |p| && p[0] == 0 && p[1] == 4 && p[2] as int * 256 + p[3] as int == n
  {
    if 4 <= |p| {
      assert p[..2] == [p[0], p[1]] && p[2..4] == [p[2], p[3]];
    }
  }

  lemma ClassifyAck(number: nat)
    requires number < BLOCK_NUMBERS
    ensures Classify(AckPacket(number)) == Ack(number)
  {
    var p := AckPacket(number);
    assert p[..2] == [0, 4] && p[2..4] == Put16(number);
  }

  // ---- The packets, byte by byte -----------------------------------------------

  /** A DATA packet of block `k`: opcode 3, sixteen bits of the block's number, the bytes. */
  predicate DataBytes(p: bytes, k: nat, payload: bytes) {
    4 <= |p| && p[0] == 0 && p[1] == 3 && p[2] as int * 256 + p[3] as int == k % 65536 && p[4..] == payload
  }

  /** An ERROR packet: opcode 5, error code 0, the message and a NUL. */
  predicate ErrorBytes(p: bytes, message: bytes) {
    && |p| == |message| + 5 && p[0] == 0 && p[1] == 5 && p[2] == 0 && p[3] == 0
    && p[4..|p| - 1] == message && p[|p| - 1] == 0
  }

  /** An option acknowledgement: opcode 6, "blksize", a NUL, the size in decimal and a NUL. */
  predicate OackBytes(p: bytes, size: nat) {
    && 11 < |p| && p[..10] == [0, 6, 98, 108, 107, 115, 105, 122, 101, 0]
    && p[10..|p| - 1] == Digits(size) && p[|p| - 1] == 0
  }

  lemma PacketBytes(k: nat, payload: bytes, message: bytes, size: nat)
    ensures DataBytes(DataPacket(k % BLOCK_NUMBERS, payload), k, payload)
    ensures ErrorBytes(ErrorPacket(message), message)
    ensures OackBytes(OackPacket(size), size)
  {
    var data, error, oack := DataPacket(k % BLOCK_NUMBERS, payload), ErrorPacket(message), OackPacket(size);
    assert data[4..] == payload;
    assert error[4..|error| - 1] == message;
    assert BLKSIZE == [98, 108, 107, 115, 105, 122, 101];
    assert oack == [0, 6, 98, 108, 107, 115, 105, 122, 101, 0] + Digits(size) + [0];
    assert oack[10..|oack| - 1] == Digits(size);
  }

  /** A client that reads the OACK as an option list learns the block size the server put in it. */
  lemma OackTellsBlockSize(size: nat)
    requires size <= MAX_INT
    ensures var pairs := SplitPairs(OackPacket(size)[2..]);
            pairs.Some? && |pairs.value| == 1 && pairs.value[0].name == BLKSIZE
            && Atoi(pairs.value[0].value) == Some(size)
  {
    var pair := Pair(BLKSIZE, Itoa(size));
    assert OackPacket(size)[2..] == PrintPairs([pair]) by {
      assert [pair][1..] == [];
    }
    assert PairsNulFree([pair]);
    SplitPrint([pair]);
    AtoiItoa(size);
  }

  // ---- Blocks of a file --------------------------------------------------------

  /** What a stream reports after its last byte: end of file, that it was cut short (the error
      io.ErrUnexpectedEOF, which a stream may well end with by itself), or some other error. */
  datatype StreamEnd = AtEof | CutShort | Failing(message: bytes)

  /** A byte stream: the bytes it delivers and how it ends. */
  datatype Source = Source(data: bytes, end: StreamEnd)

  /** The payloads that reading `b` bytes at a time yields before a read fails.  A read that does not
      find `b` bytes counts if it found some and then end of file, or if the stream was cut short. */
  function Chunks(data: bytes, b: nat, end: StreamEnd): seq<bytes>
    requires 0 < b
    decreases |data|
  {
    if b <= |data| then [data[..b]] + Chunks(data[b..], b, end)
    else if end.CutShort? || (end.AtEof? && data != []) then [data]
    else []
  }

  /** The last block is not full. */
  predicate EndsShort(data: bytes, b: nat, end: StreamEnd)
    requires 0 < b
  {
    end.CutShort? || (end.AtEof? && |data| % b != 0)
  }

  lemma DivModStep(n: nat, b: nat)
    requires 0 < b <= n
    ensures n / b == (n - b) / b + 1 && n % b == (n - b) % b
  {
    var q, r := (n - b) / b, (n - b) % b;
    assert n == (q + 1) * b + r;
    DivModUnique(n, b, q + 1, r);
  }

  lemma DivModUnique(n: nat, b: nat, q: nat, r: nat)
    requires 0 < b && r < b && n == q * b + r
    ensures n / b == q && n % b == r
  {
    var d := n / b - q;
    assert n == (n / b) * b + n % b;
    assert d * b == r - n % b;
    assert d >= 1 ==> d * b >= b;
    assert d <= -1 ==> d * b <= 0 - b;
  }

  lemma {:induction false} ChunksCount(data: bytes, b: nat, end: StreamEnd)
    requires 0 < b
    ensures |Chunks(data, b, end)| == |data| / b + (if EndsShort(data, b, end) then 1 else 0)
    decreases |data|
  {
    if b <= |data| {
      ChunksCount(data[b..], b, end);
      DivModStep(|data|, b);
    } else {
      DivModUnique(|data|, b, 0, |data|);
    }
  }

  lemma {:induction false} ChunksSizes(data: bytes, b: nat, end: StreamEnd)
    requires 0 < b
    ensures var c := Chunks(data, b, end);
            && (forall i | 0 <= i < |c| :: |c[i]| <= b)
            && (forall i | 0 <= i < |c| :: |c[i]| < b <==> i == |c| - 1 && EndsShort(data, b, end))
            && ([] in c <==> end.CutShort? && |data| % b == 0)
    decreases |data|
  {
    var c := Chunks(data, b, end);
    if b <= |data| {
      ChunksSizes(data[b..], b, end);
      ChunksCount(data[b..], b, end);
      DivModStep(|data|, b);
      assert c == [data[..b]] + Chunks(data[b..], b, end);
    } else {
      DivModUnique(|data|, b, 0, |data|);
    }
  }

  lemma {:induction false} ChunksJoined(data: bytes, b: nat, end: StreamEnd)
    requires 0 < b
    ensures Flatten(Chunks(data, b, end)) <= data
    ensures !end.Failing? ==> Flatten(Chunks(data, b, end)) == data
    decreases |data|
  {
    var c := Chunks(data, b, end);
    if b <= |data| {
      ChunksJoined(data[b..], b, end);
      assert c[1..] == Chunks(data[b..], b, end);
      assert data == data[..b] + data[b..];
    } else if c != [] {
      assert Flatten([data]) == data + Flatten([]);
    }
  }
}
