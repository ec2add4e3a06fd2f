/** TFTP read requests: the parser of incoming packets and the grammar it decides. */
module TftpRequest {
  import opened Bytes
  import opened Decimal

  datatype Rrq = Rrq(filename: bytes, blockSize: nat)

  /** One option of a request, as text. */
  datatype Pair = Pair(name: bytes, value: bytes)

  /** The text of a request before it is interpreted. */
  datatype RequestText = RequestText(filename: bytes, options: seq<Pair>)

  const OCTET: bytes := Ascii("octet")
  const BLKSIZE: bytes := Ascii("blksize")
  const MAX_ETHERNET_BLOCK := 1450

  predicate NulFree(s: bytes) {
    0 !in s
  }

  // ---- The grammar -------------------------------------------------------

  function PrintPairs(pairs: seq<Pair>): bytes {
    if pairs == [] then []
    else (pairs[0].name + [0]) + ((pairs[0].value + [0]) + PrintPairs(pairs[1..]))
  }

  function PrintHeader(filename: bytes, area: bytes): bytes {
    [0, 1] + ((filename + [0]) + ((OCTET + [0]) + area))
  }

  function Print(t: RequestText): bytes {
    PrintHeader(t.filename, PrintPairs(t.options))
  }

  predicate PairsNulFree(pairs: seq<Pair>) {
    forall i | 0 <= i < |pairs| :: NulFree(pairs[i].name) && NulFree(pairs[i].value)
  }

  /** Every option value is an integer, and a block size is one RFC 2348 allows. */
  predicate PairAcceptable(p: Pair) {
    var v := Atoi(p.value);
    v.Some? && (p.name == BLKSIZE ==> 8 <= v.value <= 65464)
  }

  predicate AllAcceptable(pairs: seq<Pair>) {
    forall i | 0 <= i < |pairs| :: PairAcceptable(pairs[i])
  }

  predicate Acceptable(t: RequestText) {
    NulFree(t.filename) && PairsNulFree(t.options) && AllAcceptable(t.options)
  }

  /** The last block size asked for, clamped for Ethernet; 0 if there is none. */
  function LastBlockSize(pairs: seq<Pair>): (n: nat)
    requires AllAcceptable(pairs)
    ensures n == 0 || 8 <= n <= MAX_ETHERNET_BLOCK
    ensures n == 0 <==> forall i | 0 <= i < |pairs| :: pairs[i].name != BLKSIZE
  {
    if pairs == [] then 0
    else
      var last := pairs[|pairs| - 1];
      assert PairAcceptable(last);
      if last.name == BLKSIZE then Min(Atoi(last.value).value, MAX_ETHERNET_BLOCK)
      else LastBlockSize(pairs[..|pairs| - 1])
  }

  /** Pair `i` is the last one that asks for a block size. */
  predicate LastAsked(pairs: seq<Pair>, i: nat) {
    i < |pairs| && pairs[i].name == BLKSIZE && forall k | i < k < |pairs| :: pairs[k].name != BLKSIZE
  }

  function Meaning(t: RequestText): Rrq
    requires Acceptable(t)
  {
    Rrq(t.filename, LastBlockSize(t.options))
  }

  // ---- NUL-terminated strings ----------------------------------------------

  /** The text before the first NUL and what follows it. */
  function NullStr(b: bytes): (r: Option<(bytes, bytes)>)
    ensures r.Some? ==> |r.value.1| < |b|
  {
    if b == [] then None
    else if b[0] == 0 then Some(([], b[1..]))
    else
      var rest := NullStr(b[1..]);
      if rest.None? then None else Some(([b[0]] + rest.value.0, rest.value.1))
  }

  lemma {:induction false} NullStrExact(b: bytes)
    ensures NullStr(b).Some? <==> 0 in b
    ensures NullStr(b).Some? ==>
              var (s, rest) := NullStr(b).value; NulFree(s) && b == s + [0] + rest
  {
    if b != [] && b[0] != 0 {
      NullStrExact(b[1..]);
      assert b == [b[0]] + b[1..];
    }
  }

  lemma {:induction false} NullStrPrint(s: bytes, rest: bytes)
    requires NulFree(s)
    ensures NullStr((s + [0]) + rest) == Some((s, rest))
  {
    var b := (s + [0]) + rest;
    if s == [] {
      assert b[1..] == rest;
    } else {
      assert s[0] in s;
      assert b[1..] == (s[1..] + [0]) + rest;
      NullStrPrint(s[1..], rest);
      assert [s[0]] + s[1..] == s;
    }
  }

  // ---- Option lists ---------------------------------------------------------

  /** The name/value pairs of an option area, if every string in it is terminated. */
  function SplitPairs(b: bytes): Option<seq<Pair>>
    decreases |b|
  {
    if b == [] then Some([])
    else
      var name := NullStr(b);
      if name.None? then None
      else
        var value := NullStr(name.value.1);
        if value.None? then None
        else
          var rest := SplitPairs(value.value.1);
          if rest.None? then None
          else Some([Pair(name.value.0, value.value.0)] + rest.value)
  }

  lemma {:induction false} SplitPrint(pairs: seq<Pair>)
    requires PairsNulFree(pairs)
    ensures SplitPairs(PrintPairs(pairs)) == Some(pairs)
  {
    if pairs != [] {
      NullStrPrint(pairs[0].name, (pairs[0].value + [0]) + PrintPairs(pairs[1..]));
      NullStrPrint(pairs[0].value, PrintPairs(pairs[1..]));
      SplitPrint(pairs[1..]);
      assert [pairs[0]] + pairs[1..] == pairs;
      assert pairs[0] == Pair(pairs[0].name, pairs[0].value);
    }
  }

  lemma {:induction false} SplitSound(b: bytes)
    requires SplitPairs(b).Some?
    ensures PrintPairs(SplitPairs(b).value) == b && PairsNulFree(SplitPairs(b).value)
    decreases |b|
  {
    if b != [] {
      var (name, b1) := NullStr(b).value;
      var (value, b2) := NullStr(b1).value;
      NullStrExact(b);
      NullStrExact(b1);
      SplitSound(b2);
      assert SplitPairs(b).value[1..] == SplitPairs(b2).value;
    }
  }

  // ---- The parser -------------------------------------------------------------

  /** The filename and the option area of a packet that is a read request in octet mode. */
  function SplitHeader(packet: bytes): Option<(bytes, bytes)> {
    if |packet| < 6 || Get16(packet) != 1 then None
    else
      var name := NullStr(packet[2..]);
      if name.None? then None
      else
        var mode := NullStr(name.value.1);
        if mode.None? || mode.value.0 != OCTET then None
        else Some((name.value.0, mode.value.1))
  }

  lemma SplitHeaderPrint(filename: bytes, area: bytes)
    requires NulFree(filename)
    ensures SplitHeader(PrintHeader(filename, area)) == Some((filename, area))
  {
    assert PrintHeader(filename, area)[2..] == (filename + [0]) + ((OCTET + [0]) + area);
    NullStrPrint(filename, (OCTET + [0]) + area);
    NullStrPrint(OCTET, area);
  }

  lemma SplitHeaderSound(packet: bytes)
    requires SplitHeader(packet).Some?
    ensures var (filename, area) := SplitHeader(packet).value;
            NulFree(filename) && PrintHeader(filename, area) == packet
  {
    var (filename, b1) := NullStr(packet[2..]).value;
    NullStrExact(packet[2..]);
    NullStrExact(b1);
    assert packet == [0, 1] + packet[2..];
  }

  /** The meaning of a packet, if it is an acceptable read request. */
  function Parse(packet: bytes): Option<Rrq> {
    var header := SplitHeader(packet);
    if header.None? then None
    else
      var pairs := SplitPairs(header.value.1);
      if pairs.None? || !AllAcceptable(pairs.value) then None
      else Some(Rrq(header.value.0, LastBlockSize(pairs.value)))
  }

  /** Printing any acceptable request and parsing it gives back its meaning. */
  lemma ParsePrint(t: RequestText)
    requires Acceptable(t)
    ensures Parse(Print(t)) == Some(Meaning(t))
  {
    SplitHeaderPrint(t.filename, PrintPairs(t.options));
    SplitPrint(t.options);
  }

  /** Whatever is accepted is the printed form of an acceptable request. */
  lemma ParseSound(packet: bytes) returns (t: RequestText)
    requires Parse(packet).Some?
    ensures Acceptable(t) && Print(t) == packet && Parse(packet).value == Meaning(t)
  {
    SplitHeaderSound(packet);
    var (filename, area) := SplitHeader(packet).value;
    SplitSound(area);
    t := RequestText(filename, SplitPairs(area).value);
  }

  /** The parser accepts exactly the printed forms of acceptable requests. */
  lemma ParseExact(packet: bytes)
    ensures Parse(packet).Some? <==> exists t: RequestText :: Acceptable(t) && Print(t) == packet
    ensures forall t: RequestText :: Acceptable(t) && Print(t) == packet ==> Parse(packet) == Some(Meaning(t))
  {
    if Parse(packet).Some? {
      var t := ParseSound(packet);
    }
    forall t: RequestText | Acceptable(t) && Print(t) == packet
      ensures Parse(packet) == Some(Meaning(t))
    {
      ParsePrint(t);
    }
  }

  /** The value of an option is a numeral, and a block size lies between 8 and 65464. */
  predicate Says(p: Pair, n: int) {
    Numeral(p.value, n) && (p.name == [98, 108, 107, 115, 105, 122, 101] ==> 8 <= n <= 65464)
  }

  ghost predicate SaysSomething(p: Pair) {
    exists n :: Says(p, n)
  }

  ghost predicate Sayable(t: RequestText) {
    && NulFree(t.filename) && PairsNulFree(t.options)
    && forall i | 0 <= i < |t.options| :: SaysSomething(t.options[i])
  }

  lemma SaysExactly(p: Pair)
    ensures PairAcceptable(p) <==> SaysSomething(p)
  {
    assert BLKSIZE == [98, 108, 107, 115, 105, 122, 101];
    var v := Atoi(p.value);
    if v.Some? {
      AtoiExactly(p.value, v.value);
    }
    if n :| Says(p, n) {
      AtoiExactly(p.value, n);
    }
    assert PairAcceptable(p) ==> Says(p, v.value);
  }

  /** Which packets are taken for requests, byte by byte: the opcode 1, a filename, the mode "octet"
      and pairs of a name and a numeral, each with a NUL after it. */
  lemma AcceptsExactly(packet: bytes)
    ensures Parse(packet).Some? <==>
            exists t: RequestText ::
              && Sayable(t)
              && packet == [0, 1] + t.filename + [0, 111, 99, 116, 101, 116, 0] + PrintPairs(t.options)
  {
    ParseExact(packet);
    forall t: RequestText
      ensures Acceptable(t) <==> Sayable(t)
      ensures Print(t) == [0, 1] + t.filename + [0, 111, 99, 116, 101, 116, 0] + PrintPairs(t.options)
    {
      PrintBytes(t);
      SayableExactly(t);
    }
  }

  lemma SayableExactly(t: RequestText)
    ensures Acceptable(t) <==> Sayable(t)
  {
    forall i | 0 <= i < |t.options|
      ensures PairAcceptable(t.options[i]) <==> SaysSomething(t.options[i])
    {
      SaysExactly(t.options[i]);
    }
  }

  lemma PrintBytes(t: RequestText)
    ensures Print(t) == [0, 1] + t.filename + [0, 111, 99, 116, 101, 116, 0] + PrintPairs(t.options)
  {
    assert OCTET == [111, 99, 116, 101, 116];
  }

  /** The split of an area some of whose pairs have already been taken off. */
  ghost function Resume(taken: seq<Pair>, rest: Option<seq<Pair>>): Option<seq<Pair>> {
    if rest.None? then None else Some(taken + rest.value)
  }

  lemma TakePair(taken: seq<Pair>, b: bytes, pair: Pair, rest: bytes)
    requires NullStr(b).Some? && NullStr(NullStr(b).value.1) == Some((pair.value, rest))
    requires pair.name == NullStr(b).value.0
    ensures Resume(taken, SplitPairs(b)) == Resume(taken + [pair], SplitPairs(rest))
  {
    if SplitPairs(rest).Some? {
      assert taken + ([pair] + SplitPairs(rest).value) == (taken + [pair]) + SplitPairs(rest).value;
    }
  }

  /** One bad pair anywhere spoils the whole area. */
  lemma BadPair(taken: seq<Pair>, pair: Pair, rest: Option<seq<Pair>>)
    requires !PairAcceptable(pair)
    ensures var whole := Resume(taken + [pair], rest); whole.None? || !AllAcceptable(whole.value)
  {
    if rest.Some? {
      assert ((taken + [pair]) + rest.value)[|taken|] == pair;
    }
  }

  lemma LastBlockSizeSnoc(taken: seq<Pair>, pair: Pair)
    requires AllAcceptable(taken) && PairAcceptable(pair)
    ensures AllAcceptable(taken + [pair])
    ensures LastBlockSize(taken + [pair]) ==
            if pair.name == BLKSIZE then Min(Atoi(pair.value).value, MAX_ETHERNET_BLOCK) else LastBlockSize(taken)
  {
    assert (taken + [pair])[..|taken|] == taken;
  }

  lemma {:induction false} FindLastAsked(pairs: seq<Pair>) returns (i: nat)
    requires exists k | 0 <= k < |pairs| :: pairs[k].name == BLKSIZE
    ensures LastAsked(pairs, i)
  {
    i := |pairs| - 1;
    while pairs[i].name != BLKSIZE
      invariant i < |pairs| && forall k | i < k < |pairs| :: pairs[k].name != BLKSIZE
      decreases i
    {
      i := i - 1;
    }
  }

  /** Pairs after the last one that asks for a block size do not change it. */
  lemma {:induction false} LaterPairs(pairs: seq<Pair>, n: nat)
    requires AllAcceptable(pairs) && n <= |pairs|
    requires forall k | n <= k < |pairs| :: pairs[k].name != BLKSIZE
    ensures LastBlockSize(pairs) == LastBlockSize(pairs[..n])
  {
    if n == |pairs| {
      assert pairs[..n] == pairs;
    } else {
      var front := pairs[..|pairs| - 1];
      LaterPairs(front, n);
      assert front[..n] == pairs[..n];
    }
  }

  /** The block size is what the last pair that asks for one says, or 1450 if that is less. */
  lemma {:induction false} LastBlockSizeExact(pairs: seq<Pair>, i: nat)
    requires AllAcceptable(pairs) && LastAsked(pairs, i)
    ensures PairAcceptable(pairs[i])
    ensures LastBlockSize(pairs) == Min(Atoi(pairs[i].value).value, MAX_ETHERNET_BLOCK)
  {
    LaterPairs(pairs, i + 1);
    assert pairs[..i + 1][i] == pairs[i];
  }

  /** The option loop: takes pairs off the area one by one, stopping at the first bad one. */
  method ParseOptions(area: bytes) returns (blockSize: Option<nat>)
    ensures blockSize.Some? <==> SplitPairs(area).Some? && AllAcceptable(SplitPairs(area).value)
    ensures blockSize.Some? ==> blockSize.value == LastBlockSize(SplitPairs(area).value)
  {
    var size: nat := 0;
    var b := area;
    ghost var taken: seq<Pair> := [];
    assert SplitPairs(b).Some? ==> [] + SplitPairs(b).value == SplitPairs(b).value;
    while 0 < |b|
      invariant Resume(taken, SplitPairs(b)) == SplitPairs(area)
      invariant AllAcceptable(taken)
      invariant size == LastBlockSize(taken)
    {
      var opt := NullStr(b);
      if opt.None? {
        return None;
      }
      var val := NullStr(opt.value.1);
      if val.None? {
        return None;
      }
      ghost var pair := Pair(opt.value.0, val.value.0);
      TakePair(taken, b, pair, val.value.1);
      b := val.value.1;
      var number := Atoi(val.value.0);
      if number.None? {
        BadPair(taken, pair, SplitPairs(b));
        return None;
      }
      if opt.value.0 == BLKSIZE {
        if number.value < 8 || number.value > 65464 {
          BadPair(taken, pair, SplitPairs(b));
          return None;
        }
        size := number.value;
        if size > MAX_ETHERNET_BLOCK {
          size := MAX_ETHERNET_BLOCK;
        }
      }
      LastBlockSizeSnoc(taken, pair);
      taken := taken + [pair];
    }
    assert taken + [] == taken;
    blockSize := Some(size);
  }

  /** The parser as the server runs it. */
  method ParseRRQ(packet: bytes) returns (r: Option<Rrq>)
    ensures r == Parse(packet)
  {
    if |packet| < 6 {
      return None;
    }
    if Get16(packet[..2]) != 1 {
      return None;
    }
    var name := NullStr(packet[2..]);
    if name.None? {
      return None;
    }
    var mode := NullStr(name.value.1);
    if mode.None? {
      return None;
    }
    if mode.value.0 != OCTET {
      return None;
    }
    var size := ParseOptions(mode.value.1);
    r := if size.None? then None else Some(Rrq(name.value.0, size.value));
  }
}
