/** Base64 with the URL-safe alphabet and padding (section 5 of RFC 4648). */
module Base64Url {
  import opened Bytes
  import opened Selecting

  const PAD: byte := 61

  function Char(i: nat): byte
    requires i < 64
  {
    if i < 26 then 65 + i else if i < 52 then 71 + i else if i < 62 then i - 4 else if i == 62 then 45 else 95
  }

  function Index(c: byte): (i: Option<nat>)
    ensures i.Some? ==> i.value < 64
  {
    if 65 <= c <= 90 then Some(c - 65)
    else if 97 <= c <= 122 then Some(c - 71)
    else if 48 <= c <= 57 then Some(c + 4)
    else if c == 45 then Some(62)
    else if c == 95 then Some(63)
    else None
  }

  lemma IndexChar(i: nat)
    requires i < 64
    ensures Index(Char(i)) == Some(i) && Char(i) != PAD
  {
  }

  /** The alphabet, in order: capital letters, small letters, digits, "-" and "_". */
  lemma Alphabet(i: nat)
    requires i < 64
    ensures Char(i) == if i < 26 then 'A' as int + i else if i < 52 then 'a' as int + i - 26
                       else if i < 62 then '0' as int + i - 52 else if i == 62 then '-' as int else '_' as int
  {
  }

  /** Every group is a 24-bit number in base 64; a last group of one or two bytes is filled up with zero
      bits and "=". */
  lemma EncodeDigits(b: bytes, i0: nat, i1: nat, i2: nat, i3: nat)
    requires b != [] && i0 < 64 && i1 < 64 && i2 < 64 && i3 < 64
    requires var n := (b[0] as int * 256 + if 1 < |b| then b[1] as int else 0) * 256 + if 2 < |b| then b[2] as int else 0;
             ((i0 * 64 + i1) * 64 + i2) * 64 + i3 == n
    ensures var s := Encode(b);
            && 4 <= |s| && s[0] == Char(i0) && s[1] == Char(i1)
            && s[2] == (if |b| == 1 then 61 else Char(i2)) && s[3] == (if |b| <= 2 then 61 else Char(i3))
            && s[4..] == if |b| <= 3 then [] else Encode(b[3..])
  {
    DigitsUnique(b[0], if 1 < |b| then b[1] else 0, if 2 < |b| then b[2] else 0, i0, i1, i2, i3);
    if |b| == 3 {
      assert b[3..] == [];
    }
  }

  lemma DigitsUnique(x: byte, y: byte, z: byte, i0: nat, i1: nat, i2: nat, i3: nat)
    requires i0 < 64 && i1 < 64 && i2 < 64 && i3 < 64
    requires ((i0 * 64 + i1) * 64 + i2) * 64 + i3 == (x as int * 256 + y as int) * 256 + z as int
    ensures i0 == x / 4 && i1 == x % 4 * 16 + y / 16 && i2 == y % 16 * 4 + z / 64 && i3 == z % 64
  {
    var d0, d1, d2, d3: int := x / 4, x % 4 * 16 + y / 16, y % 16 * 4 + z / 64, z % 64;
    assert ((d0 * 64 + d1) * 64 + d2) * 64 + d3 == (x as int * 256 + y as int) * 256 + z as int;
    DigitUnique((i0 * 64 + i1) * 64 + i2, i3, (d0 * 64 + d1) * 64 + d2, d3);
    DigitUnique(i0 * 64 + i1, i2, d0 * 64 + d1, d2);
    DigitUnique(i0, i1, d0, d1);
  }

  lemma DigitUnique(a: int, i: int, b: int, k: int)
    requires 0 <= i < 64 && 0 <= k < 64 && a * 64 + i == b * 64 + k
    ensures a == b && i == k
  {
  }

  function Encode(b: bytes): bytes {
    if b == [] then []
    else if |b| == 1 then [Char(b[0] / 4), Char(b[0] % 4 * 16), PAD, PAD]
    else if |b| == 2 then [Char(b[0] / 4), Char(b[0] % 4 * 16 + b[1] / 16), Char(b[1] % 16 * 4), PAD]
    else EncodeGroup(b[0], b[1], b[2]) + Encode(b[3..])
  }

  function EncodeGroup(x: byte, y: byte, z: byte): (s: bytes)
    ensures |s| == 4
  {
    [Char(x / 4), Char(x % 4 * 16 + y / 16), Char(y % 16 * 4 + z / 64), Char(z % 64)]
  }

  /** The bytes of one group of four characters; only the last group may be padded.  Left-over bits
      are not checked. */
  function DecodeQuad(c0: byte, c1: byte, c2: byte, c3: byte, last: bool): Option<bytes> {
    var i0, i1 := Index(c0), Index(c1);
    if i0.None? || i1.None? then None
    else
      var b0: byte := i0.value * 4 + i1.value / 16;
      if c2 == PAD then
        if c3 == PAD && last then Some([b0]) else None
      else
        var i2 := Index(c2);
        if i2.None? then None
        else
          var b1: byte := i1.value % 16 * 16 + i2.value / 4;
          if c3 == PAD then
            if last then Some([b0, b1]) else None
          else
            var i3 := Index(c3);
            if i3.None? then None else Some([b0, b1, i2.value % 4 * 64 + i3.value])
  }

  function DecodeGroups(s: bytes): Option<bytes> {
    if s == [] then Some([])
    else if |s| < 4 then None
    else
      var quad, rest := DecodeQuad(s[0], s[1], s[2], s[3], |s| == 4), DecodeGroups(s[4..]);
      if quad.None? || rest.None? then None else Some(quad.value + rest.value)
  }

  function StripNewlines(s: bytes): bytes {
    if s == [] then []
    else (if s[0] == 10 || s[0] == 13 then [] else [s[0]]) + StripNewlines(s[1..])
  }

  /** Line breaks are ignored wherever they are. */
  function DecodeString(s: bytes): Option<bytes> {
    DecodeGroups(StripNewlines(s))
  }

  /** A character that counts: anything but a line feed or a carriage return. */
  function Counted(c: byte): Option<byte> {
    if c == 10 || c == 13 then None else Some(c)
  }

  lemma {:induction false} StripExactly(s: bytes) returns (from: seq<nat>)
    ensures Keeps(s, Counted, StripNewlines(s), from)
  {
    StripCollects(s);
    from := CollectKeeps(s, Counted);
  }

  lemma {:induction false} StripSnoc(s: bytes, c: byte)
    ensures StripNewlines(s + [c]) == StripNewlines(s) + if c == 10 || c == 13 then [] else [c]
  {
    if s == [] {
      assert s + [c] == [c];
      assert [c][1..] == [];
    } else {
      var head: bytes := if s[0] == 10 || s[0] == 13 then [] else [s[0]];
      var last: bytes := if c == 10 || c == 13 then [] else [c];
      StripSnoc(s[1..], c);
      assert StripNewlines(s + [c]) == head + StripNewlines(s[1..] + [c]) by {
        assert (s + [c])[1..] == s[1..] + [c];
      }
      Assoc(head, StripNewlines(s[1..]), last);
    }
  }

  lemma {:induction false} StripCollects(s: bytes)
    ensures StripNewlines(s) == Collect(s, Counted)
  {
    if s != [] {
      var front, last := s[..|s| - 1], s[|s| - 1];
      StripCollects(front);
      StripSnoc(front, last);
      assert s == front + [last];
    }
  }

  /** A group is read as a 24-bit number in base 64, padding counting as zero; its leading bytes are the
      result, one less for each character of padding, and the bits after them do not matter. */
  lemma QuadNumber(s: bytes, last: bool, i0: nat, i1: nat, i2: nat, i3: nat)
    requires |s| == 4 && DecodeQuad(s[0], s[1], s[2], s[3], last).Some?
    requires Index(s[0]) == Some(i0) && Index(s[1]) == Some(i1)
    requires if s[2] == 61 then i2 == 0 else Index(s[2]) == Some(i2)
    requires if s[3] == 61 then i3 == 0 else Index(s[3]) == Some(i3)
    ensures var b := DecodeQuad(s[0], s[1], s[2], s[3], last).value;
            var n := ((i0 * 64 + i1) * 64 + i2) * 64 + i3;
            && |b| == (if s[2] == 61 then 1 else if s[3] == 61 then 2 else 3)
            && b[0] as int == n / 65536
            && (1 < |b| ==> b[1] as int == n / 256 % 256)
            && (2 < |b| ==> b[2] as int == n % 256)
  {
    NumberBytes(i0, i1, i2, i3);
  }

  lemma NumberBytes(i0: nat, i1: nat, i2: nat, i3: nat)
    requires i0 < 64 && i1 < 64 && i2 < 64 && i3 < 64
    ensures var n := ((i0 * 64 + i1) * 64 + i2) * 64 + i3;
            && n / 65536 == i0 * 4 + i1 / 16
            && n / 256 % 256 == i1 % 16 * 16 + i2 / 4
            && n % 256 == i2 % 4 * 64 + i3
  {
    var n := ((i0 * 64 + i1) * 64 + i2) * 64 + i3;
    var x, y, z := i0 * 4 + i1 / 16, i1 % 16 * 16 + i2 / 4, i2 % 4 * 64 + i3;
    assert n == (x * 256 + y) * 256 + z;
    ByteUnique(n / 256, n % 256, x * 256 + y, z);
    ByteUnique(n / 256 / 256, n / 256 % 256, x, y);
    assert n / 65536 == n / 256 / 256;
  }

  lemma ByteUnique(a: int, i: int, b: int, k: int)
    requires 0 <= i < 256 && 0 <= k < 256 && a * 256 + i == b * 256 + k
    ensures a == b && i == k
  {
  }

  /** A character that needs no quoting in a URL, a config line or a comma-separated list. */
  predicate Plain(c: byte) {
    Index(c).Some? || c == PAD
  }

  predicate AllPlain(s: bytes) {
    forall c <- s :: Plain(c)
  }

  lemma PlainMeans(c: byte)
    requires Plain(c)
    ensures c != 10 && c != 13 && c != 32 && c != 44 && c != 47
  {
  }

  lemma {:induction false} EncodePlain(b: bytes)
    ensures AllPlain(Encode(b))
    ensures b != [] ==> Encode(b) != []
  {
    if |b| == 1 {
      IndexChar(b[0] / 4);
      IndexChar(b[0] % 4 * 16);
    } else if |b| == 2 {
      IndexChar(b[0] / 4);
      IndexChar(b[0] % 4 * 16 + b[1] / 16);
      IndexChar(b[1] % 16 * 4);
    } else if 3 <= |b| {
      IndexChar(b[0] / 4);
      IndexChar(b[0] % 4 * 16 + b[1] / 16);
      IndexChar(b[1] % 16 * 4 + b[2] / 64);
      IndexChar(b[2] % 64);
      EncodePlain(b[3..]);
    }
  }

  lemma {:induction false} StripPlain(s: bytes)
    requires AllPlain(s)
    ensures StripNewlines(s) == s
  {
    if s != [] {
      assert s[0] in s;
      PlainMeans(s[0]);
      assert AllPlain(s[1..]);
      StripPlain(s[1..]);
    }
  }

  lemma Cut(a: nat, b: nat)
    ensures b < 16 ==> (a * 16 + b) / 16 == a && (a * 16 + b) % 16 == b
    ensures b < 4 ==> (a * 4 + b) / 4 == a && (a * 4 + b) % 4 == b
  {
  }

  lemma QuadOf(c0: byte, c1: byte, c2: byte, c3: byte, i0: nat, i1: nat, i2: nat, i3: nat, last: bool)
    requires Index(c0) == Some(i0) && Index(c1) == Some(i1) && Index(c2) == Some(i2) && Index(c3) == Some(i3)
    requires c2 != PAD && c3 != PAD
    ensures DecodeQuad(c0, c1, c2, c3, last) == Some([i0 * 4 + i1 / 16, i1 % 16 * 16 + i2 / 4, i2 % 4 * 64 + i3])
  {
  }

  /** The bits of three bytes, cut where the characters of a group are cut. */
  lemma QuadBits(i0: nat, a: nat, b: nat, c: nat, d: nat, i3: nat, last: bool)
    requires i0 < 64 && a < 4 && b < 16 && c < 16 && d < 4 && i3 < 64
    ensures DecodeQuad(Char(i0), Char(a * 16 + b), Char(c * 4 + d), Char(i3), last) ==
            Some([i0 * 4 + a, b * 16 + c, d * 64 + i3])
  {
    var i1, i2 := a * 16 + b, c * 4 + d;
    IndexChar(i0);
    IndexChar(i1);
    IndexChar(i2);
    IndexChar(i3);
    Cut(a, b);
    Cut(c, d);
    QuadOf(Char(i0), Char(i1), Char(i2), Char(i3), i0, i1, i2, i3, last);
  }

  lemma QuadBytes(x: byte, y: byte, z: byte, last: bool)
    ensures var s := EncodeGroup(x, y, z);
            DecodeQuad(s[0], s[1], s[2], s[3], last) == Some([x, y, z])
  {
    QuadBits(x / 4, x % 4, y / 16, y % 16, z / 64, z % 64, last);
  }

  lemma DecodeGroup(quad: bytes, rest: bytes)
    requires |quad| == 4 && DecodeGroups(rest).Some?
    requires DecodeQuad(quad[0], quad[1], quad[2], quad[3], rest == []).Some?
    ensures DecodeGroups(quad + rest) ==
            Some(DecodeQuad(quad[0], quad[1], quad[2], quad[3], rest == []).value + DecodeGroups(rest).value)
  {
    assert (quad + rest)[4..] == rest;
  }

  lemma DecodeOne(x: byte)
    ensures DecodeQuad(Char(x / 4), Char(x % 4 * 16), PAD, PAD, true) == Some([x])
  {
    IndexChar(x / 4);
    IndexChar(x % 4 * 16);
  }

  lemma DecodeTwo(x: byte, y: byte)
    ensures DecodeQuad(Char(x / 4), Char(x % 4 * 16 + y / 16), Char(y % 16 * 4), PAD, true) == Some([x, y])
  {
    IndexChar(x / 4);
    IndexChar(x % 4 * 16 + y / 16);
    IndexChar(y % 16 * 4);
  }

  lemma {:induction false} DecodeGroupsEncode(b: bytes)
    ensures DecodeGroups(Encode(b)) == Some(b)
  {
    if |b| == 1 || |b| == 2 {
      var quad := Encode(b);
      if |b| == 1 {
        DecodeOne(b[0]);
        assert b == [b[0]];
      } else {
        DecodeTwo(b[0], b[1]);
        assert b == [b[0], b[1]];
      }
      DecodeGroup(quad, []);
      assert quad + [] == quad && b + [] == b;
    } else if 3 <= |b| {
      DecodeGroupsEncode(b[3..]);
      EncodePlain(b[3..]);
      QuadBytes(b[0], b[1], b[2], Encode(b[3..]) == []);
      DecodeGroup(EncodeGroup(b[0], b[1], b[2]), Encode(b[3..]));
      assert [b[0], b[1], b[2]] + b[3..] == b;
    }
  }

  /** Every byte string survives being encoded and decoded. */
  lemma DecodeEncode(b: bytes)
    ensures DecodeString(Encode(b)) == Some(b)
  {
    EncodePlain(b);
    StripPlain(Encode(b));
    DecodeGroupsEncode(b);
  }

  // ---- What is accepted ---------------------------------------------------------------------

  predicate InAlphabet(s: bytes) {
    forall c <- s :: Index(c).Some?
  }

  /** Whole groups of alphabet characters, the last one or two of which may be padding. */
  predicate WellPadded(s: bytes) {
    && |s| % 4 == 0
    && (|| InAlphabet(s)
        || (1 <= |s| && s[|s| - 1] == PAD && InAlphabet(s[..|s| - 1]))
        || (2 <= |s| && s[|s| - 1] == PAD && s[|s| - 2] == PAD && InAlphabet(s[..|s| - 2])))
  }

  lemma AlphabetConcat(a: bytes, b: bytes)
    ensures InAlphabet(a + b) <==> InAlphabet(a) && InAlphabet(b)
  {
    if InAlphabet(a + b) {
      assert forall c <- a :: c in a + b;
      assert forall c <- b :: c in a + b;
    }
  }

  lemma QuadAccepts(s: bytes, last: bool)
    requires |s| == 4
    ensures DecodeQuad(s[0], s[1], s[2], s[3], last).Some? <==> InAlphabet(s) || (last && WellPadded(s))
  {
    assert s == [s[0], s[1], s[2], s[3]];
    assert s[..3] == [s[0], s[1], s[2]] && s[..2] == [s[0], s[1]];
    assert Index(PAD) == None;
  }

  lemma WellPaddedGroup(quad: bytes, rest: bytes)
    requires |quad| == 4 && 4 <= |rest|
    ensures WellPadded(quad + rest) <==> InAlphabet(quad) && WellPadded(rest)
  {
    var s := quad + rest;
    AlphabetConcat(quad, rest);
    assert s[..|s| - 1] == quad + rest[..|rest| - 1];
    AlphabetConcat(quad, rest[..|rest| - 1]);
    assert s[..|s| - 2] == quad + rest[..|rest| - 2];
    AlphabetConcat(quad, rest[..|rest| - 2]);
  }

  /** Groups are decoded if and only if they are well padded. */
  lemma {:induction false} DecodeGroupsAccepts(s: bytes)
    ensures DecodeGroups(s).Some? <==> WellPadded(s)
  {
    if 4 <= |s| {
      var quad, rest := s[..4], s[4..];
      assert s == quad + rest;
      QuadAccepts(quad, |s| == 4);
      DecodeGroupsAccepts(rest);
      if 4 <= |rest| {
        WellPaddedGroup(quad, rest);
      } else if |s| == 4 {
        assert s == quad;
      }
    }
  }

  /** A text is decoded if and only if what is left of it without line breaks is well padded. */
  lemma DecodeStringAccepts(s: bytes)
    ensures DecodeString(s).Some? <==> WellPadded(StripNewlines(s))
  {
    DecodeGroupsAccepts(StripNewlines(s));
  }
}
