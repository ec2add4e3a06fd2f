/** DHCP options (section 2 of RFC 2132): type, length, value, ended by type 255. */
module DhcpOptions {
  import opened Bytes

  const END: byte := 255

  datatype Opt = Opt(typ: byte, val: bytes)

  /** One step of the walk: the first option and what follows it; type 255 if there is none. */
  datatype Walk = Walk(typ: byte, val: bytes, next: bytes)

  /** The walk goes no further here: no room for an option, the end mark, or a truncated value.
      Type 0 is an option like any other, not a pad. */
  predicate Stops(b: bytes) {
    |b| < 2 || b[0] == END || |b| < b[1] as int + 2
  }

  function DhcpOption(b: bytes): (w: Walk)
    ensures w.typ != END ==> |w.next| < |b|
    ensures w.typ == END <==> Stops(b)
  {
    if |b| < 2 || b[0] == END then Walk(END, [], [])
    else
      var l := b[1] as int;
      if |b| < l + 2 then Walk(END, [], []) else Walk(b[0], b[2..2 + l], b[2 + l..])
  }

  /** All options a walk meets. */
  function Decode(b: bytes): seq<Opt>
    decreases |b|
  {
    var w := DhcpOption(b);
    if w.typ == END then [] else [Opt(w.typ, w.val)] + Decode(w.next)
  }

  // ---- The format ------------------------------------------------------------------

  predicate Encodable(o: Opt) {
    o.typ != END && |o.val| < 256
  }

  predicate AllEncodable(opts: seq<Opt>) {
    forall o <- opts :: Encodable(o)
  }

  function EncodeOne(o: Opt): bytes
    requires Encodable(o)
  {
    var head: bytes := [o.typ, |o.val|];
    head + o.val
  }

  function Encode(opts: seq<Opt>): bytes
    requires AllEncodable(opts)
  {
    if opts == [] then [] else EncodeOne(opts[0]) + Encode(opts[1..])
  }

  lemma EncodeCons(o: Opt, opts: seq<Opt>)
    requires Encodable(o) && AllEncodable(opts)
    ensures AllEncodable([o] + opts) && Encode([o] + opts) == EncodeOne(o) + Encode(opts)
  {
    assert ([o] + opts)[1..] == opts;
  }

  lemma EncodeLast(o: Opt)
    requires Encodable(o)
    ensures AllEncodable([o]) && Encode([o]) == EncodeOne(o)
  {
    assert [o][1..] == [];
    assert EncodeOne(o) + [] == EncodeOne(o);
  }

  /** Length bytes of options whose value starts with one or three fixed bytes. */
  lemma EncodeOneAfter1(typ: byte, a: byte, x: bytes)
    requires typ != END && |x| < 255
    ensures EncodeOne(Opt(typ, [a] + x)) == [typ, |x| + 1, a] + x
  {
  }

  lemma EncodeOneAfter3(typ: byte, a: byte, b: byte, c: byte, x: bytes)
    requires typ != END && |x| < 253
    ensures EncodeOne(Opt(typ, [a, b, c] + x)) == [typ, |x| + 3, a, b, c] + x
  {
  }

  lemma WalkOne(o: Opt, rest: bytes)
    requires Encodable(o)
    ensures DhcpOption(EncodeOne(o) + rest) == Walk(o.typ, o.val, rest)
  {
    var b := EncodeOne(o) + rest;
    assert b[2..2 + |o.val|] == o.val && b[2 + |o.val|..] == rest;
  }

  lemma WalkSound(b: bytes)
    requires !Stops(b)
    ensures var w := DhcpOption(b);
            Encodable(Opt(w.typ, w.val)) && b == EncodeOne(Opt(w.typ, w.val)) + w.next
  {
    var l := b[1] as int;
    assert b == b[..2] + b[2..2 + l] + b[2 + l..];
    assert b[..2] == [b[0], b[1]];
  }

  lemma DecodeOne(o: Opt, rest: bytes)
    requires Encodable(o)
    ensures Decode(EncodeOne(o) + rest) == [o] + Decode(rest)
  {
    WalkOne(o, rest);
  }

  lemma DecodeCons(o: Opt, more: seq<Opt>, area: bytes)
    requires Encodable(o) && AllEncodable(more) && Decode(Encode(more) + area) == more + Decode(area)
    ensures AllEncodable([o] + more) && Decode(Encode([o] + more) + area) == [o] + more + Decode(area)
  {
    EncodeCons(o, more);
    Assoc(EncodeOne(o), Encode(more), area);
    DecodeOne(o, Encode(more) + area);
  }

  /** Options before a given area come first. */
  lemma {:induction false} DecodeAppend(opts: seq<Opt>, area: bytes)
    requires AllEncodable(opts)
    ensures Decode(Encode(opts) + area) == opts + Decode(area)
    decreases |opts|
  {
    if opts == [] {
      assert Encode(opts) + area == area;
    } else {
      assert Encodable(opts[0]);
      DecodeAppend(opts[1..], area);
      DecodeCons(opts[0], opts[1..], area);
      assert opts == [opts[0]] + opts[1..];
    }
  }

  /** Walking inverts encoding, whatever follows the place where the walk stops. */
  lemma {:induction false} DecodeEncode(opts: seq<Opt>, rest: bytes)
    requires AllEncodable(opts) && Stops(rest)
    ensures Decode(Encode(opts) + rest) == opts
    decreases |opts|
  {
    if opts == [] {
      assert Encode(opts) + rest == rest;
    } else {
      assert opts[0] in opts;
      assert AllEncodable(opts[1..]);
      assert Encode(opts) + rest == EncodeOne(opts[0]) + (Encode(opts[1..]) + rest);
      WalkOne(opts[0], Encode(opts[1..]) + rest);
      DecodeEncode(opts[1..], rest);
      assert [opts[0]] + opts[1..] == opts;
    }
  }

  /** Every byte string is the encoding of the options it decodes to, up to where the walk stops. */
  lemma {:induction false} DecodeSound(b: bytes) returns (rest: bytes)
    ensures AllEncodable(Decode(b)) && Stops(rest) && b == Encode(Decode(b)) + rest
    decreases |b|
  {
    var w := DhcpOption(b);
    if w.typ == END {
      rest := b;
      assert Encode([]) + rest == b;
    } else {
      rest := DecodeSound(w.next);
      WalkSound(b);
      var o, more := Opt(w.typ, w.val), Decode(w.next);
      assert ([o] + more)[1..] == more;
      assert EncodeOne(o) + (Encode(more) + rest) == (EncodeOne(o) + Encode(more)) + rest;
    }
  }

  /** The options of a byte string are the only ones whose encoding it starts with, up to a stop. */
  lemma DecodeExactly(b: bytes, opts: seq<Opt>)
    ensures Decode(b) == opts <==>
            AllEncodable(opts) && exists rest :: Stops(rest) && b == Encode(opts) + rest
  {
    if Decode(b) == opts {
      var rest := DecodeSound(b);
    }
    if AllEncodable(opts) {
      if rest :| Stops(rest) && b == Encode(opts) + rest {
        DecodeEncode(opts, rest);
      }
    }
  }

  /** The values of all options of one type, in order. */
  function ValuesOf(opts: seq<Opt>, typ: byte): seq<bytes> {
    if opts == [] then []
    else (if opts[0].typ == typ then [opts[0].val] else []) + ValuesOf(opts[1..], typ)
  }

  lemma {:induction false} ValuesOfSnoc(opts: seq<Opt>, o: Opt, typ: byte)
    ensures ValuesOf(opts + [o], typ) == ValuesOf(opts, typ) + if o.typ == typ then [o.val] else []
  {
    if opts == [] {
      assert opts + [o] == [o];
      assert [o][1..] == [];
    } else {
      assert (opts + [o])[1..] == opts[1..] + [o];
      ValuesOfSnoc(opts[1..], o, typ);
    }
  }

  lemma {:induction false} ValuesOfMember(opts: seq<Opt>, typ: byte, val: bytes)
    ensures val in ValuesOf(opts, typ) <==> Opt(typ, val) in opts
  {
    if opts != [] {
      ValuesOfMember(opts[1..], typ, val);
      assert opts == [opts[0]] + opts[1..];
    }
  }

  lemma ValuesOfCons(o: Opt, opts: seq<Opt>, typ: byte)
    ensures ValuesOf([o] + opts, typ) == (if o.typ == typ then [o.val] else []) + ValuesOf(opts, typ)
  {
    assert ([o] + opts)[1..] == opts;
  }

  /** The first value of a type is that of the option with none of its type before it. */
  lemma {:induction false} FirstValue(opts: seq<Opt>, typ: byte) returns (i: nat)
    requires ValuesOf(opts, typ) != []
    ensures i < |opts| && opts[i] == Opt(typ, ValuesOf(opts, typ)[0])
    ensures forall k | 0 <= k < i :: opts[k].typ != typ
  {
    i := 0;
    if opts[0].typ != typ {
      i := FirstValue(opts[1..], typ);
      i := i + 1;
    }
  }

  /** The last value of a type is that of the option with none of its type after it. */
  lemma {:induction false} LastValue(opts: seq<Opt>, typ: byte) returns (i: nat)
    requires ValuesOf(opts, typ) != []
    ensures i < |opts| && opts[i] == Opt(typ, ValuesOf(opts, typ)[|ValuesOf(opts, typ)| - 1])
    ensures forall k | i < k < |opts| :: opts[k].typ != typ
  {
    i := |opts| - 1;
    var front, last := opts[..i], opts[i];
    assert opts == front + [last];
    ValuesOfSnoc(front, last, typ);
    if last.typ != typ {
      assert ValuesOf(opts, typ) == ValuesOf(front, typ);
      i := LastValue(front, typ);
    }
  }

  /** An area holds some options, each as type, length and value, up to where there is no room for
      another one, the end mark 255, or a value that is cut off. */
  ghost predicate Holds(area: bytes, opts: seq<Opt>, rest: bytes) {
    && AllEncodable(opts) && area == Encode(opts) + rest
    && (|rest| < 2 || rest[0] == 255 || |rest| < rest[1] as int + 2)
  }

  lemma HoldsExactly(area: bytes, opts: seq<Opt>)
    ensures Decode(area) == opts <==> exists rest :: Holds(area, opts, rest)
  {
    DecodeExactly(area, opts);
    if Decode(area) == opts {
      var rest :| Stops(rest) && area == Encode(opts) + rest;
      assert Holds(area, opts, rest);
    }
    if rest :| Holds(area, opts, rest) {
      assert Stops(rest);
    }
  }

  // ---- Walking a slice of a buffer ----------------------------------------------------

  /** Bytes `lo` up to `hi` of some buffer: what a Go slice of it denotes. */
  datatype Slice = Slice(lo: nat, hi: nat)

  predicate In(s: Slice, buf: array<byte>) {
    s.lo <= s.hi <= buf.Length
  }

  function View(buf: array<byte>, s: Slice): bytes
    requires In(s, buf)
    reads buf
  {
    buf[s.lo..s.hi]
  }

  datatype SliceWalk = SliceWalk(typ: byte, val: Slice, next: Slice)

  lemma SliceOfSlice(s: bytes, lo: nat, hi: nat, a: nat, b: nat)
    requires lo <= hi <= |s| && a <= b <= hi - lo
    ensures s[lo..hi][a..b] == s[lo + a..lo + b]
  {
    var x, y := s[lo..hi][a..b], s[lo + a..lo + b];
    assert |x| == |y|;
    forall i | 0 <= i < |x| ensures x[i] == y[i] {
      assert x[i] == s[lo..hi][a + i] == s[lo + (a + i)];
      assert y[i] == s[(lo + a) + i];
    }
  }

  /** The walk on slices of the buffer, copying nothing. */
  method WalkSlice(buf: array<byte>, s: Slice) returns (w: SliceWalk)
    requires In(s, buf)
    ensures In(w.val, buf) && In(w.next, buf)
    ensures DhcpOption(View(buf, s)) == Walk(w.typ, View(buf, w.val), View(buf, w.next))
    ensures w.typ != END ==> w.next.hi - w.next.lo < s.hi - s.lo
  {
    w := SliceWalk(END, Slice(s.lo, s.lo), Slice(s.lo, s.lo));
    if s.hi - s.lo < 2 || buf[s.lo] == END {
      return;
    }
    var l := buf[s.lo + 1] as int;
    if s.hi - s.lo < l + 2 {
      return;
    }
    SliceOfSlice(buf[..], s.lo, s.hi, 2, 2 + l);
    SliceOfSlice(buf[..], s.lo, s.hi, 2 + l, s.hi - s.lo);
    w := SliceWalk(buf[s.lo], Slice(s.lo + 2, s.lo + 2 + l), Slice(s.lo + 2 + l, s.hi));
  }
}
