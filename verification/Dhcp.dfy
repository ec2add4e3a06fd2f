/** The ProxyDHCP responder: which requests it takes, what it offers, and its receive loop. */
module Dhcp {
  import opened Bytes
  import opened DhcpOptions
  import opened Bootp
  import opened Selecting

  const MAGIC: bytes := [99, 130, 83, 99]

  type IPv4 = b: bytes | |b| == 4 witness [0, 0, 0, 0]

  // ---- Requests ----------------------------------------------------------------------

  datatype Client = Client(tid: bytes, mac: bytes, guid: bytes)

  /** The fixed part.  The Ethernet test refuses only when type and length are both wrong. */
  predicate HeaderOk(b: bytes) {
    240 <= |b| && b[0] == 1 && (b[1] == 1 || b[2] == 6) && b[236..240] == MAGIC
  }

  /** A DHCPDISCOVER, from an x86 machine, with a well-formed UUID: where these options appear. */
  predicate OptionOk(o: Opt) {
    && (o.typ == 53 ==> o.val == [1])
    && (o.typ == 93 ==> o.val == [0, 0])
    && (o.typ == 97 ==> |o.val| == 17 && o.val[0] == 0)
  }

  predicate OptionsOk(opts: seq<Opt>) {
    (forall o <- opts :: OptionOk(o)) && exists o <- opts :: o.typ == 97
  }

  function Last(vals: seq<bytes>): bytes
    requires vals != []
  {
    vals[|vals| - 1]
  }

  lemma HasValue(opts: seq<Opt>, typ: byte)
    ensures ValuesOf(opts, typ) != [] <==> exists o <- opts :: o.typ == typ
  {
    if o :| o in opts && o.typ == typ {
      ValuesOfMember(opts, typ, o.val);
    }
    if ValuesOf(opts, typ) != [] {
      ValuesOfMember(opts, typ, ValuesOf(opts, typ)[0]);
    }
  }

  /** The UUID of acceptable options: the last option 97 counts. */
  function Guid(opts: seq<Opt>): (g: bytes)
    requires OptionsOk(opts)
    ensures |g| == 16
  {
    HasValue(opts, 97);
    ValuesOfMember(opts, 97, Last(ValuesOf(opts, 97)));
    Last(ValuesOf(opts, 97))[1..]
  }

  predicate Accepts(b: bytes) {
    HeaderOk(b) && OptionsOk(Decode(b[240..]))
  }

  function Meaning(b: bytes): (c: Client)
    requires Accepts(b)
    ensures |c.tid| == 4 && |c.mac| == 6 && |c.guid| == 16
  {
    Client(b[4..8], b[28..34], Guid(Decode(b[240..])))
  }

  /** A DHCPDISCOVER from an x86 machine that gives a UUID. */
  ghost predicate Discover(opts: seq<Opt>) {
    && (forall o <- opts :: o.typ == 53 ==> o.val == [1])
    && (forall o <- opts :: o.typ == 93 ==> o.val == [0, 0])
    && (forall o <- opts :: o.typ == 97 ==> |o.val| == 17 && o.val[0] == 0)
    && exists o <- opts :: o.typ == 97
  }

  /** Which packets are taken for requests, byte by byte. */
  lemma AcceptsExactly(b: bytes)
    ensures Accepts(b) <==>
            && 240 <= |b| && b[0] == 1 && (b[1] == 1 || b[2] == 6)
            && b[236] == 99 && b[237] == 130 && b[238] == 83 && b[239] == 99
            && exists opts: seq<Opt>, rest: bytes :: Holds(b[240..], opts, rest) && Discover(opts)
  {
    if 240 <= |b| {
      assert b[236..240] == [b[236], b[237], b[238], b[239]];
      var opts := Decode(b[240..]);
      HoldsExactly(b[240..], opts);
      assert OptionsOk(opts) <==> Discover(opts);
      if opts': seq<Opt>, rest: bytes :| Holds(b[240..], opts', rest) && Discover(opts') {
        HoldsExactly(b[240..], opts');
      }
    }
  }

  /** The UUID counted is that of the option 97 with no other after it. */
  lemma GuidIsLast(opts: seq<Opt>) returns (i: nat)
    requires OptionsOk(opts)
    ensures i < |opts| && opts[i] == Opt(97, [0] + Guid(opts))
    ensures forall k | i < k < |opts| :: opts[k].typ != 97
  {
    HasValue(opts, 97);
    i := LastValue(opts, 97);
    assert OptionOk(opts[i]);
    assert opts[i].val == [opts[i].val[0]] + opts[i].val[1..];
  }

  lemma HeaderAlone(header: bytes, area: bytes)
    requires |header| == 240
    ensures HeaderOk(header + area) <==> HeaderOk(header)
    ensures (header + area)[240..] == area
  {
    assert (header + area)[236..240] == header[236..240];
  }

  lemma SameOptions(opts: seq<Opt>, opts': seq<Opt>)
    requires multiset(opts) == multiset(opts')
    ensures OptionsOk(opts) ==> OptionsOk(opts')
  {
    forall o | o in opts' ensures o in opts {
      assert o in multiset(opts');
    }
    if o :| o in opts && o.typ == 97 {
      assert o in multiset(opts);
    }
  }

  /** The order in which a client encodes its options does not decide whether it is answered. */
  lemma OrderIrrelevant(header: bytes, opts: seq<Opt>, opts': seq<Opt>, rest: bytes, rest': bytes)
    requires |header| == 240 && AllEncodable(opts) && AllEncodable(opts') && Stops(rest) && Stops(rest')
    requires multiset(opts) == multiset(opts')
    ensures Accepts(header + (Encode(opts) + rest)) <==> Accepts(header + (Encode(opts') + rest'))
  {
    HeaderAlone(header, Encode(opts) + rest);
    HeaderAlone(header, Encode(opts') + rest');
    DecodeEncode(opts, rest);
    DecodeEncode(opts', rest');
    SameOptions(opts, opts');
    SameOptions(opts', opts);
  }

  /** A request whose parts are slices of the receive buffer. */
  datatype ClientSlices = ClientSlices(tid: Slice, mac: Slice, guid: Slice)

  predicate SlicesIn(c: ClientSlices, buf: array<byte>) {
    In(c.tid, buf) && In(c.mac, buf) && In(c.guid, buf)
  }

  function ViewClient(buf: array<byte>, c: ClientSlices): Client
    requires SlicesIn(c, buf)
    reads buf
  {
    Client(View(buf, c.tid), View(buf, c.mac), View(buf, c.guid))
  }

  /** What is still to be walked: the option in hand and those after it. */
  ghost function Pending(typ: byte, val: bytes, next: bytes): seq<Opt> {
    if typ == END then [] else [Opt(typ, val)] + Decode(next)
  }

  lemma TakeOption(taken: seq<Opt>, typ: byte, val: bytes, next: bytes, w: Walk)
    requires typ != END && w == DhcpOption(next)
    ensures taken + Pending(typ, val, next) == (taken + [Opt(typ, val)]) + Pending(w.typ, w.val, w.next)
  {
  }

  lemma BadOption(taken: seq<Opt>, o: Opt, next: bytes)
    requires !OptionOk(o)
    ensures !OptionsOk(taken + ([o] + Decode(next)))
  {
    assert o in taken + ([o] + Decode(next));
  }

  /** The parser as the server runs it: one pass over slices of the receive buffer. */
  method ParseDHCP(buf: array<byte>, n: nat) returns (r: Option<ClientSlices>)
    requires n <= buf.Length
    ensures r.Some? <==> Accepts(buf[..n])
    ensures r.Some? ==> SlicesIn(r.value, buf) && ViewClient(buf, r.value) == Meaning(buf[..n])
  {
    if n < 240 {
      return None;
    }
    var ok := CheckHeader(buf, n);
    if !ok {
      return None;
    }
    var guid := ParseOptions(buf, Slice(240, n));
    SliceOfSlice(buf[..], 0, n, 240, n);
    SliceOfSlice(buf[..], 0, n, 4, 8);
    SliceOfSlice(buf[..], 0, n, 28, 34);
    r := if guid.None? then None else Some(ClientSlices(Slice(4, 8), Slice(28, 34), guid.value));
  }

  method CheckHeader(buf: array<byte>, n: nat) returns (ok: bool)
    requires 240 <= n <= buf.Length
    ensures ok <==> HeaderOk(buf[..n])
  {
    assert buf[..n][236..240] == buf[236..240];
    if buf[0] != 1 {
      return false;
    }
    if buf[1] != 1 && buf[2] != 6 {
      return false;
    }
    ok := buf[236..240] == MAGIC;
  }

  /** What the options taken so far amount to. */
  ghost predicate Seen(taken: seq<Opt>, guid: Option<bytes>) {
    && (forall o <- taken :: OptionOk(o))
    && (guid.None? <==> ValuesOf(taken, 97) == [])
    && (guid.Some? ==> var v := Last(ValuesOf(taken, 97)); 0 < |v| && guid.value == v[1..])
  }

  lemma SeenOne(taken: seq<Opt>, guid: Option<bytes>, o: Opt)
    requires Seen(taken, guid) && OptionOk(o)
    ensures Seen(taken + [o], if o.typ == 97 then Some(o.val[1..]) else guid)
  {
    ValuesOfSnoc(taken, o, 97);
  }

  lemma SeenAll(opts: seq<Opt>, guid: Option<bytes>)
    requires Seen(opts, guid)
    ensures guid.Some? <==> OptionsOk(opts)
    ensures guid.Some? ==> guid.value == Guid(opts)
  {
    HasValue(opts, 97);
  }

  ghost function ViewOption(buf: array<byte>, s: Option<Slice>): Option<bytes>
    requires s.Some? ==> In(s.value, buf)
    reads buf
  {
    if s.Some? then Some(View(buf, s.value)) else None
  }

  /** A slice without its first byte. */
  function Tail(buf: array<byte>, s: Slice): (r: Slice)
    requires In(s, buf) && s.lo < s.hi
    reads buf
    ensures In(r, buf) && View(buf, r) == View(buf, s)[1..]
  {
    assert buf[s.lo..s.hi][1..] == buf[s.lo + 1..s.hi];
    Slice(s.lo + 1, s.hi)
  }

  method CheckOption(buf: array<byte>, typ: byte, val: Slice) returns (ok: bool)
    requires In(val, buf)
    ensures ok <==> OptionOk(Opt(typ, View(buf, val)))
  {
    var len := val.hi - val.lo;
    match typ {
      case 53 =>
        if len != 1 {
          return false;
        }
        assert View(buf, val) == [buf[val.lo]];
        ok := buf[val.lo] == 1;
      case 93 =>
        if len != 2 {
          return false;
        }
        assert View(buf, val) == [buf[val.lo], buf[val.lo + 1]];
        ok := Get16(buf[val.lo..val.hi]) == 0;
      case 97 =>
        ok := len == 17 && buf[val.lo] == 0;
      case _ =>
        ok := true;
    }
  }

  /** The option loop: stops at the first option that will not do. */
  method ParseOptions(buf: array<byte>, area: Slice) returns (guid: Option<Slice>)
    requires In(area, buf)
    ensures guid.Some? ==> In(guid.value, buf)
    ensures guid.Some? <==> OptionsOk(Decode(View(buf, area)))
    ensures guid.Some? ==> View(buf, guid.value) == Guid(Decode(View(buf, area)))
  {
    guid := None;
    ghost var all := Decode(View(buf, area));
    ghost var taken: seq<Opt> := [];
    var w := WalkSlice(buf, area);
    var typ, val, next := w.typ, w.val, w.next;
    while typ != END
      invariant In(val, buf) && In(next, buf)
      invariant guid.Some? ==> In(guid.value, buf)
      invariant all == taken + Pending(typ, View(buf, val), View(buf, next))
      invariant Seen(taken, ViewOption(buf, guid))
      decreases typ != END, next.hi - next.lo
    {
      ghost var o := Opt(typ, View(buf, val));
      var ok := CheckOption(buf, typ, val);
      if !ok {
        BadOption(taken, o, View(buf, next));
        return None;
      }
      SeenOne(taken, ViewOption(buf, guid), o);
      guid := if typ == 97 then Some(Tail(buf, val)) else guid;
      w := WalkSlice(buf, next);
      TakeOption(taken, typ, View(buf, val), View(buf, next), DhcpOption(View(buf, next)));
      taken := taken + [o];
      typ, val, next := w.typ, w.val, w.next;
    }
    assert all == taken;
    SeenAll(taken, ViewOption(buf, guid));
  }

  // ---- Offers -------------------------------------------------------------------------

  predicate Proper(c: Client) {
    |c.tid| == 4 && |c.mac| == 6 && |c.guid| == 16
  }

  /** The fixed part of an offer: transaction and hardware address of the client, all else blank. */
  function OfferHeader(c: Client): bytes {
    [2, 1, 6, 0] + c.tid + [0, 0, 128, 0] + Zeros(16) + c.mac + Zeros(202)
  }

  /** One boot server, one menu entry pointing to it, and no discovery by broadcast. */
  function MenuOptions(ip: IPv4): seq<Opt> {
    [Opt(6, [3])] + ([Opt(8, [128, 0, 1] + ip)]
      + ([Opt(9, [128, 0, 9] + Ascii("Pixiecore"))] + [Opt(10, [0] + Ascii("Pixiecore"))]))
  }

  function OfferOptions(c: Client, ip: IPv4, menu: bytes): seq<Opt> {
    [Opt(53, [2])] + ([Opt(54, ip)] + ([Opt(60, Ascii("PXEClient"))] + ([Opt(97, [0] + c.guid)] + [Opt(43, menu)])))
  }

  lemma MenuEncoded(ip: IPv4)
    ensures AllEncodable(MenuOptions(ip))
    ensures Encode(MenuOptions(ip)) == [6, 1, 3] + ([8, 7, 128, 0, 1] + ip)
            + ([9, 12, 128, 0, 9] + Ascii("Pixiecore")) + ([10, 10, 0] + Ascii("Pixiecore"))
  {
    var name := Ascii("Pixiecore");
    var o1, o2, o3, o4 := Opt(6, [3]), Opt(8, [128, 0, 1] + ip), Opt(9, [128, 0, 9] + name), Opt(10, [0] + name);
    EncodeLast(o4);
    EncodeCons(o3, [o4]);
    EncodeCons(o2, [o3] + [o4]);
    EncodeCons(o1, [o2] + ([o3] + [o4]));
    EncodeOneAfter3(8, 128, 0, 1, ip);
    EncodeOneAfter3(9, 128, 0, 9, name);
    EncodeOneAfter1(10, 0, name);
    Assoc4(EncodeOne(o1), EncodeOne(o2), EncodeOne(o3), EncodeOne(o4));
  }

  function Menu(ip: IPv4): (m: bytes)
    ensures |m| == 39
  {
    MenuEncoded(ip);
    Encode(MenuOptions(ip)) + [END]
  }

  lemma OfferEncoded(c: Client, ip: IPv4, menu: bytes)
    requires |c.guid| == 16 && |menu| < 256
    ensures AllEncodable(OfferOptions(c, ip, menu))
    ensures Encode(OfferOptions(c, ip, menu)) == [53, 1, 2] + ([54, 4] + ip) + ([60, 9] + Ascii("PXEClient"))
            + ([97, 17, 0] + c.guid) + ([43, |menu|] + menu)
  {
    var name := Ascii("PXEClient");
    var o1, o2, o3, o4, o5 := Opt(53, [2]), Opt(54, ip), Opt(60, name), Opt(97, [0] + c.guid), Opt(43, menu);
    EncodeLast(o5);
    EncodeCons(o4, [o5]);
    EncodeCons(o3, [o4] + [o5]);
    EncodeCons(o2, [o3] + ([o4] + [o5]));
    EncodeCons(o1, [o2] + ([o3] + ([o4] + [o5])));
    EncodeOneAfter1(97, 0, c.guid);
    Assoc5(EncodeOne(o1), EncodeOne(o2), EncodeOne(o3), EncodeOne(o4), EncodeOne(o5));
  }

  /** The offer as the format defines it. */
  function Offer(c: Client, ip: IPv4): bytes
    requires Proper(c)
  {
    OfferEncoded(c, ip, Menu(ip));
    OfferHeader(c) + MAGIC + (Encode(OfferOptions(c, ip, Menu(ip))) + [END])
  }

  /** The offer decodes to exactly its five options, and its vendor option to exactly its four. */
  lemma OfferDecodes(c: Client, ip: IPv4)
    requires Proper(c)
    ensures var offer := Offer(c, ip);
            && 240 < |offer| && offer[..236] == OfferHeader(c) && offer[236..240] == MAGIC
            && Decode(offer[240..]) == OfferOptions(c, ip, Menu(ip))
            && Decode(Menu(ip)) == MenuOptions(ip)
  {
    var offer, opts := Offer(c, ip), OfferOptions(c, ip, Menu(ip));
    OfferEncoded(c, ip, Menu(ip));
    MenuEncoded(ip);
    PacketParts(OfferHeader(c), MAGIC, Encode(opts) + [END]);
    DecodeEncode(opts, [END]);
    DecodeEncode(MenuOptions(ip), [END]);
  }

  /** The bytes of a BOOTP reply that are neither the client's nor the server's: a reply over Ethernet
      with six-byte addresses, the broadcast flag, and zeros. */
  predicate Blank(p: bytes, i: nat)
    requires i < |p|
  {
    p[i] == if i == 0 then 2 else if i == 1 then 1 else if i == 2 then 6 else if i == 10 then 128 else 0
  }

  lemma OfferHeaderBytes(c: Client)
    requires Proper(c)
    ensures var h := OfferHeader(c);
            && |h| == 236 && h[4..8] == c.tid && h[28..34] == c.mac
            && forall i | 0 <= i < 236 && !(4 <= i < 8) && !(28 <= i < 34) :: Blank(h, i)
  {
    var h := OfferHeader(c);
    assert h[4..8] == c.tid;
    assert h[28..34] == c.mac;
  }

  /** What a PXE client reads in an offer, number by number: a DHCPOFFER from the server's address, for
      PXE clients, with the client's UUID, and a menu whose single entry is of the same server type
      (128, 0) as the one boot server that is listed, at the same address, to be used without any
      broadcast. */
  lemma OfferRead(c: Client, ip: IPv4)
    requires Proper(c)
    ensures var offer := Offer(c, ip);
            && 240 < |offer| && offer[4..8] == c.tid && offer[28..34] == c.mac
            && offer[236..240] == [99, 130, 83, 99] && offer[|offer| - 1] == 255
            && (forall i | 0 <= i < 236 && !(4 <= i < 8) && !(28 <= i < 34) :: Blank(offer, i))
            && OfferSays(Decode(offer[240..]), c.guid, ip)
  {
    var offer, h := Offer(c, ip), OfferHeader(c);
    OfferDecodes(c, ip);
    OfferHeaderBytes(c);
    assert offer[4..8] == offer[..236][4..8];
    assert offer[28..34] == offer[..236][28..34];
    forall i | 0 <= i < 236 && !(4 <= i < 8) && !(28 <= i < 34) ensures Blank(offer, i) {
      assert Blank(h, i) && offer[i] == offer[..236][i];
    }
    OfferValues(c, ip, Menu(ip));
    MenuValues(ip);
  }

  ghost predicate OfferSays(opts: seq<Opt>, guid: bytes, ip: IPv4) {
    && |opts| == 5
    && ValuesOf(opts, 53) == [[2]] && ValuesOf(opts, 54) == [ip] && ValuesOf(opts, 60) == [Ascii("PXEClient")]
    && ValuesOf(opts, 97) == [[0] + guid]
    && |ValuesOf(opts, 43)| == 1
    && MenuSays(Decode(ValuesOf(opts, 43)[0]), ip)
  }

  ghost predicate MenuSays(menu: seq<Opt>, ip: IPv4) {
    && |menu| == 4
    && ValuesOf(menu, 6) == [[3]] && ValuesOf(menu, 8) == [[128, 0, 1] + ip]
    && ValuesOf(menu, 9) == [[128, 0, 9] + Ascii("Pixiecore")] && ValuesOf(menu, 10) == [[0] + Ascii("Pixiecore")]
  }

  function ValueIf(o: Opt, typ: byte): seq<bytes> {
    if o.typ == typ then [o.val] else []
  }

  lemma ValuesOf4(o1: Opt, o2: Opt, o3: Opt, o4: Opt, typ: byte)
    ensures ValuesOf([o1] + ([o2] + ([o3] + [o4])), typ) ==
            ValueIf(o1, typ) + ValueIf(o2, typ) + ValueIf(o3, typ) + ValueIf(o4, typ)
  {
    ValuesOfCons(o4, [], typ);
    assert [o4] + [] == [o4];
    ValuesOfCons(o3, [o4], typ);
    ValuesOfCons(o2, [o3] + [o4], typ);
    ValuesOfCons(o1, [o2] + ([o3] + [o4]), typ);
  }

  lemma OfferValues(c: Client, ip: IPv4, menu: bytes)
    ensures var opts := OfferOptions(c, ip, menu);
            && |opts| == 5
            && ValuesOf(opts, 53) == [[2]] && ValuesOf(opts, 54) == [ip] && ValuesOf(opts, 60) == [Ascii("PXEClient")]
            && ValuesOf(opts, 97) == [[0] + c.guid] && ValuesOf(opts, 43) == [menu]
  {
    var o1, o2, o3 := Opt(53, [2]), Opt(54, ip), Opt(60, Ascii("PXEClient"));
    var o4, o5 := Opt(97, [0] + c.guid), Opt(43, menu);
    var rest := [o2] + ([o3] + ([o4] + [o5]));
    forall typ: byte ensures ValuesOf(OfferOptions(c, ip, menu), typ) == ValueIf(o1, typ)
        + (ValueIf(o2, typ) + ValueIf(o3, typ) + ValueIf(o4, typ) + ValueIf(o5, typ)) {
      ValuesOfCons(o1, rest, typ);
      ValuesOf4(o2, o3, o4, o5, typ);
    }
  }

  lemma MenuValues(ip: IPv4)
    ensures MenuSays(MenuOptions(ip), ip)
  {
    var name := Ascii("Pixiecore");
    var o1, o2, o3, o4 := Opt(6, [3]), Opt(8, [128, 0, 1] + ip), Opt(9, [128, 0, 9] + name), Opt(10, [0] + name);
    ValuesOf4(o1, o2, o3, o4, 6);
    ValuesOf4(o1, o2, o3, o4, 8);
    ValuesOf4(o1, o2, o3, o4, 9);
    ValuesOf4(o1, o2, o3, o4, 10);
  }

  method FillHeader(tid: bytes, mac: bytes) returns (bootp: array<byte>)
    ensures fresh(bootp)
    ensures |tid| == 4 && |mac| == 6 ==> bootp[..] == OfferHeader(Client(tid, mac, []))
  {
    bootp := ReplyHeader();
    CopyAt(bootp, 4, tid);
    ghost var h1 := bootp[..];
    CopyAt(bootp, 28, mac);
    if |tid| == 4 && |mac| == 6 {
      var front: bytes := [2, 1, 6, 0];
      OverlayPart(front, Zeros(4), [0, 0, 128, 0] + Zeros(224), tid);
      var before := front + tid + [0, 0, 128, 0] + Zeros(16);
      assert front + Zeros(4) + ([0, 0, 128, 0] + Zeros(224)) == front + Zeros(4) + [0, 0, 128, 0] + Zeros(224);
      assert h1 == before + Zeros(6) + Zeros(202);
      OverlayPart(before, Zeros(6), Zeros(202), mac);
    }
  }

  /** The offer as the server builds it, length bytes written by hand, from slices of its buffer. */
  method OfferDHCP(buf: array<byte>, c: ClientSlices, ip: IPv4) returns (b: bytes)
    requires SlicesIn(c, buf)
    ensures Proper(ViewClient(buf, c)) ==> b == Offer(ViewClient(buf, c), ip)
  {
    ghost var client := ViewClient(buf, c);
    var bootp := FillHeader(buf[c.tid.lo..c.tid.hi], buf[c.mac.lo..c.mac.hi]);
    var pxe: bytes := [6, 1, 3];
    pxe := pxe + ([8, 7, 0x80, 0x00, 1] + ip);
    pxe := pxe + ([9, 12, 0x80, 0x00, 9] + Ascii("Pixiecore"));
    pxe := pxe + ([10, 10, 0] + Ascii("Pixiecore"));
    pxe := pxe + [255];
    var opts: bytes := [53, 1, 2];
    opts := opts + ([54, 4] + ip);
    opts := opts + ([60, 9] + Ascii("PXEClient"));
    opts := opts + ([97, 17, 0] + buf[c.guid.lo..c.guid.hi]);
    opts := opts + ([43, |pxe| % 256] + pxe);
    b := bootp[..] + MAGIC + (opts + [255]);
    MenuEncoded(ip);
    if Proper(client) {
      OfferEncoded(client, ip, pxe);
    }
  }

  // ---- Which address to offer -----------------------------------------------------------

  /** An interface address, if it is an IPv4 one. */
  type Address = Option<IPv4>

  function FirstMatch(test: IPv4 -> bool, addrs: seq<Address>): Option<IPv4> {
    if addrs == [] then None
    else if addrs[0].Some? && test(addrs[0].value) then addrs[0]
    else FirstMatch(test, addrs[1..])
  }

  /** The first address that passes the first test any address passes. */
  function PickIP(tests: seq<IPv4 -> bool>, addrs: seq<Address>): Option<IPv4> {
    if tests == [] then None
    else
      var hit := FirstMatch(tests[0], addrs);
      if hit.Some? then hit else PickIP(tests[1..], addrs)
  }

  lemma {:induction false} FirstMatchExtend(test: IPv4 -> bool, addrs: seq<Address>, k: nat)
    requires k < |addrs| && FirstMatch(test, addrs[..k]) == None
    ensures addrs[k].Some? && test(addrs[k].value) ==> FirstMatch(test, addrs) == addrs[k]
    ensures !(addrs[k].Some? && test(addrs[k].value)) ==> FirstMatch(test, addrs[..k + 1]) == None
  {
    if k == 0 {
      assert addrs[..1] == [addrs[0]];
      assert addrs[..1][1..] == [];
    } else {
      assert addrs[..k][1..] == addrs[1..][..k - 1];
      assert addrs[..k + 1][1..] == addrs[1..][..k];
      FirstMatchExtend(test, addrs[1..], k - 1);
    }
  }

  /** The selection loop: tests in order of preference, for each of them all addresses in turn. */
  method InterfaceIP(tests: seq<IPv4 -> bool>, addrs: seq<Address>) returns (r: Option<IPv4>)
    ensures r == PickIP(tests, addrs)
  {
    for t := 0 to |tests|
      invariant PickIP(tests, addrs) == PickIP(tests[t..], addrs)
    {
      for a := 0 to |addrs|
        invariant FirstMatch(tests[t], addrs[..a]) == None
      {
        FirstMatchExtend(tests[t], addrs, a);
        if addrs[a].Some? && tests[t](addrs[a].value) {
          return addrs[a];
        }
      }
      assert addrs[..|addrs|] == addrs;
    }
    r := None;
  }

  predicate Passes(tests: seq<IPv4 -> bool>, addrs: seq<Address>, t: nat, a: nat) {
    t < |tests| && a < |addrs| && addrs[a].Some? && tests[t](addrs[a].value)
  }

  lemma {:induction false} FirstMatchBest(test: IPv4 -> bool, addrs: seq<Address>) returns (a: nat)
    ensures FirstMatch(test, addrs).Some? ==>
              && a < |addrs| && FirstMatch(test, addrs) == addrs[a] && test(addrs[a].value)
              && forall a' | 0 <= a' < a :: !(addrs[a'].Some? && test(addrs[a'].value))
    ensures FirstMatch(test, addrs).None? ==> forall a' | 0 <= a' < |addrs| :: !(addrs[a'].Some? && test(addrs[a'].value))
  {
    a := 0;
    if addrs != [] && !(addrs[0].Some? && test(addrs[0].value)) {
      a := FirstMatchBest(test, addrs[1..]);
      a := a + 1;
    }
  }

  /** The address chosen passes a test, no address passes an earlier one, and none before it in the
      list passes the same one; and only if no address passes any test is none chosen. */
  lemma {:induction false} PickIPBest(tests: seq<IPv4 -> bool>, addrs: seq<Address>) returns (t: nat, a: nat)
    ensures PickIP(tests, addrs).Some? ==>
              && Passes(tests, addrs, t, a) && PickIP(tests, addrs) == addrs[a]
              && forall t': nat, a': nat | Passes(tests, addrs, t', a') :: t < t' || (t == t' && a <= a')
    ensures PickIP(tests, addrs).None? ==> forall t': nat, a': nat :: !Passes(tests, addrs, t', a')
  {
    t, a := 0, 0;
    if tests != [] {
      a := FirstMatchBest(tests[0], addrs);
      if FirstMatch(tests[0], addrs).None? {
        t, a := PickIPBest(tests[1..], addrs);
        t := t + 1;
        forall t': nat, a': nat | Passes(tests, addrs, t', a') ensures 0 < t' && Passes(tests[1..], addrs, t' - 1, a') {
        }
      }
    }
  }

  // ---- The receive loop -------------------------------------------------------------------

  /** A failed read, or a datagram, with what looking up the interface it came in on gives and what
      the booter says at that moment about each hardware address. */
  datatype Incoming = Broken | Datagram(data: bytes, addrs: Option<seq<Address>>, shouldBoot: bytes -> bool)

  const RECEIVE_BUFFER := 1024

  function Received(data: bytes): bytes {
    data[..Min(|data|, RECEIVE_BUFFER)]
  }

  function Lookup(tests: seq<IPv4 -> bool>, addrs: Option<seq<Address>>): Option<IPv4> {
    if addrs.None? then None else PickIP(tests, addrs.value)
  }

  /** The answer to one datagram, as a function of that datagram alone. */
  function Answer(tests: seq<IPv4 -> bool>, m: Incoming): Option<bytes> {
    if m.Broken? || !Accepts(Received(m.data)) then None
    else
      var c, ip := Meaning(Received(m.data)), Lookup(tests, m.addrs);
      if !m.shouldBoot(c.mac) || ip.None? then None else Some(Offer(c, ip.value))
  }

  /** Some address of the interface will do. */
  ghost predicate Reachable(tests: seq<IPv4 -> bool>, addrs: Option<seq<Address>>) {
    addrs.Some? && exists t: nat, a: nat :: Passes(tests, addrs.value, t, a)
  }

  lemma LookupExactly(tests: seq<IPv4 -> bool>, addrs: Option<seq<Address>>)
    ensures Lookup(tests, addrs).Some? <==> Reachable(tests, addrs)
  {
    if addrs.Some? {
      var t, a := PickIPBest(tests, addrs.value);
    }
  }

  /** The request is acceptable, its sender is one the booter wants, and there is an address to give. */
  ghost predicate Wanted(tests: seq<IPv4 -> bool>, m: Incoming) {
    && m.Datagram? && Accepts(m.data[..Min(|m.data|, 1024)])
    && m.shouldBoot(m.data[28..34]) && Reachable(tests, m.addrs)
  }

  /** An offer is made exactly to those machines the booter wants to boot. */
  lemma OfferedExactly(tests: seq<IPv4 -> bool>, m: Incoming)
    ensures Answer(tests, m).Some? <==> Wanted(tests, m)
  {
    if m.Datagram? && Accepts(Received(m.data)) {
      LookupExactly(tests, m.addrs);
      assert Received(m.data)[28..34] == m.data[28..34];
    }
  }

  /** Every answer names the transaction, hardware address and UUID of the request it answers, one the
      booter said yes to, and offers the address picked. */
  lemma AnswerMirrorsRequest(tests: seq<IPv4 -> bool>, m: Incoming)
    ensures Answer(tests, m).Some? ==> Mirrors(tests, m, Answer(tests, m).value)
  {
    if Answer(tests, m).None? {
      return;
    }
    OfferedExactly(tests, m);
    var c, ip := Meaning(Received(m.data)), Lookup(tests, m.addrs).value;
    OfferRead(c, ip);
  }

  ghost predicate Mirrors(tests: seq<IPv4 -> bool>, m: Incoming, offer: bytes) {
    && m.Datagram? && var request := Received(m.data);
    && Accepts(request) && 240 < |offer|
    && offer[4..8] == request[4..8] && offer[28..34] == request[28..34] && m.shouldBoot(offer[28..34])
    && m.addrs.Some? && PickIP(tests, m.addrs.value).Some?
    && OfferSays(Decode(offer[240..]), Guid(Decode(request[240..])), PickIP(tests, m.addrs.value).value)
  }

  function Answering(tests: seq<IPv4 -> bool>): Incoming -> Option<bytes> {
    (m: Incoming) => Answer(tests, m)
  }

  /** The answers to all datagrams that get one. */
  function Answers(tests: seq<IPv4 -> bool>, ms: seq<Incoming>): seq<bytes> {
    Collect(ms, Answering(tests))
  }

  method HandleDatagram(buf: array<byte>, tests: seq<IPv4 -> bool>, m: Incoming)
    returns (reply: Option<bytes>)
    requires buf.Length == RECEIVE_BUFFER
    modifies buf
    ensures reply == Answer(tests, m)
  {
    if m.Broken? {
      return None;
    }
    var n := Min(|m.data|, RECEIVE_BUFFER);
    CopyAt(buf, 0, m.data);
    assert buf[..n] == Received(m.data);
    var req := ParseDHCP(buf, n);
    if req.None? {
      return None;
    }
    if !m.shouldBoot(buf[req.value.mac.lo..req.value.mac.hi]) {
      return None;
    }
    if m.addrs.None? {
      return None;
    }
    var ip := InterfaceIP(tests, m.addrs.value);
    if ip.None? {
      return None;
    }
    var offer := OfferDHCP(buf, req.value, ip.value);
    reply := Some(offer);
  }

  /** The server: all requests go through one buffer that still holds the previous ones, and the
      parts of a request are slices of it; yet every reply is made from its own datagram alone.  There
      is one for each datagram that asks for it from a machine its booter wants, in order, and no
      other. */
  method ServeProxyDHCP(tests: seq<IPv4 -> bool>, ms: seq<Incoming>)
    returns (replies: seq<bytes>, ghost from: seq<nat>)
    ensures replies == Answers(tests, ms)
    ensures Keeps(ms, Answering(tests), replies, from)
    ensures forall i | 0 <= i < |replies| ::
              Mirrors(tests, ms[from[i]], replies[i]) && ms[from[i]].shouldBoot(replies[i][28..34])
    ensures forall n | 0 <= n < |ms| :: Wanted(tests, ms[n]) <==> n in from
  {
    replies, from := [], [];
    var buf := new byte[RECEIVE_BUFFER](_ => 0);
    for i := 0 to |ms|
      invariant CollectedTo(ms, Answering(tests), i, replies, from)
    {
      var reply := HandleDatagram(buf, tests, ms[i]);
      CollectOne(ms, Answering(tests), i, replies, from, reply);
      if reply.Some? {
        replies, from := replies + [reply.value], from + [i];
      }
    }
    CollectAll(ms, Answering(tests), replies, from);
    WantedOnly(tests, ms, replies, from);
  }

  lemma WantedOnly(tests: seq<IPv4 -> bool>, ms: seq<Incoming>, replies: seq<bytes>, from: seq<nat>)
    requires Keeps(ms, Answering(tests), replies, from)
    ensures forall i | 0 <= i < |replies| :: Mirrors(tests, ms[from[i]], replies[i])
    ensures forall n | 0 <= n < |ms| :: Wanted(tests, ms[n]) <==> n in from
  {
    forall i | 0 <= i < |replies| ensures Mirrors(tests, ms[from[i]], replies[i]) {
      AnswerMirrorsRequest(tests, ms[from[i]]);
    }
    forall n | 0 <= n < |ms| ensures Wanted(tests, ms[n]) <==> n in from {
      OfferedExactly(tests, ms[n]);
    }
  }
}
