/** The PXE boot server: it answers a client that has chosen a menu entry, mirrors that choice, and
    points its boot loader to the HTTP server. */
module Pxe {
  import opened Bytes
  import opened Decimal
  import opened DhcpOptions
  import opened Bootp
  import opened Selecting
  import opened Text
  import Dhcp

  type IPv4 = Dhcp.IPv4

  // ---- Requests --------------------------------------------------------------------------

  datatype Selection = Selection(tid: bytes, mac: bytes, guid: bytes, clientIP: bytes, bootType: bytes)

  /** The first boot-item option (71) among some options. */
  function FirstOf(opts: seq<Opt>): Option<bytes> {
    var items := ValuesOf(opts, 71);
    if items == [] then None else Some(items[0])
  }

  /** The first boot item of a vendor option, if it has one. */
  function FirstItem(vendor: bytes): Option<bytes> {
    FirstOf(Decode(vendor))
  }

  /** The first boot item of every vendor option that has one, in order. */
  function Choices(vendor: seq<bytes>): seq<bytes> {
    if vendor == [] then []
    else
      var before, item := Choices(vendor[..|vendor| - 1]), FirstItem(vendor[|vendor| - 1]);
      if item.None? then before else before + [item.value]
  }

  predicate UuidOk(o: Opt) {
    o.typ == 97 ==> |o.val| == 17 && o.val[0] == 0
  }

  predicate OptionsOk(opts: seq<Opt>) {
    && (forall o <- opts :: UuidOk(o))
    && ValuesOf(opts, 97) != []
    && Choices(ValuesOf(opts, 43)) != []
  }

  function Guid(opts: seq<Opt>): (g: bytes)
    requires OptionsOk(opts)
    ensures |g| == 16
  {
    ValuesOfMember(opts, 97, Dhcp.Last(ValuesOf(opts, 97)));
    Dhcp.Last(ValuesOf(opts, 97))[1..]
  }

  function BootType(opts: seq<Opt>): bytes
    requires OptionsOk(opts)
  {
    Dhcp.Last(Choices(ValuesOf(opts, 43)))
  }

  /** Only the magic number of the fixed part is looked at. */
  predicate Accepts(b: bytes) {
    240 <= |b| && b[236..240] == Dhcp.MAGIC && OptionsOk(Decode(b[240..]))
  }

  /** The UUID is that of the last option 97, the boot type the first item of the last vendor
      option that has one. */
  function Meaning(b: bytes): Selection
    requires Accepts(b)
  {
    var opts := Decode(b[240..]);
    Selection(b[4..8], b[28..34], Guid(opts), b[12..16], BootType(opts))
  }

  // ---- What is accepted, and what it means -----------------------------------------------------

  /** Option `i` is a vendor option whose item `k` is a boot item, the first in it. */
  ghost predicate Chooses(opts: seq<Opt>, i: nat, k: nat, choice: bytes) {
    && i < |opts| && opts[i].typ == 43
    && var items := Decode(opts[i].val);
       k < |items| && items[k] == Opt(71, choice) && forall l | 0 <= l < k :: items[l].typ != 71
  }

  ghost predicate Item(o: Opt) {
    o.typ == 43 && exists item <- Decode(o.val) :: item.typ == 71
  }

  /** Every UUID is well-formed, there is one, and there is a boot item. */
  ghost predicate Selects(opts: seq<Opt>) {
    && (forall o <- opts :: o.typ == 97 ==> |o.val| == 17 && o.val[0] == 0)
    && (exists o <- opts :: o.typ == 97)
    && (exists o <- opts :: Item(o))
  }

  lemma FirstItemExactly(vendor: bytes)
    ensures FirstItem(vendor).Some? <==> exists item <- Decode(vendor) :: item.typ == 71
  {
    Dhcp.HasValue(Decode(vendor), 71);
  }

  /** One more option: if it has a boot item, its first one is the choice that counts. */
  lemma ChoicesMore(front: seq<Opt>, last: Opt)
    ensures var before, after := Choices(ValuesOf(front, 43)), Choices(ValuesOf(front + [last], 43));
            if Item(last) then FirstItem(last.val).Some? && after == before + [FirstItem(last.val).value]
            else after == before
  {
    ValuesOfSnoc(front, last, 43);
    if last.typ == 43 {
      ChoicesSnoc(ValuesOf(front, 43), last.val);
      FirstItemExactly(last.val);
    } else {
      assert ValuesOf(front + [last], 43) == ValuesOf(front, 43);
    }
  }

  lemma {:induction false} ChoicesSome(opts: seq<Opt>)
    ensures Choices(ValuesOf(opts, 43)) != [] <==> exists o <- opts :: Item(o)
  {
    if opts != [] {
      var front, last := opts[..|opts| - 1], opts[|opts| - 1];
      assert opts == front + [last];
      ChoicesSome(front);
      ChoicesMore(front, last);
      if o :| o in front && Item(o) {
        assert o in opts;
      }
      if Item(last) {
        assert last in opts;
      }
    }
  }

  /** The choice counted is the first boot item of the last vendor option that has one. */
  lemma {:induction false} ChoiceCounted(opts: seq<Opt>) returns (i: nat, k: nat)
    requires Choices(ValuesOf(opts, 43)) != []
    ensures Chooses(opts, i, k, Dhcp.Last(Choices(ValuesOf(opts, 43))))
    ensures forall l | i < l < |opts| :: !Item(opts[l])
  {
    var n := |opts| - 1;
    var front, last := opts[..n], opts[n];
    assert opts == front + [last];
    ChoicesMore(front, last);
    if Item(last) {
      i := n;
      k := FirstValue(Decode(last.val), 71);
    } else {
      i, k := ChoiceCounted(front);
    }
  }

  /** Which packets are taken for requests, byte by byte. */
  lemma AcceptsExactly(b: bytes)
    ensures Accepts(b) <==>
            && 240 <= |b| && b[236] == 99 && b[237] == 130 && b[238] == 83 && b[239] == 99
            && exists opts: seq<Opt>, rest: bytes :: Holds(b[240..], opts, rest) && Selects(opts)
  {
    if 240 <= |b| {
      assert b[236..240] == [b[236], b[237], b[238], b[239]];
      var opts := Decode(b[240..]);
      HoldsExactly(b[240..], opts);
      SelectsExactly(opts);
      if opts': seq<Opt>, rest: bytes :| Holds(b[240..], opts', rest) && Selects(opts') {
        HoldsExactly(b[240..], opts');
      }
    }
  }

  lemma SelectsExactly(opts: seq<Opt>)
    ensures OptionsOk(opts) <==> Selects(opts)
  {
    Dhcp.HasValue(opts, 97);
    ChoicesSome(opts);
  }

  /** What an accepted request means: the transaction, hardware and client address at their places in
      the fixed part, the last UUID, and the first boot item of the last vendor option that has one. */
  lemma MeaningExactly(b: bytes) returns (u: nat, i: nat, k: nat)
    requires Accepts(b)
    ensures var opts, s := Decode(b[240..]), Meaning(b);
            && s.tid == b[4..8] && s.mac == b[28..34] && s.clientIP == b[12..16]
            && u < |opts| && opts[u] == Opt(97, [0] + s.guid) && (forall l | u < l < |opts| :: opts[l].typ != 97)
            && Chooses(opts, i, k, s.bootType) && (forall l | i < l < |opts| :: !Item(opts[l]))
  {
    var opts := Decode(b[240..]);
    u := LastValue(opts, 97);
    assert UuidOk(opts[u]);
    assert opts[u].val == [opts[u].val[0]] + opts[u].val[1..];
    i, k := ChoiceCounted(opts);
  }

  // ---- The parser ---------------------------------------------------------------------------

  datatype SelectionSlices = SelectionSlices(tid: Slice, mac: Slice, guid: Slice, clientIP: Slice, bootType: Slice)

  predicate SlicesIn(s: SelectionSlices, buf: array<byte>) {
    In(s.tid, buf) && In(s.mac, buf) && In(s.guid, buf) && In(s.clientIP, buf) && In(s.bootType, buf)
  }

  function ViewSelection(buf: array<byte>, s: SelectionSlices): Selection
    requires SlicesIn(s, buf)
    reads buf
  {
    Selection(View(buf, s.tid), View(buf, s.mac), View(buf, s.guid), View(buf, s.clientIP), View(buf, s.bootType))
  }

  /** The inner loop: stops at the first boot item of a vendor option. */
  method FindItem(buf: array<byte>, vendor: Slice) returns (item: Option<Slice>)
    requires In(vendor, buf)
    ensures item.Some? ==> In(item.value, buf)
    ensures Dhcp.ViewOption(buf, item) == FirstItem(View(buf, vendor))
  {
    ghost var all := Decode(View(buf, vendor));
    var w := WalkSlice(buf, vendor);
    var typ, val, next := w.typ, w.val, w.next;
    while typ != END
      invariant In(val, buf) && In(next, buf)
      invariant FirstOf(all) == FirstOf(Dhcp.Pending(typ, View(buf, val), View(buf, next)))
      decreases typ != END, next.hi - next.lo
    {
      if typ == 71 {
        return Some(val);
      }
      w := WalkSlice(buf, next);
      typ, val, next := w.typ, w.val, w.next;
    }
    item := None;
  }

  /** What the options taken so far amount to. */
  ghost predicate Seen(taken: seq<Opt>, guid: Option<bytes>, boot: Option<bytes>) {
    (forall o <- taken :: UuidOk(o)) && SeenGuid(ValuesOf(taken, 97), guid) && SeenBoot(ValuesOf(taken, 43), boot)
  }

  ghost predicate SeenGuid(uuids: seq<bytes>, guid: Option<bytes>) {
    if uuids == [] then guid == None
    else var v := Dhcp.Last(uuids); 0 < |v| && guid == Some(v[1..])
  }

  ghost predicate SeenBoot(vendor: seq<bytes>, boot: Option<bytes>) {
    if Choices(vendor) == [] then boot == None else boot == Some(Dhcp.Last(Choices(vendor)))
  }

  lemma ChoicesSnoc(vendor: seq<bytes>, v: bytes)
    ensures Choices(vendor + [v]) ==
            if FirstItem(v).None? then Choices(vendor) else Choices(vendor) + [FirstItem(v).value]
  {
    assert (vendor + [v])[..|vendor|] == vendor;
  }

  lemma SeenBootOne(vendor: seq<bytes>, boot: Option<bytes>, v: bytes)
    requires SeenBoot(vendor, boot)
    ensures SeenBoot(vendor + [v], if FirstItem(v).Some? then FirstItem(v) else boot)
  {
    ChoicesSnoc(vendor, v);
  }

  lemma SeenUuid(taken: seq<Opt>, guid: Option<bytes>, boot: Option<bytes>, o: Opt)
    requires Seen(taken, guid, boot) && UuidOk(o) && o.typ != 43
    ensures Seen(taken + [o], if o.typ == 97 then Some(o.val[1..]) else guid, boot)
  {
    ValuesOfSnoc(taken, o, 97);
    ValuesOfSnoc(taken, o, 43);
    assert ValuesOf(taken, 43) + [] == ValuesOf(taken, 43);
  }

  lemma SeenVendor(taken: seq<Opt>, guid: Option<bytes>, boot: Option<bytes>, o: Opt)
    requires Seen(taken, guid, boot) && o.typ == 43
    ensures Seen(taken + [o], guid, if FirstItem(o.val).Some? then FirstItem(o.val) else boot)
  {
    ValuesOfSnoc(taken, o, 97);
    ValuesOfSnoc(taken, o, 43);
    assert ValuesOf(taken, 97) + [] == ValuesOf(taken, 97);
    SeenBootOne(ValuesOf(taken, 43), boot, o.val);
  }

  lemma SeenAll(opts: seq<Opt>, guid: Option<bytes>, boot: Option<bytes>)
    requires Seen(opts, guid, boot)
    ensures guid.Some? && boot.Some? <==> OptionsOk(opts)
    ensures guid.Some? && boot.Some? ==> guid.value == Guid(opts) && boot.value == BootType(opts)
  {
  }

  lemma BadUuid(taken: seq<Opt>, o: Opt, next: bytes)
    requires !UuidOk(o)
    ensures !OptionsOk(taken + ([o] + Decode(next)))
  {
    assert o in taken + ([o] + Decode(next));
  }

  /** One round of the outer loop: what an option changes, unless it is a malformed UUID. */
  method TakeOption(buf: array<byte>, typ: byte, val: Slice, guid: Option<Slice>, boot: Option<Slice>, ghost taken: seq<Opt>)
    returns (ok: bool, guid': Option<Slice>, boot': Option<Slice>)
    requires In(val, buf) && (guid.Some? ==> In(guid.value, buf)) && (boot.Some? ==> In(boot.value, buf))
    requires Seen(taken, Dhcp.ViewOption(buf, guid), Dhcp.ViewOption(buf, boot))
    ensures guid'.Some? ==> In(guid'.value, buf)
    ensures boot'.Some? ==> In(boot'.value, buf)
    ensures ok <==> UuidOk(Opt(typ, View(buf, val)))
    ensures ok ==> Seen(taken + [Opt(typ, View(buf, val))], Dhcp.ViewOption(buf, guid'), Dhcp.ViewOption(buf, boot'))
  {
    ok, guid', boot' := true, guid, boot;
    ghost var o := Opt(typ, View(buf, val));
    if typ == 43 {
      SeenVendor(taken, Dhcp.ViewOption(buf, guid), Dhcp.ViewOption(buf, boot), o);
      var item := FindItem(buf, val);
      if item.Some? {
        boot' := item;
      }
    } else if typ == 97 && (val.hi - val.lo != 17 || buf[val.lo] != 0) {
      ok := false;
    } else {
      SeenUuid(taken, Dhcp.ViewOption(buf, guid), Dhcp.ViewOption(buf, boot), o);
      if typ == 97 {
        guid' := Some(Dhcp.Tail(buf, val));
      }
    }
  }

  /** The outer loop. */
  method ParseOptions(buf: array<byte>, area: Slice) returns (guid: Option<Slice>, boot: Option<Slice>)
    requires In(area, buf)
    ensures guid.Some? ==> In(guid.value, buf)
    ensures boot.Some? ==> In(boot.value, buf)
    ensures guid.Some? && boot.Some? <==> OptionsOk(Decode(View(buf, area)))
    ensures guid.Some? && boot.Some? ==>
              && View(buf, guid.value) == Guid(Decode(View(buf, area)))
              && View(buf, boot.value) == BootType(Decode(View(buf, area)))
  {
    guid, boot := None, None;
    ghost var all := Decode(View(buf, area));
    ghost var taken: seq<Opt> := [];
    var w := WalkSlice(buf, area);
    var typ, val, next := w.typ, w.val, w.next;
    while typ != END
      invariant In(val, buf) && In(next, buf)
      invariant guid.Some? ==> In(guid.value, buf)
      invariant boot.Some? ==> In(boot.value, buf)
      invariant all == taken + Dhcp.Pending(typ, View(buf, val), View(buf, next))
      invariant Seen(taken, Dhcp.ViewOption(buf, guid), Dhcp.ViewOption(buf, boot))
      decreases typ != END, next.hi - next.lo
    {
      ghost var o := Opt(typ, View(buf, val));
      var ok, guid', boot' := TakeOption(buf, typ, val, guid, boot, taken);
      if !ok {
        BadUuid(taken, o, View(buf, next));
        return None, None;
      }
      guid, boot := guid', boot';
      w := WalkSlice(buf, next);
      Dhcp.TakeOption(taken, typ, View(buf, val), View(buf, next), DhcpOption(View(buf, next)));
      taken := taken + [o];
      typ, val, next := w.typ, w.val, w.next;
    }
    assert all == taken;
    SeenAll(taken, Dhcp.ViewOption(buf, guid), Dhcp.ViewOption(buf, boot));
  }

  method ParsePXE(buf: array<byte>, n: nat) returns (r: Option<SelectionSlices>)
    requires n <= buf.Length
    ensures r.Some? <==> Accepts(buf[..n])
    ensures r.Some? ==> SlicesIn(r.value, buf) && ViewSelection(buf, r.value) == Meaning(buf[..n])
  {
    if n < 240 {
      return None;
    }
    SliceOfSlice(buf[..], 0, n, 236, 240);
    if buf[236..240] != Dhcp.MAGIC {
      return None;
    }
    var guid, boot := ParseOptions(buf, Slice(240, n));
    SliceOfSlice(buf[..], 0, n, 240, n);
    SliceOfSlice(buf[..], 0, n, 4, 8);
    SliceOfSlice(buf[..], 0, n, 28, 34);
    SliceOfSlice(buf[..], 0, n, 12, 16);
    r := if guid.None? || boot.None? then None
         else Some(SelectionSlices(Slice(4, 8), Slice(28, 34), guid.value, Slice(12, 16), boot.value));
  }

  // ---- Replies ---------------------------------------------------------------------------------

  predicate Proper(s: Selection) {
    |s.tid| == 4 && |s.mac| == 6 && |s.guid| == 16 && |s.clientIP| == 4
  }

  /** The fixed part: the client's address becomes "your address", the boot file has a name. */
  function ReplyHeaderBytes(s: Selection, ip: IPv4): bytes {
    [2, 1, 6, 0] + s.tid + [0, 0, 128, 0] + Zeros(4) + s.clientIP + ip + Zeros(4) + s.mac
    + Zeros(74) + Ascii("boot") + Zeros(124)
  }

  /** The options a reply is meant to carry, ending with the vendor option that mirrors the choice,
      the path prefix and the reboot time. */
  function ReplyOptions(s: Selection, ip: IPv4, prefix: bytes): seq<Opt> {
    Identity(s, ip) + ([Opt(43, Mirror(s.bootType))] + ([Opt(210, prefix)] + [Opt(211, [0, 0, 0, 5])]))
  }

  function Identity(s: Selection, ip: IPv4): seq<Opt> {
    [Opt(53, [5])] + ([Opt(54, ip)] + ([Opt(60, Ascii("PXEClient"))] + [Opt(97, [0] + s.guid)]))
  }

  function Mirror(bootType: bytes): bytes {
    [71, |bootType| % 256] + bootType + [END]
  }

  /** The option area as the code writes it, with the lengths of its options written by hand. */
  function IdentityBytes(s: Selection, ip: IPv4): bytes {
    [53, 1, 5] + ([54, 4] + ip) + ([60, 9] + Ascii("PXEClient")) + ([97, 17, 0] + s.guid)
  }

  function PathBytes(prefix: bytes): bytes {
    ([210, |prefix| % 256] + prefix) + [211, 4, 0, 0, 0, 5] + [END]
  }

  function AreaBytes(s: Selection, ip: IPv4, prefix: bytes): bytes {
    IdentityBytes(s, ip) + (VendorBytes(s.bootType) + PathBytes(prefix))
  }

  function Reply(s: Selection, ip: IPv4, prefix: bytes): bytes {
    ReplyHeaderBytes(s, ip) + Dhcp.MAGIC + AreaBytes(s, ip, prefix)
  }

  lemma IdentityEncoded(s: Selection, ip: IPv4)
    requires |s.guid| == 16
    ensures AllEncodable(Identity(s, ip)) && Encode(Identity(s, ip)) == IdentityBytes(s, ip)
  {
    var o1, o2, o3, o4 := Opt(53, [5]), Opt(54, ip), Opt(60, Ascii("PXEClient")), Opt(97, [0] + s.guid);
    EncodeLast(o4);
    EncodeCons(o3, [o4]);
    EncodeCons(o2, [o3] + [o4]);
    EncodeCons(o1, [o2] + ([o3] + [o4]));
    EncodeOneAfter1(97, 0, s.guid);
    Assoc4(EncodeOne(o1), EncodeOne(o2), EncodeOne(o3), EncodeOne(o4));
  }

  lemma PathDecodes(prefix: bytes)
    requires |prefix| < 256
    ensures Decode(PathBytes(prefix)) == [Opt(210, prefix)] + [Opt(211, [0, 0, 0, 5])]
  {
    var o1, o2 := Opt(210, prefix), Opt(211, [0, 0, 0, 5]);
    EncodeLast(o2);
    EncodeCons(o1, [o2]);
    assert |prefix| % 256 == |prefix|;
    assert EncodeOne(o1) == [210, |prefix| % 256] + prefix;
    assert EncodeOne(o2) == [211, 4, 0, 0, 0, 5];
    DecodeEncode([o1] + [o2], [END]);
  }

  function VendorBytes(bootType: bytes): bytes {
    [43, 7, 71, 4] + bootType + [END]
  }

  /** The hand-written 7 of the vendor option is what a walk believes, however long the choice is. */
  lemma VendorDecodes(bootType: bytes, prefix: bytes)
    ensures var opts := Decode(VendorBytes(bootType) + PathBytes(prefix));
            && opts != [] && (opts[0] == Opt(43, Mirror(bootType)) <==> |bootType| == 4)
            && (|bootType| == 4 ==> opts[1..] == Decode(PathBytes(prefix)))
  {
    if |bootType| == 4 {
      assert VendorBytes(bootType) == EncodeOne(Opt(43, Mirror(bootType)));
      WalkOne(Opt(43, Mirror(bootType)), PathBytes(prefix));
    } else {
      var w := DhcpOption(VendorBytes(bootType) + PathBytes(prefix));
      assert w.typ == 43 && |w.val| == 7;
    }
  }

  lemma LongNeverDecodes(area: bytes, o: Opt)
    requires 256 <= |o.val|
    ensures o !in Decode(area)
  {
    var stop := DecodeSound(area);
  }

  /** A reply carries the options it is meant to carry exactly when the client's choice has four
      bytes and the prefix fits in its length byte. */
  lemma ReplyMeantExactly(s: Selection, ip: IPv4, prefix: bytes)
    requires |s.guid| == 16
    ensures Decode(AreaBytes(s, ip, prefix)) == ReplyOptions(s, ip, prefix) <==>
            |s.bootType| == 4 && |prefix| < 256
  {
    var rest := VendorBytes(s.bootType) + PathBytes(prefix);
    var tail := [Opt(210, prefix)] + [Opt(211, [0, 0, 0, 5])];
    var meant := [Opt(43, Mirror(s.bootType))] + tail;
    IdentityEncoded(s, ip);
    DecodeAppend(Identity(s, ip), rest);
    SamePrefix(Identity(s, ip), Decode(rest), meant);
    VendorDecodes(s.bootType, prefix);
    if |prefix| < 256 {
      PathDecodes(prefix);
    } else {
      LongNeverDecodes(rest, Opt(210, prefix));
      assert meant[1] == Opt(210, prefix);
    }
    assert meant[0] == Opt(43, Mirror(s.bootType)) && meant[1..] == tail;
    assert Decode(rest) == [Decode(rest)[0]] + Decode(rest)[1..];
  }

  /** Whatever the choice and the prefix, a reply starts with the options that identify it. */
  lemma ReplyIdentifies(s: Selection, ip: IPv4, prefix: bytes)
    requires |s.guid| == 16
    ensures Identity(s, ip) <= Decode(AreaBytes(s, ip, prefix))
  {
    IdentityEncoded(s, ip);
    DecodeAppend(Identity(s, ip), VendorBytes(s.bootType) + PathBytes(prefix));
  }

  lemma SamePrefix(front: seq<Opt>, a: seq<Opt>, b: seq<Opt>)
    ensures front + a == front + b <==> a == b
  {
    assert (front + a)[|front|..] == a && (front + b)[|front|..] == b;
  }

  lemma ReplyValues(s: Selection, ip: IPv4, prefix: bytes)
    ensures ReplySays(ReplyOptions(s, ip, prefix), s, ip, prefix)
  {
    var o1, o2, o3, o4 := Opt(53, [5]), Opt(54, ip), Opt(60, Ascii("PXEClient")), Opt(97, [0] + s.guid);
    var o5, o6, o7 := Opt(43, Mirror(s.bootType)), Opt(210, prefix), Opt(211, [0, 0, 0, 5]);
    forall typ: byte ensures ValuesOf(ReplyOptions(s, ip, prefix), typ) ==
        Dhcp.ValueIf(o1, typ) + Dhcp.ValueIf(o2, typ) + Dhcp.ValueIf(o3, typ)
        + (Dhcp.ValueIf(o4, typ) + Dhcp.ValueIf(o5, typ) + Dhcp.ValueIf(o6, typ) + Dhcp.ValueIf(o7, typ)) {
      ReplyValuesOf(o1, o2, o3, o4, o5, o6, o7, typ);
      assert ReplyOptions(s, ip, prefix) == [o1] + ([o2] + ([o3] + ([o4] + ([o5] + ([o6] + [o7])))));
    }
  }

  lemma ReplyValuesOf(o1: Opt, o2: Opt, o3: Opt, o4: Opt, o5: Opt, o6: Opt, o7: Opt, typ: byte)
    ensures ValuesOf([o1] + ([o2] + ([o3] + ([o4] + ([o5] + ([o6] + [o7]))))), typ) ==
            Dhcp.ValueIf(o1, typ) + Dhcp.ValueIf(o2, typ) + Dhcp.ValueIf(o3, typ)
            + (Dhcp.ValueIf(o4, typ) + Dhcp.ValueIf(o5, typ) + Dhcp.ValueIf(o6, typ) + Dhcp.ValueIf(o7, typ))
  {
    var rest := [o4] + ([o5] + ([o6] + [o7]));
    Dhcp.ValuesOf4(o4, o5, o6, o7, typ);
    ValuesOfCons(o3, rest, typ);
    ValuesOfCons(o2, [o3] + rest, typ);
    ValuesOfCons(o1, [o2] + ([o3] + rest), typ);
  }

  /** What a PXE client reads in a reply, number by number: a DHCPACK from the server's address, for PXE
      clients, with its UUID and its choice, a path prefix, and five seconds until a reboot. */
  ghost predicate ReplySays(opts: seq<Opt>, s: Selection, ip: IPv4, prefix: bytes) {
    && |opts| == 7
    && ValuesOf(opts, 53) == [[5]] && ValuesOf(opts, 54) == [ip] && ValuesOf(opts, 60) == [Ascii("PXEClient")]
    && ValuesOf(opts, 97) == [[0] + s.guid] && ValuesOf(opts, 43) == [[71, |s.bootType| % 256] + s.bootType + [255]]
    && ValuesOf(opts, 210) == [prefix] && ValuesOf(opts, 211) == [[0, 0, 0, 5]]
  }

  lemma ValuesTwice(opts: seq<Opt>, o: Opt)
    ensures ValuesOf(opts + [o], 97) == ValuesOf(opts, 97) + if o.typ == 97 then [o.val] else []
    ensures ValuesOf(opts + [o], 43) == ValuesOf(opts, 43) + if o.typ == 43 then [o.val] else []
  {
    ValuesOfSnoc(opts, o, 97);
    ValuesOfSnoc(opts, o, 43);
  }

  lemma MirrorItem(bootType: bytes)
    requires |bootType| < 256
    ensures ValuesOf(Decode(Mirror(bootType)), 71) == [bootType]
  {
    var o := Opt(71, bootType);
    EncodeLast(o);
    DecodeEncode([o], [END]);
    ValuesOfSnoc([], o, 71);
    assert [] + [o] == [o];
  }

  /** Parsing a reply gives back the transaction, hardware address, UUID and choice it was made for. */
  lemma ParseReply(s: Selection, ip: IPv4, prefix: bytes)
    requires Proper(s) && |s.bootType| == 4 && |prefix| < 256
    ensures var reply := Reply(s, ip, prefix);
            Accepts(reply) && Meaning(reply) == s.(clientIP := [0, 0, 0, 0])
  {
    var reply, opts := Reply(s, ip, prefix), ReplyOptions(s, ip, prefix);
    HeaderFields(s, ip, Dhcp.MAGIC, AreaBytes(s, ip, prefix));
    ReplyMeantExactly(s, ip, prefix);
    ReplyValues(s, ip, prefix);
    MirrorItem(s.bootType);
    ChoicesSnoc([], Mirror(s.bootType));
    assert [] + [Mirror(s.bootType)] == [Mirror(s.bootType)];
    forall o <- opts ensures UuidOk(o) {
      if o.typ == 97 {
        ValuesOfMember(opts, 97, o.val);
      }
    }
  }

  lemma HeaderFields(s: Selection, ip: IPv4, magic: bytes, area: bytes)
    requires Proper(s) && |magic| == 4
    ensures var reply := ReplyHeaderBytes(s, ip) + magic + area;
            && |reply| == 240 + |area| && reply[236..240] == magic && reply[240..] == area
            && reply[4..8] == s.tid && reply[12..16] == [0, 0, 0, 0] && reply[16..20] == s.clientIP
            && reply[20..24] == ip && reply[28..34] == s.mac && reply[108..112] == Ascii("boot")
            && forall i | 0 <= i < 236 && Fixed(i) :: Dhcp.Blank(reply, i)
  {
    var h := ReplyHeaderBytes(s, ip);
    var reply := h + magic + area;
    assert |h| == 236;
    assert reply[236..240] == magic && reply[240..] == area;
    assert h[4..8] == s.tid;
    assert h[12..16] == [0, 0, 0, 0];
    assert h[16..20] == s.clientIP;
    assert h[20..24] == ip;
    assert h[28..34] == s.mac;
    assert h[108..112] == Ascii("boot");
    HeaderBlank(s, ip);
    forall i | 0 <= i < 236 && Fixed(i) ensures Dhcp.Blank(reply, i) {
      assert reply[i] == h[i] && Dhcp.Blank(h, i);
    }
    HeaderSlice(h, magic + area, 108, 112);
    HeaderSlice(h, magic + area, 4, 8);
    HeaderSlice(h, magic + area, 12, 16);
    HeaderSlice(h, magic + area, 16, 20);
    HeaderSlice(h, magic + area, 20, 24);
    HeaderSlice(h, magic + area, 28, 34);
    assert reply == h + (magic + area);
  }

  /** The places of a reply's fixed part that hold nothing of this request. */
  predicate Fixed(i: nat) {
    !(4 <= i < 8) && !(16 <= i < 24) && !(28 <= i < 34) && !(108 <= i < 112)
  }

  lemma HeaderBlank(s: Selection, ip: IPv4)
    requires Proper(s)
    ensures var h := ReplyHeaderBytes(s, ip);
            |h| == 236 && forall i | 0 <= i < 236 && Fixed(i) :: Dhcp.Blank(h, i)
  {
  }

  lemma HeaderSlice(h: bytes, rest: bytes, lo: nat, hi: nat)
    requires lo <= hi <= |h|
    ensures (h + rest)[lo..hi] == h[lo..hi]
  {
  }

  /** A request that names `bootType` as its choice, without an end mark in its vendor option. */
  function RequestFor(bootType: bytes): bytes
    requires |bootType| <= 253
  {
    var opts := [Opt(97, Zeros(17)), Opt(43, EncodeOne(Opt(71, bootType)))];
    Zeros(236) + Dhcp.MAGIC + (Encode(opts) + [END])
  }

  lemma PairValues(uuid: bytes, vendor: bytes)
    ensures var opts := [Opt(97, uuid), Opt(43, vendor)];
            ValuesOf(opts, 97) == [uuid] && ValuesOf(opts, 43) == [vendor]
  {
    ValuesTwice([], Opt(97, uuid));
    ValuesTwice([Opt(97, uuid)], Opt(43, vendor));
    assert [] + [Opt(97, uuid)] == [Opt(97, uuid)];
    assert [Opt(97, uuid)] + [Opt(43, vendor)] == [Opt(97, uuid), Opt(43, vendor)];
  }

  lemma BareItem(bootType: bytes)
    requires |bootType| <= 253
    ensures ValuesOf(Decode(EncodeOne(Opt(71, bootType))), 71) == [bootType]
  {
    var o := Opt(71, bootType);
    EncodeLast(o);
    DecodeEncode([o], []);
    assert Encode([o]) + [] == EncodeOne(o);
    ValuesOfSnoc([], o, 71);
    assert [] + [o] == [o];
  }

  lemma AnyChoiceAccepted(bootType: bytes)
    requires |bootType| <= 253
    ensures Accepts(RequestFor(bootType)) && Meaning(RequestFor(bootType)).bootType == bootType
  {
    var o1, o2 := Opt(97, Zeros(17)), Opt(43, EncodeOne(Opt(71, bootType)));
    var opts := [o1, o2];
    PacketParts(Zeros(236), Dhcp.MAGIC, Encode(opts) + [END]);
    DecodeEncode(opts, [END]);
    PairValues(o1.val, o2.val);
    BareItem(bootType);
    ChoicesSnoc([], o2.val);
    assert [] + [o2.val] == [o2.val];
  }

  /** An option takes two bytes more than its value. */
  lemma {:induction false} OptionFits(b: bytes, o: Opt)
    requires o in Decode(b)
    ensures |o.val| + 2 <= |b|
    decreases |b|
  {
    var w := DhcpOption(b);
    if o != Opt(w.typ, w.val) {
      OptionFits(w.next, o);
    }
  }

  lemma {:induction false} ChoiceFits(vendor: seq<bytes>, choice: bytes)
    requires (forall v <- vendor :: |v| < 256) && choice in Choices(vendor)
    ensures |choice| <= 253
  {
    var last, front := vendor[|vendor| - 1], vendor[..|vendor| - 1];
    if choice in Choices(front) {
      ChoiceFits(front, choice);
    } else {
      assert last in vendor;
      ValuesOfMember(Decode(last), 71, choice);
      OptionFits(last, Opt(71, choice));
    }
  }

  /** The choices that accepted requests can name are exactly those of at most 253 bytes, though only
      those of four are mirrored as they should be. */
  lemma ChoicesExactly(bootType: bytes)
    ensures (exists b :: Accepts(b) && Meaning(b).bootType == bootType) <==> |bootType| <= 253
  {
    if |bootType| <= 253 {
      AnyChoiceAccepted(bootType);
    }
    if b :| Accepts(b) && Meaning(b).bootType == bootType {
      var opts := Decode(b[240..]);
      var stop := DecodeSound(b[240..]);
      forall v <- ValuesOf(opts, 43) ensures |v| < 256 {
        ValuesOfMember(opts, 43, v);
      }
      ChoiceFits(ValuesOf(opts, 43), bootType);
    }
  }

  method FillHeader(tid: bytes, mac: bytes, clientIP: bytes, ip: IPv4) returns (bootp: array<byte>)
    ensures fresh(bootp)
    ensures |tid| == 4 && |mac| == 6 && |clientIP| == 4 ==>
              bootp[..] == ReplyHeaderBytes(Selection(tid, mac, [], clientIP, []), ip)
  {
    bootp := ReplyHeader();
    CopyAt(bootp, 4, tid);
    CopyAt(bootp, 16, clientIP);
    CopyAt(bootp, 20, ip);
    CopyAt(bootp, 28, mac);
    CopyAt(bootp, 108, Ascii("boot"));
    if |tid| == 4 && |mac| == 6 && |clientIP| == 4 {
      HeaderFilled(tid, mac, clientIP, ip);
    }
  }

  /** The five copies over the blank header, one after the other. */
  lemma HeaderFilled(tid: bytes, mac: bytes, clientIP: bytes, ip: IPv4)
    requires |tid| == 4 && |mac| == 6 && |clientIP| == 4
    ensures var h0 := [2, 1, 6, 0] + Zeros(4) + [0, 0, 128, 0] + Zeros(224);
            Overlay(Overlay(Overlay(Overlay(Overlay(h0, 4, tid), 16, clientIP), 20, ip), 28, mac), 108, Ascii("boot"))
            == ReplyHeaderBytes(Selection(tid, mac, [], clientIP, []), ip)
  {
    var front: bytes := [2, 1, 6, 0];
    var flags: bytes := [0, 0, 128, 0];
    var h0 := front + Zeros(4) + flags + Zeros(224);
    assert h0 == front + Zeros(4) + (flags + Zeros(224));
    OverlayPart(front, Zeros(4), flags + Zeros(224), tid);
    var b1 := front + tid + flags + Zeros(4);
    assert front + tid + (flags + Zeros(224)) == b1 + Zeros(4) + Zeros(216);
    OverlayPart(b1, Zeros(4), Zeros(216), clientIP);
    var b2 := b1 + clientIP;
    assert b1 + clientIP + Zeros(216) == b2 + Zeros(4) + Zeros(212);
    OverlayPart(b2, Zeros(4), Zeros(212), ip);
    var b3 := b2 + ip + Zeros(4);
    assert b2 + ip + Zeros(212) == b3 + Zeros(6) + Zeros(202);
    OverlayPart(b3, Zeros(6), Zeros(202), mac);
    var b4 := b3 + mac + Zeros(74);
    assert b3 + mac + Zeros(202) == b4 + Zeros(4) + Zeros(124);
    OverlayPart(b4, Zeros(4), Zeros(124), Ascii("boot"));
  }

  /** The reply as the server builds it, from slices of its receive buffer. */
  method ReplyPXE(buf: array<byte>, s: SelectionSlices, ip: IPv4, prefix: bytes) returns (b: bytes)
    requires SlicesIn(s, buf)
    ensures Proper(ViewSelection(buf, s)) ==> b == Reply(ViewSelection(buf, s), ip, prefix)
  {
    var bootp := FillHeader(buf[s.tid.lo..s.tid.hi], buf[s.mac.lo..s.mac.hi],
                            buf[s.clientIP.lo..s.clientIP.hi], ip);
    var opts: bytes := [53, 1, 5];
    opts := opts + ([54, 4] + ip);
    opts := opts + ([60, 9] + Ascii("PXEClient"));
    opts := opts + ([97, 17, 0] + buf[s.guid.lo..s.guid.hi]);
    var vendor: bytes := [43, 7, 71, 4] + buf[s.bootType.lo..s.bootType.hi] + [255];
    var path: bytes := [210, |prefix| % 256] + prefix;
    path := path + [211, 4, 0, 0, 0, 5] + [255];
    b := bootp[..] + Dhcp.MAGIC + (opts + (vendor + path));
  }

  // ---- The path prefix ------------------------------------------------------------------------

  function Dotted(ip: IPv4): bytes {
    Itoa(ip[0]) + [46] + Itoa(ip[1]) + [46] + Itoa(ip[2]) + [46] + Itoa(ip[3])
  }

  function HttpPrefix(ip: IPv4, port: int): bytes {
    Ascii("http://") + Dotted(ip) + [58] + Itoa(port) + [47]
  }

  /** The prefix the server builds always fits in its length byte. */
  lemma PrefixFits(ip: IPv4, port: int)
    requires -MAX_INT - 1 <= port <= MAX_INT
    ensures |HttpPrefix(ip, port)| <= 44
  {
    ItoaLength(ip[0]);
    ItoaLength(ip[1]);
    ItoaLength(ip[2]);
    ItoaLength(ip[3]);
    ItoaLength(port);
  }

  /** A prefix that leads to a port of an address: "http://", four numbers with dots between them, a
      colon, the port, a slash. */
  ghost predicate LeadsTo(prefix: bytes, ip: IPv4, port: int) {
    && 8 < |prefix| && prefix[..7] == Ascii("http://") && prefix[|prefix| - 1] == 47
    && var parts := Split(prefix[7..|prefix| - 1], 58);
    && |parts| == 2 && Atoi(parts[1]) == Some(port)
    && var numbers := Split(parts[0], 46);
       |numbers| == 4 && forall i | 0 <= i < 4 :: Atoi(numbers[i]) == Some(ip[i])
  }

  lemma ItoaAvoids(n: int, c: byte)
    requires c == 46 || c == 58
    ensures c !in Itoa(n)
  {
  }

  lemma DottedSplits(ip: IPv4)
    ensures Split(Dotted(ip), 46) == [Itoa(ip[0]), Itoa(ip[1]), Itoa(ip[2]), Itoa(ip[3])]
    ensures 58 !in Dotted(ip)
  {
    var a, b, c, d := Itoa(ip[0]), Itoa(ip[1]), Itoa(ip[2]), Itoa(ip[3]);
    forall i | 0 <= i < 4 ensures 46 !in Itoa(ip[i]) && 58 !in Itoa(ip[i]) {
      ItoaAvoids(ip[i], 46);
      ItoaAvoids(ip[i], 58);
    }
    assert Dotted(ip) == a + ([46] + (b + ([46] + (c + ([46] + d)))));
    SplitPiece(a, b + ([46] + (c + ([46] + d))), 46);
    SplitPiece(b, c + ([46] + d), 46);
    SplitPiece(c, d, 46);
    SplitWhole(d, 46);
  }

  lemma PrefixParts(host: bytes, port: bytes)
    requires 58 !in host && 58 !in port && port != []
    ensures var prefix := Ascii("http://") + host + [58] + port + [47];
            && 8 < |prefix| && prefix[..7] == Ascii("http://") && prefix[|prefix| - 1] == 47
            && Split(prefix[7..|prefix| - 1], 58) == [host, port]
  {
    var prefix := Ascii("http://") + host + [58] + port + [47];
    assert prefix[..7] == Ascii("http://");
    assert prefix[7..|prefix| - 1] == host + ([58] + port);
    SplitPiece(host, port, 58);
    SplitWhole(port, 58);
  }

  /** The prefix the server builds leads to the address and port it was built from. */
  lemma PrefixLeads(ip: IPv4, port: int)
    requires -MAX_INT - 1 <= port <= MAX_INT
    ensures LeadsTo(HttpPrefix(ip, port), ip, port)
  {
    DottedSplits(ip);
    ItoaAvoids(port, 58);
    PrefixParts(Dotted(ip), Itoa(port));
    AtoiItoa(port);
    AddressReads(ip);
  }

  lemma AddressReads(ip: IPv4)
    ensures forall i | 0 <= i < 4 :: Atoi([Itoa(ip[0]), Itoa(ip[1]), Itoa(ip[2]), Itoa(ip[3])][i]) == Some(ip[i])
  {
    AtoiItoa(ip[0]);
    AtoiItoa(ip[1]);
    AtoiItoa(ip[2]);
    AtoiItoa(ip[3]);
  }

  // ---- The receive loop ---------------------------------------------------------------------------

  /** The answer to one datagram, as a function of that datagram alone. */
  function Answer(tests: seq<IPv4 -> bool>, port: int, m: Dhcp.Incoming): Option<bytes> {
    if m.Broken? then None else AnswerTo(tests, port, Dhcp.Received(m.data), m.addrs)
  }

  function AnswerTo(tests: seq<IPv4 -> bool>, port: int, b: bytes, addrs: Option<seq<Dhcp.Address>>): Option<bytes> {
    var ip := Dhcp.Lookup(tests, addrs);
    if !Accepts(b) || ip.None? then None else Some(Reply(Meaning(b), ip.value, HttpPrefix(ip.value, port)))
  }

  function Answering(tests: seq<IPv4 -> bool>, port: int): Dhcp.Incoming -> Option<bytes> {
    (m: Dhcp.Incoming) => Answer(tests, port, m)
  }

  /** The answers to all datagrams that get one. */
  function Answers(tests: seq<IPv4 -> bool>, port: int, ms: seq<Dhcp.Incoming>): seq<bytes> {
    Collect(ms, Answering(tests, port))
  }

  /** The request is acceptable and there is an address to answer from. */
  ghost predicate Answerable(tests: seq<IPv4 -> bool>, m: Dhcp.Incoming) {
    m.Datagram? && Accepts(m.data[..Min(|m.data|, 1024)]) && Dhcp.Reachable(tests, m.addrs)
  }

  lemma AnsweredExactly(tests: seq<IPv4 -> bool>, port: int, m: Dhcp.Incoming)
    ensures Answer(tests, port, m).Some? <==> Answerable(tests, m)
  {
    if m.Datagram? {
      Dhcp.LookupExactly(tests, m.addrs);
    }
  }

  /** A reply names the transaction, hardware address and UUID of its request and hands the client its
      own address, in a fixed part that is otherwise blank but for the server's address and a file
      name.  If the choice has four bytes, it parses back to the same choice, and the client is led to
      the HTTP server at the address picked. */
  ghost predicate Mirrors(tests: seq<IPv4 -> bool>, port: int, m: Dhcp.Incoming, reply: bytes) {
    && m.Datagram? && var request := Dhcp.Received(m.data);
    && Accepts(request) && 240 < |reply| && m.addrs.Some? && Dhcp.PickIP(tests, m.addrs.value).Some?
    && var ip, opts := Dhcp.PickIP(tests, m.addrs.value).value, Decode(reply[240..]);
    && reply[4..8] == request[4..8] && reply[28..34] == request[28..34] && reply[16..20] == request[12..16]
    && reply[20..24] == ip && reply[108..112] == Ascii("boot") && reply[236..240] == [99, 130, 83, 99]
    && (forall i | 0 <= i < 236 && Fixed(i) :: Dhcp.Blank(reply, i))
    && Identity(Meaning(request), ip) <= opts
    && Opt(97, [0] + Guid(Decode(request[240..]))) in opts
    && (|Meaning(request).bootType| == 4 ==>
          && Accepts(reply) && Meaning(reply) == Meaning(request).(clientIP := [0, 0, 0, 0])
          && |ValuesOf(opts, 210)| == 1 && LeadsTo(ValuesOf(opts, 210)[0], ip, port)
          && ReplySays(opts, Meaning(request), ip, ValuesOf(opts, 210)[0]))
  }

  lemma AnswerMirrorsRequest(tests: seq<IPv4 -> bool>, port: int, m: Dhcp.Incoming)
    requires -MAX_INT - 1 <= port <= MAX_INT
    ensures Answer(tests, port, m).Some? ==> Mirrors(tests, port, m, Answer(tests, port, m).value)
  {
    if Answer(tests, port, m).None? {
      return;
    }
    var s, ip := Meaning(Dhcp.Received(m.data)), Dhcp.Lookup(tests, m.addrs).value;
    var prefix := HttpPrefix(ip, port);
    HeaderFields(s, ip, Dhcp.MAGIC, AreaBytes(s, ip, prefix));
    ReplyIdentifies(s, ip, prefix);
    assert Identity(s, ip)[3] == Opt(97, [0] + s.guid);
    if |s.bootType| == 4 {
      ReplyLeads(s, ip, port);
    }
  }

  lemma ReplyLeads(s: Selection, ip: IPv4, port: int)
    requires -MAX_INT - 1 <= port <= MAX_INT && Proper(s) && |s.bootType| == 4
    ensures var prefix := HttpPrefix(ip, port);
            var reply, opts := Reply(s, ip, prefix), Decode(AreaBytes(s, ip, prefix));
            && Accepts(reply) && Meaning(reply) == s.(clientIP := [0, 0, 0, 0])
            && LeadsTo(prefix, ip, port) && ReplySays(opts, s, ip, prefix)
  {
    var prefix := HttpPrefix(ip, port);
    PrefixFits(ip, port);
    PrefixLeads(ip, port);
    ParseReply(s, ip, prefix);
    ReplyMeantExactly(s, ip, prefix);
    ReplyValues(s, ip, prefix);
  }

  /** Parses the first `n` bytes of the buffer and answers them. */
  method Respond(buf: array<byte>, n: nat, tests: seq<IPv4 -> bool>, port: int, addrs: Option<seq<Dhcp.Address>>)
    returns (reply: Option<bytes>)
    requires n <= buf.Length
    ensures reply == AnswerTo(tests, port, buf[..n], addrs)
  {
    var req := ParsePXE(buf, n);
    if req.None? {
      return None;
    }
    if addrs.None? {
      return None;
    }
    var ip := Dhcp.InterfaceIP(tests, addrs.value);
    if ip.None? {
      return None;
    }
    var b := ReplyPXE(buf, req.value, ip.value, HttpPrefix(ip.value, port));
    reply := Some(b);
  }

  method HandleDatagram(buf: array<byte>, tests: seq<IPv4 -> bool>, port: int, m: Dhcp.Incoming)
    returns (reply: Option<bytes>)
    requires buf.Length == Dhcp.RECEIVE_BUFFER
    modifies buf
    ensures reply == Answer(tests, port, m)
  {
    if m.Broken? {
      return None;
    }
    var n := Min(|m.data|, Dhcp.RECEIVE_BUFFER);
    CopyAt(buf, 0, m.data);
    assert buf[..n] == Dhcp.Received(m.data);
    reply := Respond(buf, n, tests, port, m.addrs);
  }

  /** Reply `i` answers datagram `from[i]` as it should, and all datagrams that can be answered are. */
  ghost predicate Served(tests: seq<IPv4 -> bool>, port: int, ms: seq<Dhcp.Incoming>, replies: seq<bytes>, from: seq<nat>) {
    && |from| == |replies| && (forall i | 0 <= i < |from| :: from[i] < |ms|)
    && (-MAX_INT - 1 <= port <= MAX_INT ==> forall i | 0 <= i < |from| :: Mirrors(tests, port, ms[from[i]], replies[i]))
    && (forall n | 0 <= n < |ms| :: Answerable(tests, ms[n]) <==> n in from)
  }

  /** The server: one buffer for all requests, whose parts are slices of it; every reply is made
      from its own datagram alone, one for each that can be answered, in order. */
  method ServePXE(tests: seq<IPv4 -> bool>, port: int, ms: seq<Dhcp.Incoming>)
    returns (replies: seq<bytes>, ghost from: seq<nat>)
    ensures replies == Answers(tests, port, ms)
    ensures Keeps(ms, Answering(tests, port), replies, from)
    ensures Served(tests, port, ms, replies, from)
  {
    replies, from := [], [];
    var buf := new byte[Dhcp.RECEIVE_BUFFER](_ => 0);
    for i := 0 to |ms|
      invariant CollectedTo(ms, Answering(tests, port), i, replies, from)
    {
      var reply := HandleDatagram(buf, tests, port, ms[i]);
      CollectOne(ms, Answering(tests, port), i, replies, from, reply);
      if reply.Some? {
        replies, from := replies + [reply.value], from + [i];
      }
    }
    AllServed(tests, port, ms, replies, from);
  }

  lemma AllServed(tests: seq<IPv4 -> bool>, port: int, ms: seq<Dhcp.Incoming>, replies: seq<bytes>, from: seq<nat>)
    requires CollectedTo(ms, Answering(tests, port), |ms|, replies, from)
    ensures replies == Answers(tests, port, ms) && Keeps(ms, Answering(tests, port), replies, from)
    ensures Served(tests, port, ms, replies, from)
  {
    CollectAll(ms, Answering(tests, port), replies, from);
    AnswerableOnly(tests, port, ms, replies, from);
  }

  lemma AnswerableOnly(tests: seq<IPv4 -> bool>, port: int, ms: seq<Dhcp.Incoming>, replies: seq<bytes>, from: seq<nat>)
    requires Keeps(ms, Answering(tests, port), replies, from)
    ensures Served(tests, port, ms, replies, from)
  {
    forall i | 0 <= i < |replies| && -MAX_INT - 1 <= port <= MAX_INT
      ensures Mirrors(tests, port, ms[from[i]], replies[i])
    {
      AnswerMirrorsRequest(tests, port, ms[from[i]]);
    }
    forall n | 0 <= n < |ms| ensures Answerable(tests, ms[n]) <==> n in from {
      AnsweredExactly(tests, port, ms[n]);
    }
  }
}
