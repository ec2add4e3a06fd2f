/** The HTTP server the boot loader talks to: one page of configuration, and the files it names. */
module Http {
  import opened Bytes
  import opened Decimal
  import opened Text
  import opened Base64Url
  import opened Pxelinux
  import opened Booter

  datatype Response = BadRequest | NoByteStream | Page(text: bytes) | File(file: Opened)

  datatype Request = ConfigRequest(path: bytes) | FileRequest(path: bytes)

  /** What does not change from request to request: the banner, and how MAC addresses are read. */
  datatype Site = Site(banner: bytes, parseMac: bytes -> Option<bytes>)

  const BOOT_FROM_DISK: bytes :=
    [10] + (Ascii("DEFAULT local") + ([10] + (Ascii("LABEL local") + ([10] + (Ascii("LOCALBOOT 0") + ([10] + []))))))

  const MAC_PREFIX: bytes := Ascii("01-")

  /** The machine a configuration is requested for. */
  function MacOf(site: Site, path: bytes): Option<bytes> {
    var name := Base(path);
    if StartsWith(name, MAC_PREFIX) then site.parseMac(name[3..]) else None
  }

  /** The page for a machine, given what the booter said about it. */
  function ConfigPage(site: Site, path: bytes, spec: Option<Spec>): Response {
    if MacOf(site, path).None? then BadRequest
    else if spec.None? then Page(BOOT_FROM_DISK)
    else Page(ConfigFor(site.banner, spec.value))
  }

  function StaticFile(kernelPath: bytes, initrdPaths: seq<bytes>, path: bytes): Response {
    var id := IdOf(path);
    if id.None? then BadRequest
    else
      var f := Resolve(kernelPath, initrdPaths, id.value);
      if f.None? then NoByteStream else File(f.value)
  }

  /** The URL a file request is proxied to in API mode. */
  function RemoteFile(box: Box, path: bytes): Option<bytes> {
    var id := IdOf(path);
    if id.None? then None else GetURL(box, id.value)
  }

  // ---- The handlers -----------------------------------------------------------------------------

  /** Overwrites every reference of a specification with its URL. */
  method EncodeInPlace(spec: BootSpec)
    modifies spec`kernel, spec.initrd
    ensures spec.Value() == Spec(Url(old(spec.kernel)), Urls(old(spec.initrd[..])), spec.cmdline)
  {
    spec.kernel := Url(spec.kernel);
    for i := 0 to spec.initrd.Length
      modifies spec.initrd
      invariant forall k | 0 <= k < i :: spec.initrd[k] == Url(old(spec.initrd[k]))
      invariant forall k | i <= k < spec.initrd.Length :: spec.initrd[k] == old(spec.initrd[k])
    {
      spec.initrd[i] := Url(spec.initrd[i]);
    }
    assert spec.initrd[..] == Urls(old(spec.initrd[..]));
  }

  /** The configuration handler in static mode.  It overwrites the specification it gets, yet
      nothing that existed before the call is modified: what it gets is a copy. */
  method PxelinuxConfig(site: Site, booter: StaticBooter, path: bytes) returns (r: Response)
    ensures r == ConfigPage(site, path, Some(booter.spec.Value()))
  {
    var name := Base(path);
    if !StartsWith(name, MAC_PREFIX) {
      return BadRequest;
    }
    var mac := site.parseMac(name[3..]);
    if mac.None? {
      return BadRequest;
    }
    var spec := booter.BootSpecFor();
    EncodeInPlace(spec);
    r := Page(Config(site.banner, Spec(spec.kernel, spec.initrd[..], spec.cmdline)));
  }

  /** The page of a machine that is not to be booted from the network names no kernel. */
  lemma DiskPage()
    ensures Split(BOOT_FROM_DISK, 10) == [[], Ascii("DEFAULT local"), Ascii("LABEL local"), Ascii("LOCALBOOT 0"), []]
    ensures ReadConfig(BOOT_FROM_DISK) == None
  {
    var l1, l2, l3 := Ascii("DEFAULT local"), Ascii("LABEL local"), Ascii("LOCALBOOT 0");
    FourLines(l1, l2, l3);
    NotLinux(l1);
    NotLinux(l2);
    NotLinux(l3);
    NoKernel(l1, l2, l3);
  }

  lemma FourLines(l1: bytes, l2: bytes, l3: bytes)
    requires 10 !in l1 && 10 !in l2 && 10 !in l3
    ensures Split([10] + (l1 + ([10] + (l2 + ([10] + (l3 + ([10] + [])))))), 10) == [[], l1, l2, l3, []]
  {
    var t2 := l2 + ([10] + (l3 + ([10] + [])));
    LeadingNewline(l1 + ([10] + t2));
    SplitPiece(l1, t2, 10);
    SplitPiece(l2, l3 + ([10] + []), 10);
    SplitPiece(l3, [], 10);
  }

  lemma NotLinux(line: bytes)
    requires 2 <= |line| && (line[0] != 76 || line[1] != 73)
    ensures !StartsWith(line, LINUX)
  {
    if 6 <= |line| {
      assert line[..6][0] == line[0] && line[..6][1] == line[1] && LINUX[0] == 76 && LINUX[1] == 73;
    }
  }

  lemma NoKernel(l1: bytes, l2: bytes, l3: bytes)
    requires !StartsWith(l1, LINUX) && !StartsWith(l2, LINUX) && !StartsWith(l3, LINUX)
    ensures Field([[], l1, l2, l3, []], LINUX) == None
  {
    var none: seq<bytes> := [[]];
    assert none[1..] == [];
    FieldSkips(l3, none);
    FieldSkips(l2, [l3] + none);
    FieldSkips(l1, [l2] + ([l3] + none));
    FieldSkips([], [l1] + ([l2] + ([l3] + none)));
    assert [[], l1, l2, l3, []] == [[]] + ([l1] + ([l2] + ([l3] + none)));
  }

  lemma FieldSkips(line: bytes, rest: seq<bytes>)
    requires !StartsWith(line, LINUX)
    ensures Field([line] + rest, LINUX) == Field(rest, LINUX)
  {
    assert ([line] + rest)[1..] == rest;
  }

  /** What a configuration request can get: a refusal exactly if the last element of its path is not
      "01-" and a MAC address; otherwise a page that names a kernel exactly if the booter gave a
      specification, with its URLs and its command line, and that boots from disk if it did not. */
  lemma ConfigRequestExactly(site: Site, path: bytes, spec: Option<Spec>)
    ensures var r, name := ConfigPage(site, path, spec), Base(path);
            && (r.BadRequest? <==> !(3 <= |name| && name[..3] == [48, 49, 45] && site.parseMac(name[3..]).Some?))
            && (!r.BadRequest? ==>
                  && r.Page? && (ReadConfig(r.text).Some? <==> spec.Some?)
                  && (spec.None? ==>
                        Split(r.text, 10) == [[], Ascii("DEFAULT local"), Ascii("LABEL local"), Ascii("LOCALBOOT 0"), []])
                  && (spec.Some? ==>
                        && ReadConfig(r.text).value.kernel == Url(spec.value.kernel)
                        && ReadConfig(r.text).value.cmdline == UpTo(spec.value.cmdline, 10)))
  {
    assert MAC_PREFIX == [48, 49, 45];
    DiskPage();
    if spec.Some? {
      ReadConfigFor(site.banner, spec.value);
    }
  }

  /** What a file request can get: a refusal exactly if the last element of its path is not base64url
      text, and otherwise the kernel, an initrd, or nothing, by what that text stands for. */
  lemma FileRequestExactly(kernelPath: bytes, initrdPaths: seq<bytes>, path: bytes)
    ensures var r, id := StaticFile(kernelPath, initrdPaths, path), IdOf(path);
            && (r.BadRequest? <==> !WellPadded(StripNewlines(Base(path))))
            && (r.BadRequest? <==> id.None?)
            && (r.File? <==> id.Some? && (id.value == KERNEL || exists i | 0 <= i < |initrdPaths| :: Numeral(id.value, i)))
            && (id == Some(KERNEL) ==> r == File(Opened(kernelPath, KERNEL)))
            && (id.Some? ==> forall i | 0 <= i < |initrdPaths| && Numeral(id.value, i) ::
                  r == File(Opened(initrdPaths[i], Ascii("initrd.") + id.value)))
            && (r.File? ==> r.file.path == kernelPath || r.file.path in initrdPaths)
            && !r.Page?
  {
    DecodeStringAccepts(Base(path));
    if IdOf(path).Some? {
      OpensExactly(kernelPath, initrdPaths, IdOf(path).value);
    }
  }

  method FileHandler(booter: StaticBooter, path: bytes) returns (r: Response)
    ensures r == StaticFile(booter.kernelPath, booter.initrdPaths, path)
    ensures r.BadRequest? <==> !WellPadded(StripNewlines(Base(path)))
    ensures r.File? <==> IdOf(path).Some? && (IdOf(path).value == KERNEL
                         || exists i | 0 <= i < |booter.initrdPaths| :: Numeral(IdOf(path).value, i))
    ensures IdOf(path) == Some(KERNEL) ==> r == File(Opened(booter.kernelPath, KERNEL))
    ensures IdOf(path).Some? ==> forall i | 0 <= i < |booter.initrdPaths| && Numeral(IdOf(path).value, i) ::
              r == File(Opened(booter.initrdPaths[i], Ascii("initrd.") + IdOf(path).value))
    ensures r.File? ==> r.file.path == booter.kernelPath || r.file.path in booter.initrdPaths
  {
    FileRequestExactly(booter.kernelPath, booter.initrdPaths, path);
    var id := IdOf(path);
    if id.None? {
      return BadRequest;
    }
    var f := booter.File(id.value);
    r := if f.None? then NoByteStream else File(f.value);
  }

  /** What the API server answers about the machine a configuration is requested for. */
  function AnswerFor(site: Site, api: bytes -> Option<Spec>, path: bytes): Option<Spec> {
    var mac := MacOf(site, path);
    if mac.None? then None else api(mac.value)
  }

  /** The configuration handler in API mode, given what the API server answers about each machine. */
  method RemoteConfig(site: Site, box: Box, rand: seq<Option<Nonce>>, api: bytes -> Option<Spec>, path: bytes)
    returns (r: Response)
    requires var answer := AnswerFor(site, api, path); answer.Some? ==> |answer.value.initrds| < |rand|
    ensures var answer := AnswerFor(site, api, path);
            r == ConfigPage(site, path, if answer.None? then None else RemoteSpec(box, rand, answer.value))
    ensures r.Page? && ReadConfig(r.text).Some? ==> AsAnswered(site, api, path, r.text)
  {
    var name := Base(path);
    if !StartsWith(name, MAC_PREFIX) {
      return BadRequest;
    }
    var mac := site.parseMac(name[3..]);
    if mac.None? {
      return BadRequest;
    }
    var answer := api(mac.value);
    DiskPage();
    if answer.None? {
      return Page(BOOT_FROM_DISK);
    }
    var s := RemoteBootSpec(box, rand, answer.value);
    if s.None? {
      return Page(BOOT_FROM_DISK);
    }
    var initrd := new bytes[|s.value.initrds|](i requires 0 <= i < |s.value.initrds| => s.value.initrds[i]);
    assert initrd[..] == s.value.initrds;
    var spec := new BootSpec(s.value.kernel, initrd, s.value.cmdline);
    EncodeInPlace(spec);
    r := Page(Config(site.banner, Spec(spec.kernel, spec.initrd[..], spec.cmdline)));
    ReadConfigFor(site.banner, s.value);
  }

  /** A page that names a kernel goes out only if the API server has an answer for the very machine in
      the path, and has the command line of that answer. */
  ghost predicate AsAnswered(site: Site, api: bytes -> Option<Spec>, path: bytes, text: bytes) {
    var name := Base(path);
    && 3 <= |name| && site.parseMac(name[3..]).Some?
    && var answer := api(site.parseMac(name[3..]).value);
    && answer.Some? && ReadConfig(text).Some?
    && ReadConfig(text).value.cmdline == UpTo(answer.value.cmdline, 10)
  }

  /** The response to a request in static mode, as a function of that request alone. */
  function StaticResponse(site: Site, kernelPath: bytes, initrdPaths: seq<bytes>, cmdline: bytes, q: Request): Response {
    match q
    case ConfigRequest(path) => ConfigPage(site, path, Some(StaticSpec(|initrdPaths|, cmdline)))
    case FileRequest(path) => StaticFile(kernelPath, initrdPaths, path)
  }

  method HandleStatic(site: Site, booter: StaticBooter, q: Request) returns (r: Response)
    requires booter.Valid()
    ensures r == StaticResponse(site, booter.kernelPath, booter.initrdPaths, booter.spec.cmdline, q)
  {
    match q {
      case ConfigRequest(path) => r := PxelinuxConfig(site, booter, path);
      case FileRequest(path) => r := FileHandler(booter, path);
    }
  }

  /** Any sequence of requests: each gets the response it would have got as the only one, and the
      booter, which this method does not list among the things it may modify, stays as it was. */
  method ServeStatic(site: Site, booter: StaticBooter, qs: seq<Request>) returns (rs: seq<Response>)
    requires booter.Valid()
    ensures booter.Valid()
    ensures |rs| == |qs|
    ensures forall i | 0 <= i < |qs| ::
              rs[i] == StaticResponse(site, booter.kernelPath, booter.initrdPaths, booter.spec.cmdline, qs[i])
  {
    rs := [];
    for i := 0 to |qs|
      invariant |rs| == i
      invariant forall k | 0 <= k < i ::
                  rs[k] == StaticResponse(site, booter.kernelPath, booter.initrdPaths, booter.spec.cmdline, qs[k])
    {
      var r := HandleStatic(site, booter, qs[i]);
      rs := rs + [r];
    }
  }

  // ---- From configuration to files ---------------------------------------------------------------

  /** The boot loader asks the server's root for a URL. */
  function PathFor(url: bytes): bytes {
    [SLASH] + url
  }

  /** Requests that go to the file handler: those below "/f/". */
  predicate ToFiles(path: bytes) {
    3 <= |path| && path[..3] == [47, 102, 47]
  }

  lemma UrlToFiles(id: bytes)
    ensures ToFiles(PathFor(Url(id)))
  {
    assert Ascii("f/") == [102, 47];
  }

  /** A boot loader that reads a configuration and requests what it names gets each reference back,
      in order; if there are no initrds it sees one empty name instead.  It also gets the command line,
      all of it exactly if that has no line break. */
  lemma RefsComeBack(banner: bytes, ids: Spec) returns (refs: Refs)
    requires ids.kernel != [] && forall id <- ids.initrds :: id != []
    ensures ReadConfig(ConfigFor(banner, ids)) == Some(refs)
    ensures IdOf(PathFor(refs.kernel)) == Some(ids.kernel) && ToFiles(PathFor(refs.kernel))
    ensures |refs.initrds| == |ids.initrds| <==> ids.initrds != []
    ensures ids.initrds != [] ==>
              forall i | 0 <= i < |ids.initrds| ::
                IdOf(PathFor(refs.initrds[i])) == Some(ids.initrds[i]) && ToFiles(PathFor(refs.initrds[i]))
    ensures refs.cmdline <= ids.cmdline && 10 !in refs.cmdline
    ensures refs.cmdline == ids.cmdline <==> 10 !in ids.cmdline
  {
    ReadConfigFor(banner, ids);
    refs := ReadConfig(ConfigFor(banner, ids)).value;
    UpToExactly(ids.cmdline, 10);
    IdOfUrl(ids.kernel);
    UrlToFiles(ids.kernel);
    if ids.initrds != [] {
      forall i | 0 <= i < |ids.initrds|
        ensures IdOf(PathFor(refs.initrds[i])) == Some(ids.initrds[i]) && ToFiles(PathFor(refs.initrds[i]))
      {
        assert ids.initrds[i] in ids.initrds;
        UrlToFiles(ids.initrds[i]);
        IdOfUrl(ids.initrds[i]);
      }
    }
  }

  /** Static mode, end to end: the configuration leads the boot loader to exactly the kernel and,
      for every non-empty list, exactly the initrds the server was started with, in order, and to the
      command line it was started with. */
  lemma StaticBoot(banner: bytes, kernelPath: bytes, initrdPaths: seq<bytes>, cmdline: bytes) returns (refs: Refs)
    requires |initrdPaths| <= MAX_INT
    ensures ReadConfig(ConfigFor(banner, StaticSpec(|initrdPaths|, cmdline))) == Some(refs)
    ensures StaticFile(kernelPath, initrdPaths, PathFor(refs.kernel)) == File(Opened(kernelPath, KERNEL))
    ensures |refs.initrds| == |initrdPaths| <==> initrdPaths != []
    ensures initrdPaths != [] ==>
              forall i | 0 <= i < |initrdPaths| ::
                StaticFile(kernelPath, initrdPaths, PathFor(refs.initrds[i])) ==
                File(Opened(initrdPaths[i], Ascii("initrd.") + Itoa(i)))
    ensures refs.cmdline <= cmdline && (refs.cmdline == cmdline <==> 10 !in cmdline)
  {
    var s := StaticSpec(|initrdPaths|, cmdline);
    refs := RefsComeBack(banner, s);
    StaticResolves(kernelPath, initrdPaths, cmdline);
  }

  /** API mode, end to end: the configuration leads to exactly the URLs and the command line the API
      server gave. */
  lemma RemoteBoot(banner: bytes, box: Box, rand: seq<Option<Nonce>>, answer: Spec) returns (refs: Refs)
    requires Inverts(box) && |answer.initrds| < |rand| && RemoteSpec(box, rand, answer).Some?
    ensures ReadConfig(ConfigFor(banner, RemoteSpec(box, rand, answer).value)) == Some(refs)
    ensures RemoteFile(box, PathFor(refs.kernel)) == Some(answer.kernel)
    ensures |refs.initrds| == |answer.initrds| <==> answer.initrds != []
    ensures answer.initrds != [] ==>
              forall i | 0 <= i < |answer.initrds| :: RemoteFile(box, PathFor(refs.initrds[i])) == Some(answer.initrds[i])
    ensures refs.cmdline <= answer.cmdline && (refs.cmdline == answer.cmdline <==> 10 !in answer.cmdline)
  {
    var s := RemoteSpec(box, rand, answer).value;
    GetSigned(box, rand[0].value, answer.kernel);
    forall i | 0 <= i < |answer.initrds| ensures s.initrds[i] != [] && GetURL(box, s.initrds[i]) == Some(answer.initrds[i]) {
      GetSigned(box, rand[1..][i].value, answer.initrds[i]);
    }
    refs := RefsComeBack(banner, s);
  }
}
