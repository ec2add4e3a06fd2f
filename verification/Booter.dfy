/** The two sources of boot specifications: local files, and a remote API whose URLs are sealed. */
module Booter {
  import opened Bytes
  import opened Decimal
  import opened Pxelinux

  /** A boot specification as an object: whoever gets one may overwrite it. */
  class BootSpec {
    var kernel: bytes
    var initrd: array<bytes>
    var cmdline: bytes

    constructor (kernel: bytes, initrd: array<bytes>, cmdline: bytes)
      ensures this.kernel == kernel && this.initrd == initrd && this.cmdline == cmdline
    {
      this.kernel, this.initrd, this.cmdline := kernel, initrd, cmdline;
    }

    ghost function Value(): Spec
      reads this, initrd
    {
      Spec(kernel, initrd[..], cmdline)
    }
  }

  // ---- Local files ---------------------------------------------------------------------------

  /** A file to be opened, and its name for the log. */
  datatype Opened = Opened(path: bytes, name: bytes)

  const KERNEL: bytes := Ascii("kernel")

  /** The references handed out for `n` initrds: "kernel", and the numbers from 0 on. */
  function StaticSpec(n: nat, cmdline: bytes): Spec {
    Spec(KERNEL, seq(n, i requires 0 <= i => Itoa(i)), cmdline)
  }

  /** The file a reference stands for. */
  function Resolve(kernelPath: bytes, initrdPaths: seq<bytes>, id: bytes): Option<Opened> {
    if id == KERNEL then Some(Opened(kernelPath, KERNEL))
    else
      var i := Atoi(id);
      if i.Some? && 0 <= i.value < |initrdPaths| then Some(Opened(initrdPaths[i.value], Ascii("initrd.") + id))
      else None
  }

  /** Every reference handed out stands for the file it was handed out for. */
  lemma StaticResolves(kernelPath: bytes, initrdPaths: seq<bytes>, cmdline: bytes)
    requires |initrdPaths| <= MAX_INT
    ensures var s := StaticSpec(|initrdPaths|, cmdline);
            && Resolve(kernelPath, initrdPaths, s.kernel) == Some(Opened(kernelPath, KERNEL))
            && forall i | 0 <= i < |initrdPaths| ::
                 Resolve(kernelPath, initrdPaths, s.initrds[i]) == Some(Opened(initrdPaths[i], Ascii("initrd.") + Itoa(i)))
  {
    forall i | 0 <= i < |initrdPaths|
      ensures Resolve(kernelPath, initrdPaths, Itoa(i)) == Some(Opened(initrdPaths[i], Ascii("initrd.") + Itoa(i)))
    {
      AtoiItoa(i);
      assert IsDigit(Itoa(i)[0]) && KERNEL[0] == 107;
    }
  }

  /** What a reference opens: the kernel for "kernel", initrd `i` for every numeral of `i`, and nothing
      for anything else.  So nothing but the files given at startup is ever opened. */
  lemma OpensExactly(kernelPath: bytes, initrdPaths: seq<bytes>, id: bytes)
    ensures var r := Resolve(kernelPath, initrdPaths, id);
            && (r.Some? <==> id == Ascii("kernel") || exists i | 0 <= i < |initrdPaths| :: Numeral(id, i))
            && (id == Ascii("kernel") ==> r == Some(Opened(kernelPath, Ascii("kernel"))))
            && (forall i | 0 <= i < |initrdPaths| && Numeral(id, i) ::
                  r == Some(Opened(initrdPaths[i], Ascii("initrd.") + id)))
            && (r.Some? ==> r.value.path == kernelPath || r.value.path in initrdPaths)
  {
    forall i | 0 <= i < |initrdPaths| ensures Numeral(id, i) <==> Atoi(id) == Some(i) {
      AtoiExactly(id, i);
    }
    KernelIsNoNumber();
  }

  lemma KernelIsNoNumber()
    ensures Atoi(KERNEL) == None
  {
    assert KERNEL[0] == 107 && !IsDigit(KERNEL[0]);
  }

  class StaticBooter {
    const kernelPath: bytes
    const initrdPaths: seq<bytes>
    const spec: BootSpec

    ghost predicate Valid()
      reads spec, spec.initrd
    {
      spec.Value() == StaticSpec(|initrdPaths|, spec.cmdline)
    }

    constructor (kernelPath: bytes, initrdPaths: seq<bytes>, cmdline: bytes)
      ensures this.kernelPath == kernelPath && this.initrdPaths == initrdPaths
      ensures fresh(spec) && fresh(spec.initrd) && spec.Value() == StaticSpec(|initrdPaths|, cmdline)
    {
      var ids := new bytes[|initrdPaths|];
      for i := 0 to |initrdPaths|
        invariant forall k | 0 <= k < i :: ids[k] == Itoa(k)
      {
        ids[i] := Itoa(i);
      }
      this.kernelPath, this.initrdPaths := kernelPath, initrdPaths;
      this.spec := new BootSpec(KERNEL, ids, cmdline);
      new;
      assert ids[..] == StaticSpec(|initrdPaths|, cmdline).initrds;
    }

    /** Every caller gets an object, and a list, of its own. */
    method BootSpecFor() returns (s: BootSpec)
      ensures fresh(s) && fresh(s.initrd) && s.Value() == spec.Value()
    {
      var initrd := new bytes[spec.initrd.Length](i requires 0 <= i < spec.initrd.Length reads spec, spec.initrd => spec.initrd[i]);
      s := new BootSpec(spec.kernel, initrd, spec.cmdline);
      assert s.initrd[..] == spec.initrd[..];
    }

    method File(id: bytes) returns (r: Option<Opened>)
      ensures r == Resolve(kernelPath, initrdPaths, id)
      ensures r.Some? <==> id == KERNEL || exists i | 0 <= i < |initrdPaths| :: Numeral(id, i)
      ensures id == KERNEL ==> r == Some(Opened(kernelPath, KERNEL))
      ensures forall i | 0 <= i < |initrdPaths| && Numeral(id, i) :: r == Some(Opened(initrdPaths[i], Ascii("initrd.") + id))
    {
      OpensExactly(kernelPath, initrdPaths, id);
      if id == KERNEL {
        return Some(Opened(kernelPath, KERNEL));
      }
      var i := Atoi(id);
      if i.Some? && i.value >= 0 && i.value < |initrdPaths| {
        return Some(Opened(initrdPaths[i.value], Ascii("initrd.") + id));
      }
      r := None;
    }
  }

  // ---- The remote API ------------------------------------------------------------------------

  const NONCE_SIZE := 24

  type Nonce = b: bytes | |b| == NONCE_SIZE witness Zeros(24)

  /** Authenticated encryption under the key drawn at startup: message and nonce to box, and back. */
  datatype Box = Box(seal: (bytes, Nonce) -> bytes, open: (bytes, Nonce) -> Option<bytes>)

  /** What was sealed opens. */
  ghost predicate Inverts(box: Box) {
    forall u: bytes, n: Nonce :: box.open(box.seal(u, n), n) == Some(u)
  }

  /** Nothing else does. */
  ghost predicate Authentic(box: Box) {
    forall c: bytes, n: Nonce, u: bytes :: box.open(c, n) == Some(u) ==> c == box.seal(u, n)
  }

  function Signed(box: Box, nonce: Nonce, url: bytes): bytes {
    nonce + box.seal(url, nonce)
  }

  function GetURL(box: Box, id: bytes): Option<bytes> {
    if |id| < NONCE_SIZE then None else box.open(id[NONCE_SIZE..], id[..NONCE_SIZE])
  }

  /** Exactly the references that could have been issued for a URL lead to it. */
  lemma GetURLExactly(box: Box, id: bytes, url: bytes)
    requires Inverts(box) && Authentic(box)
    ensures GetURL(box, id) == Some(url) <==> exists nonce: Nonce :: id == Signed(box, nonce, url)
  {
    if nonce: Nonce :| id == Signed(box, nonce, url) {
      GetSigned(box, nonce, url);
    }
    if GetURL(box, id) == Some(url) {
      var nonce: Nonce := id[..NONCE_SIZE];
      assert id == nonce + id[NONCE_SIZE..];
      assert id == Signed(box, nonce, url);
    }
  }

  lemma GetSigned(box: Box, nonce: Nonce, url: bytes)
    requires Inverts(box)
    ensures GetURL(box, Signed(box, nonce, url)) == Some(url)
  {
    var id := Signed(box, nonce, url);
    assert id[..NONCE_SIZE] == nonce && id[NONCE_SIZE..] == box.seal(url, nonce);
  }

  /** The references for a list of URLs, if there was randomness for each of them. */
  function SignAll(box: Box, rand: seq<Option<Nonce>>, urls: seq<bytes>): (ids: Option<seq<bytes>>)
    requires |urls| <= |rand|
    ensures ids.Some? <==> forall i | 0 <= i < |urls| :: rand[i].Some?
    ensures ids.Some? ==> |ids.value| == |urls| && forall i | 0 <= i < |urls| :: ids.value[i] == Signed(box, rand[i].value, urls[i])
  {
    if forall i | 0 <= i < |urls| :: rand[i].Some? then
      Some(seq(|urls|, i requires 0 <= i < |urls| && rand[i].Some? => Signed(box, rand[i].value, urls[i])))
    else None
  }

  /** The specification for what the API server answered: the kernel is signed first. */
  function RemoteSpec(box: Box, rand: seq<Option<Nonce>>, answer: Spec): Option<Spec>
    requires |answer.initrds| < |rand|
  {
    var ids := SignAll(box, rand[1..], answer.initrds);
    if rand[0].None? || ids.None? then None
    else Some(Spec(Signed(box, rand[0].value, answer.kernel), ids.value, answer.cmdline))
  }

  method SignURL(box: Box, rand: Option<Nonce>, url: bytes) returns (id: Option<bytes>)
    ensures id.None? <==> rand.None?
    ensures id.Some? ==> id.value == Signed(box, rand.value, url) && 24 <= |id.value|
  {
    if rand.None? {
      return None;
    }
    var out: bytes := rand.value;
    out := out + box.seal(url, rand.value);
    id := Some(out);
  }

  /** Signs the initrds' URLs one by one, giving up at the first failure. */
  method SignInitrds(box: Box, rand: seq<Option<Nonce>>, urls: seq<bytes>) returns (ids: Option<seq<bytes>>)
    requires |urls| <= |rand|
    ensures ids == SignAll(box, rand, urls)
  {
    var initrds: seq<bytes> := [];
    for i := 0 to |urls|
      invariant |initrds| == i
      invariant forall k | 0 <= k < i :: rand[k].Some? && initrds[k] == Signed(box, rand[k].value, urls[k])
    {
      var initrd := SignURL(box, rand[i], urls[i]);
      if initrd.None? {
        return None;
      }
      initrds := initrds + [initrd.value];
    }
    ids := Some(initrds);
    assert initrds == SignAll(box, rand, urls).value;
  }

  /** Signs the kernel's URL and then the initrds'. */
  method RemoteBootSpec(box: Box, rand: seq<Option<Nonce>>, answer: Spec) returns (s: Option<Spec>)
    requires |answer.initrds| < |rand|
    ensures s == RemoteSpec(box, rand, answer)
  {
    var kernel := SignURL(box, rand[0], answer.kernel);
    if kernel.None? {
      return None;
    }
    var initrds := SignInitrds(box, rand[1..], answer.initrds);
    s := if initrds.None? then None else Some(Spec(kernel.value, initrds.value, answer.cmdline));
  }
}
