/** The boot loader's configuration: the text the server writes for a boot specification, and what
    a boot loader gets out of it. */
module Pxelinux {
  import opened Bytes
  import opened Base64Url
  import opened Text

  const NEWLINE: byte := 10
  const SPACE: byte := 32
  const COMMA: byte := 44

  /** References to a kernel and some initrds, and a command line. */
  datatype Spec = Spec(kernel: bytes, initrds: seq<bytes>, cmdline: bytes)

  // ---- References as URLs ------------------------------------------------------------------

  function Url(id: bytes): bytes {
    Ascii("f/") + Encode(id)
  }

  function Urls(ids: seq<bytes>): (urls: seq<bytes>)
    ensures |urls| == |ids| && forall i | 0 <= i < |ids| :: urls[i] == Url(ids[i])
  {
    seq(|ids|, i requires 0 <= i < |ids| => Url(ids[i]))
  }

  /** The reference in a requested path. */
  function IdOf(path: bytes): Option<bytes> {
    DecodeString(Base(path))
  }

  /** Requesting a reference's URL from the server's root gives the reference back. */
  lemma IdOfUrl(id: bytes)
    requires id != []
    ensures IdOf([SLASH] + Url(id)) == Some(id)
  {
    var e := Encode(id);
    EncodePlain(id);
    forall c <- e ensures c != SLASH {
      PlainMeans(c);
    }
    assert Ascii("f/") == Ascii("f") + [SLASH];
    assert [SLASH] + Url(id) == ([SLASH] + Ascii("f")) + ([SLASH] + e);
    BaseOf([SLASH] + Ascii("f"), e);
    DecodeEncode(id);
  }

  lemma UrlAvoids(id: bytes)
    ensures NEWLINE !in Url(id) && SPACE !in Url(id) && COMMA !in Url(id)
  {
    EncodePlain(id);
    forall c <- Encode(id) ensures c != NEWLINE && c != SPACE && c != COMMA {
      PlainMeans(c);
    }
    assert Ascii("f/") == [102, 47];
  }

  // ---- The text ------------------------------------------------------------------------------

  const SAY: bytes := Ascii("SAY ")
  const DEFAULT: bytes := Ascii("DEFAULT linux")
  const LABEL: bytes := Ascii("LABEL linux")
  const LINUX: bytes := Ascii("LINUX ")
  const APPEND: bytes := Ascii("APPEND initrd=")

  /** The banner with every line break followed by "SAY ". */
  function SayLines(banner: bytes): bytes {
    if banner == [] then []
    else (if banner[0] == NEWLINE then [NEWLINE] + SAY else [banner[0]]) + SayLines(banner[1..])
  }

  /** The lines that select a kernel and its arguments. */
  function Directives(s: Spec): bytes {
    DEFAULT + ([NEWLINE] + (LABEL + ([NEWLINE] + ((LINUX + s.kernel) + ([NEWLINE] + Arguments(s))))))
  }

  function Arguments(s: Spec): bytes {
    (APPEND + Join(s.initrds, COMMA)) + ([SPACE] + (s.cmdline + [NEWLINE]))
  }

  /** The configuration for a specification whose references are URLs already. */
  function Config(banner: bytes, s: Spec): bytes {
    [NEWLINE] + (SAY + (SayLines(banner) + ([NEWLINE] + Directives(s))))
  }

  /** Text goes in front of the first line of what follows. */
  function InFront(x: bytes, lines: seq<bytes>): seq<bytes>
    requires lines != []
  {
    [x + lines[0]] + lines[1..]
  }

  predicate StartsWith(line: bytes, key: bytes) {
    |key| <= |line| && line[..|key|] == key
  }

  /** The rest of the first line that starts with a key. */
  function Field(lines: seq<bytes>, key: bytes): Option<bytes> {
    if lines == [] then None
    else if StartsWith(lines[0], key) then Some(lines[0][|key|..])
    else Field(lines[1..], key)
  }

  /** Lines that a boot loader only prints. */
  predicate Printed(line: bytes) {
    line == [] || StartsWith(line, SAY)
  }

  /** Every line of a text, to be printed. */
  function Said(lines: seq<bytes>): (said: seq<bytes>)
    ensures |said| == |lines| && forall i | 0 <= i < |lines| :: said[i] == SAY + lines[i]
  {
    seq(|lines|, i requires 0 <= i < |lines| => SAY + lines[i])
  }

  lemma SaidCons(line: bytes, lines: seq<bytes>)
    ensures Said([line] + lines) == [SAY + line] + Said(lines)
  {
  }

  /** The banner, however many lines it has, followed by a line break becomes its lines, all of them
      but the first with "SAY " in front. */
  lemma {:induction false} BannerLines(front: bytes, banner: bytes, rest: bytes)
    requires NEWLINE !in front
    ensures var lines := Split(banner, NEWLINE);
            Split(front + (SayLines(banner) + ([NEWLINE] + rest)), NEWLINE) ==
            [front + lines[0]] + (Said(lines[1..]) + Split(rest, NEWLINE))
    decreases |banner|
  {
    var lines := Split(banner, NEWLINE);
    if banner == [] {
      assert SayLines(banner) + ([NEWLINE] + rest) == [NEWLINE] + rest;
      SplitPiece(front, rest, NEWLINE);
      assert front + lines[0] == front && Said(lines[1..]) + Split(rest, NEWLINE) == Split(rest, NEWLINE);
    } else {
      var more := Split(banner[1..], NEWLINE);
      var tail := SayLines(banner[1..]) + ([NEWLINE] + rest);
      if banner[0] == NEWLINE {
        Assoc4([NEWLINE], SAY, SayLines(banner[1..]), [NEWLINE] + rest);
        assert SayLines(banner) + ([NEWLINE] + rest) == [NEWLINE] + (SAY + tail);
        SplitPiece(front, SAY + tail, NEWLINE);
        SayStart();
        BannerLines(SAY, banner[1..], rest);
        assert lines[1..] == more == [more[0]] + more[1..];
        SaidCons(more[0], more[1..]);
        assert front + lines[0] == front;
      } else {
        Assoc([banner[0]], SayLines(banner[1..]), [NEWLINE] + rest);
        Assoc(front, [banner[0]], tail);
        BannerLines(front + [banner[0]], banner[1..], rest);
        Assoc(front, [banner[0]], more[0]);
      }
    }
  }

  lemma SayStart()
    ensures StartsWith(SAY, SAY) && NEWLINE !in SAY
  {
    assert SAY == [83, 65, 89, 32];
  }

  lemma KeysHaveNoNewline()
    ensures NEWLINE !in DEFAULT && NEWLINE !in LABEL && NEWLINE !in LINUX && NEWLINE !in APPEND
  {
  }

  function DirectiveLines(s: Spec): seq<bytes> {
    [DEFAULT] + ([LABEL] + ([LINUX + s.kernel]
    + InFront(APPEND + Join(s.initrds, COMMA), Split([SPACE] + (s.cmdline + [NEWLINE]), NEWLINE))))
  }

  lemma DirectivesSplit(s: Spec)
    requires NEWLINE !in s.kernel && forall u <- s.initrds :: NEWLINE !in u
    ensures Split(Directives(s), NEWLINE) == DirectiveLines(s)
  {
    KeysHaveNoNewline();
    JoinAvoids(s.initrds, COMMA, NEWLINE);
    SplitFront(APPEND + Join(s.initrds, COMMA), [SPACE] + (s.cmdline + [NEWLINE]), NEWLINE);
    SplitPiece(LINUX + s.kernel, Arguments(s), NEWLINE);
    var rest := (LINUX + s.kernel) + ([NEWLINE] + Arguments(s));
    SplitPiece(LABEL, rest, NEWLINE);
    SplitPiece(DEFAULT, LABEL + ([NEWLINE] + rest), NEWLINE);
  }

  lemma LeadingNewline(rest: bytes)
    ensures Split([NEWLINE] + rest, NEWLINE) == [[]] + Split(rest, NEWLINE)
  {
    assert ([NEWLINE] + rest)[1..] == rest;
  }

  /** The lines of a configuration: an empty one, those of the banner to be printed, then the four
      that matter. */
  lemma ConfigLines(banner: bytes, s: Spec) returns (printed: seq<bytes>)
    requires NEWLINE !in s.kernel && forall u <- s.initrds :: NEWLINE !in u
    ensures printed == [[]] + Said(Split(banner, NEWLINE))
    ensures forall line <- printed :: Printed(line)
    ensures Split(Config(banner, s), NEWLINE) == printed + DirectiveLines(s)
  {
    DirectivesSplit(s);
    PrintedPart(banner, Directives(s));
    SaidPrinted(Split(banner, NEWLINE));
    printed := [[]] + Said(Split(banner, NEWLINE));
  }

  lemma SaidAll(lines: seq<bytes>, rest: seq<bytes>)
    requires lines != []
    ensures [SAY + lines[0]] + (Said(lines[1..]) + rest) == Said(lines) + rest
  {
    assert lines == [lines[0]] + lines[1..];
    SaidCons(lines[0], lines[1..]);
  }

  lemma SaidPart(banner: bytes, rest: bytes)
    ensures Split(SAY + (SayLines(banner) + ([NEWLINE] + rest)), NEWLINE) ==
            Said(Split(banner, NEWLINE)) + Split(rest, NEWLINE)
  {
    assert NEWLINE !in SAY by {
      SayStart();
    }
    BannerLines(SAY, banner, rest);
    SaidAll(Split(banner, NEWLINE), Split(rest, NEWLINE));
  }

  lemma PrintedPart(banner: bytes, rest: bytes)
    ensures Split([NEWLINE] + (SAY + (SayLines(banner) + ([NEWLINE] + rest))), NEWLINE) ==
            [[]] + Said(Split(banner, NEWLINE)) + Split(rest, NEWLINE)
  {
    SaidPart(banner, rest);
    var text := SAY + (SayLines(banner) + ([NEWLINE] + rest));
    LeadingNewline(text);
  }

  lemma SaidPrinted(lines: seq<bytes>)
    ensures forall line <- Said(lines) :: Printed(line)
  {
    forall line <- Said(lines) ensures Printed(line) {
      var i :| 0 <= i < |lines| && line == SAY + lines[i];
      assert (SAY + lines[i])[..|SAY|] == SAY;
    }
  }

  lemma StartsWithHead(line: bytes, key: bytes)
    requires key != []
    ensures StartsWith(line, key) ==> line != [] && line[0] == key[0]
  {
    assert StartsWith(line, key) ==> line[0] == line[..|key|][0];
  }

  lemma {:induction false} SkipPrinted(printed: seq<bytes>, lines: seq<bytes>, key: bytes)
    requires (forall line <- printed :: Printed(line)) && key != [] && key[0] != SAY[0]
    ensures Field(printed + lines, key) == Field(lines, key)
  {
    if printed == [] {
      assert printed + lines == lines;
    } else {
      assert printed[0] in printed;
      assert (printed + lines)[1..] == printed[1..] + lines;
      StartsWithHead(printed[0], key);
      StartsWithHead(printed[0], SAY);
      SkipPrinted(printed[1..], lines, key);
    }
  }

  // ---- What the boot loader reads ---------------------------------------------------------------

  /** The kernel, the initrds, which stand up to the first space and are separated by commas, and the
      command line, which is the rest of that line. */
  datatype Refs = Refs(kernel: bytes, initrds: seq<bytes>, cmdline: bytes)

  function ReadConfig(text: bytes): Option<Refs> {
    var lines := Split(text, NEWLINE);
    var kernel, append := Field(lines, LINUX), Field(lines, APPEND);
    if kernel.None? || append.None? then None
    else Some(Refs(kernel.value, Split(UpTo(append.value, SPACE), COMMA), After(append.value, SPACE)))
  }

  lemma FieldHere(key: bytes, value: bytes, rest: seq<bytes>)
    ensures Field([key + value] + rest, key) == Some(value)
  {
    assert (key + value)[..|key|] == key && (key + value)[|key|..] == value;
  }

  lemma FieldLater(line: bytes, rest: seq<bytes>, key: bytes)
    requires key != [] && line != [] && line[0] != key[0]
    ensures Field([line] + rest, key) == Field(rest, key)
  {
    StartsWithHead(line, key);
  }

  lemma ConfigFields(banner: bytes, s: Spec)
    requires NEWLINE !in s.kernel && forall u <- s.initrds :: NEWLINE !in u
    ensures var lines := Split(Config(banner, s), NEWLINE);
            && Field(lines, LINUX) == Some(s.kernel)
            && Field(lines, APPEND) == Some(Join(s.initrds, COMMA) + Split([SPACE] + (s.cmdline + [NEWLINE]), NEWLINE)[0])
  {
    var printed := ConfigLines(banner, s);
    SkipPrinted(printed, DirectiveLines(s), LINUX);
    SkipPrinted(printed, DirectiveLines(s), APPEND);
    DirectiveFields(s);
  }

  lemma DirectiveFields(s: Spec)
    ensures Field(DirectiveLines(s), LINUX) == Some(s.kernel)
    ensures Field(DirectiveLines(s), APPEND) ==
            Some(Join(s.initrds, COMMA) + Split([SPACE] + (s.cmdline + [NEWLINE]), NEWLINE)[0])
  {
    var last := Split([SPACE] + (s.cmdline + [NEWLINE]), NEWLINE);
    var l4 := InFront(APPEND + Join(s.initrds, COMMA), last);
    var l3 := [LINUX + s.kernel] + l4;
    var l2 := [LABEL] + l3;
    FieldLater(DEFAULT, l2, LINUX);
    FieldLater(DEFAULT, l2, APPEND);
    assert !StartsWith(LABEL, LINUX) by {
      assert LABEL[..6][1] == LABEL[1] != LINUX[1];
    }
    assert l2[1..] == l3;
    FieldLater(LABEL, l3, APPEND);
    FieldHere(LINUX, s.kernel, l4);
    FieldLater(LINUX + s.kernel, l4, APPEND);
    assert (APPEND + Join(s.initrds, COMMA)) + last[0] == APPEND + (Join(s.initrds, COMMA) + last[0]);
    FieldHere(APPEND, Join(s.initrds, COMMA) + last[0], last[1..]);
  }

  /** The configuration for references: each is written as its URL. */
  function ConfigFor(banner: bytes, ids: Spec): bytes {
    Config(banner, Spec(Url(ids.kernel), Urls(ids.initrds), ids.cmdline))
  }

  /** A boot loader that reads the configuration finds the kernel's URL, unless there are none exactly
      the URLs of the initrds in order, and the command line up to its first line break, whatever the
      banner and the command line say. */
  lemma ReadConfigFor(banner: bytes, ids: Spec)
    ensures ReadConfig(ConfigFor(banner, ids)) ==
            Some(Refs(Url(ids.kernel), if ids.initrds == [] then [[]] else Urls(ids.initrds), UpTo(ids.cmdline, NEWLINE)))
  {
    var s := Spec(Url(ids.kernel), Urls(ids.initrds), ids.cmdline);
    UrlsAvoid(ids);
    ConfigFields(banner, s);
    var joined, line := Join(s.initrds, COMMA), UpTo(s.cmdline, NEWLINE);
    JoinAvoids(s.initrds, COMMA, SPACE);
    CommandLine(s.cmdline);
    SplitPiece(joined, line, SPACE);
    AfterPiece(joined, line, SPACE);
    if ids.initrds != [] {
      SplitJoin(s.initrds, COMMA);
    }
  }

  lemma UrlsAvoid(ids: Spec)
    ensures NEWLINE !in Url(ids.kernel)
    ensures forall u <- Urls(ids.initrds) :: NEWLINE !in u && SPACE !in u && COMMA !in u
  {
    UrlAvoids(ids.kernel);
    forall u <- Urls(ids.initrds) ensures NEWLINE !in u && SPACE !in u && COMMA !in u {
      var i :| 0 <= i < |ids.initrds| && Url(ids.initrds[i]) == u;
      UrlAvoids(ids.initrds[i]);
    }
  }

  lemma CommandLine(cmdline: bytes)
    ensures Split([SPACE] + (cmdline + [NEWLINE]), NEWLINE)[0] == [SPACE] + UpTo(cmdline, NEWLINE)
  {
    SplitFront([SPACE], cmdline + [NEWLINE], NEWLINE);
    UpToEnded(cmdline, NEWLINE);
  }

  /** The page, line by line: an empty line, the banner with "SAY " in front of each of its lines, and
      the four directives. */
  lemma PageLines(banner: bytes, ids: Spec)
    ensures var lines, said := Split(ConfigFor(banner, ids), 10), Split(banner, 10);
            var n := 1 + |said|;
            && n + 3 < |lines| && lines[0] == []
            && (forall i | 0 <= i < |said| :: lines[1 + i] == Ascii("SAY ") + said[i])
            && lines[n] == Ascii("DEFAULT linux") && lines[n + 1] == Ascii("LABEL linux")
            && lines[n + 2] == Ascii("LINUX ") + Url(ids.kernel)
            && lines[n + 3] == Ascii("APPEND initrd=") + Join(Urls(ids.initrds), 44) + [32] + UpTo(ids.cmdline, 10)
  {
    var s := Spec(Url(ids.kernel), Urls(ids.initrds), ids.cmdline);
    UrlsAvoid(ids);
    var printed := ConfigLines(banner, s);
    CommandLine(s.cmdline);
    var front := APPEND + Join(s.initrds, COMMA);
    Assoc(front, [SPACE], UpTo(s.cmdline, NEWLINE));
    var directives := DirectiveLines(s);
    assert directives[3] == front + ([SPACE] + UpTo(s.cmdline, NEWLINE));
    var said, n := Split(banner, 10), |printed|;
    forall i | 0 <= i < |said| ensures printed[1 + i] == SAY + said[i] {
      assert printed[1 + i] == Said(said)[i];
    }
    assert forall i | 0 <= i < 4 :: (printed + directives)[n + i] == directives[i];
  }
}
