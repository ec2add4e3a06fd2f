/** The fixed part of BOOTP replies (section 2 of RFC 2131) and the way the servers fill it in. */
module Bootp {
  import opened Bytes

  const HEADER_SIZE := 236

  /** The effect of Go's copy: as much of `src` as fits, from index `at` on. */
  function Overlay(base: bytes, at: nat, src: bytes): (r: bytes)
    requires at <= |base|
    ensures |r| == |base|
  {
    var n := Min(|base| - at, |src|);
    base[..at] + src[..n] + base[at + n..]
  }

  method CopyAt(dst: array<byte>, at: nat, src: bytes)
    requires at <= dst.Length
    modifies dst
    ensures dst[..] == Overlay(old(dst[..]), at, src)
  {
    var n := Min(dst.Length - at, |src|);
    for i := 0 to n
      invariant dst[..at] == old(dst[..at])
      invariant dst[at..at + i] == src[..i]
      invariant dst[at + i..] == old(dst[at + i..])
    {
      dst[at + i] := src[i];
      assert dst[at..at + i + 1] == dst[at..at + i] + [src[i]];
    }
    assert src[..n] == dst[at..at + n];
    assert dst[..] == dst[..at] + dst[at..at + n] + dst[at + n..];
    assert old(dst[..])[..at] == old(dst[..at]);
    assert old(dst[..])[at + n..] == old(dst[at + n..]);
  }

  /** A reply (2) over Ethernet (1) with 6-byte addresses and the broadcast flag set. */
  method ReplyHeader() returns (bootp: array<byte>)
    ensures fresh(bootp) && bootp[..] == [2, 1, 6, 0] + Zeros(4) + [0, 0, 128, 0] + Zeros(224)
  {
    bootp := new byte[HEADER_SIZE](_ => 0);
    bootp[0] := 2;
    bootp[1] := 1;
    bootp[2] := 6;
    bootp[10] := 128;
  }

  /** Copying over exactly one of the parts a byte string consists of. */
  lemma OverlayPart(before: bytes, part: bytes, after: bytes, src: bytes)
    requires |src| == |part|
    ensures Overlay(before + part + after, |before|, src) == before + src + after
  {
    var base := before + part + after;
    assert base[..|before|] == before;
    assert base[|before| + |part|..] == after;
    assert src[..|src|] == src;
  }

  /** The parts of a packet: fixed part, magic number, options. */
  lemma PacketParts(header: bytes, magic: bytes, area: bytes)
    requires |header| == HEADER_SIZE && |magic| == 4
    ensures var p := header + magic + area;
            |p| == 240 + |area| && p[..236] == header && p[236..240] == magic && p[240..] == area
  {
  }
}
