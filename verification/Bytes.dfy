/** Byte strings and the few operations on them that every component shares. */
module Bytes {
  type byte = x: int | 0 <= x < 256
  type bytes = seq<byte>

  datatype Option<+T> = None | Some(value: T)
  datatype Result<+T, +E> = Ok(value: T) | Err(error: E)

  function Min(a: int, b: int): int {
    if a <= b then a else b
  }

  /** The bytes of an ASCII literal. */
  function Ascii(s: string): (b: bytes)
    ensures |b| == |s|
    ensures forall i | 0 <= i < |s| :: b[i] == s[i] as int % 256
  {
    seq(|s|, i requires 0 <= i < |s| => s[i] as int % 256)
  }

  /** Big-endian 16-bit numbers. */
  function Put16(n: nat): (b: bytes)
    requires n < 65536
    ensures |b| == 2
  {
    [n / 256, n % 256]
  }

  function Get16(b: bytes): (n: nat)
    requires |b| >= 2
    ensures n < 65536
  {
    b[0] as int * 256 + b[1] as int
  }

  function Zeros(n: nat): (b: bytes)
    ensures |b| == n
    ensures forall i | 0 <= i < n :: b[i] == 0
  {
    seq(n, _ => 0)
  }

  function Repeat<T>(x: T, n: nat): (s: seq<T>)
    ensures |s| == n
    ensures forall i | 0 <= i < n :: s[i] == x
  {
    if n == 0 then [] else [x] + Repeat(x, n - 1)
  }

  function Flatten(parts: seq<bytes>): bytes {
    if parts == [] then [] else parts[0] + Flatten(parts[1..])
  }

  lemma {:induction false} FlattenSnoc(parts: seq<bytes>, last: bytes)
    ensures Flatten(parts + [last]) == Flatten(parts) + last
  {
    if parts != [] {
      assert (parts + [last])[1..] == parts[1..] + [last];
      FlattenSnoc(parts[1..], last);
      assert Flatten(parts + [last]) == parts[0] + (Flatten(parts[1..]) + last);
    } else {
      assert Flatten([last]) == last + Flatten([]);
    }
  }

  /** A prefix of the parts flattens to a prefix of the whole. */
  lemma {:induction false} FlattenPrefix(parts: seq<bytes>, k: nat)
    requires k <= |parts|
    ensures Flatten(parts[..k]) <= Flatten(parts)
  {
    if 0 < k {
      FlattenPrefix(parts[1..], k - 1);
      assert parts[..k][1..] == parts[1..][..k - 1];
    }
  }

  lemma Assoc(a: bytes, b: bytes, c: bytes)
    ensures (a + b) + c == a + (b + c)
  {
  }

  lemma Assoc4(a: bytes, b: bytes, c: bytes, d: bytes)
    ensures a + (b + (c + d)) == a + b + c + d
  {
  }

  lemma Assoc5(a: bytes, b: bytes, c: bytes, d: bytes, e: bytes)
    ensures a + (b + (c + (d + e))) == a + b + c + d + e
  {
  }
}
