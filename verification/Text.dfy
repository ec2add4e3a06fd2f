/** Splitting and joining text, and the last element of a path. */
module Text {
  import opened Bytes

  /** The pieces between separators; always at least one. */
  function Split(s: bytes, sep: byte): (parts: seq<bytes>)
    ensures parts != []
  {
    if s == [] then [[]]
    else
      var rest := Split(s[1..], sep);
      if s[0] == sep then [[]] + rest else [[s[0]] + rest[0]] + rest[1..]
  }

  function Join(parts: seq<bytes>, sep: byte): bytes {
    if parts == [] then []
    else if |parts| == 1 then parts[0]
    else parts[0] + ([sep] + Join(parts[1..], sep))
  }

  /** Text without separators goes in front of the first piece. */
  lemma {:induction false} SplitFront(x: bytes, y: bytes, sep: byte)
    requires sep !in x
    ensures Split(x + y, sep) == [x + Split(y, sep)[0]] + Split(y, sep)[1..]
  {
    if x == [] {
      assert x + y == y;
      assert x + Split(y, sep)[0] == Split(y, sep)[0];
    } else {
      assert (x + y)[1..] == x[1..] + y;
      assert x[0] in x;
      SplitFront(x[1..], y, sep);
      assert [x[0]] + (x[1..] + Split(y, sep)[0]) == x + Split(y, sep)[0];
    }
  }

  /** A separator after text that has none ends the first piece. */
  lemma SplitPiece(x: bytes, y: bytes, sep: byte)
    requires sep !in x
    ensures Split(x + ([sep] + y), sep) == [x] + Split(y, sep)
  {
    SplitFront(x, [sep] + y, sep);
    assert ([sep] + y)[1..] == y;
    assert x + [] == x;
  }

  lemma SplitWhole(x: bytes, sep: byte)
    requires sep !in x
    ensures Split(x, sep) == [x]
  {
    SplitFront(x, [], sep);
    assert x + [] == x;
  }

  /** Splitting undoes joining, unless there was nothing to join. */
  lemma {:induction false} SplitJoin(parts: seq<bytes>, sep: byte)
    requires parts != [] && forall p <- parts :: sep !in p
    ensures Split(Join(parts, sep), sep) == parts
  {
    assert parts[0] in parts;
    if |parts| == 1 {
      SplitWhole(parts[0], sep);
    } else {
      SplitPiece(parts[0], Join(parts[1..], sep), sep);
      SplitJoin(parts[1..], sep);
    }
  }

  lemma {:induction false} JoinAvoids(parts: seq<bytes>, sep: byte, c: byte)
    requires c != sep && forall p <- parts :: c !in p
    ensures c !in Join(parts, sep)
  {
    if parts != [] {
      assert parts[0] in parts;
      if 1 < |parts| {
        JoinAvoids(parts[1..], sep, c);
      }
    }
  }

  /** The text before the first occurrence of a character, or all of it. */
  function UpTo(s: bytes, c: byte): bytes {
    Split(s, c)[0]
  }

  /** The text after the first occurrence of a character, if there is one. */
  function After(s: bytes, c: byte): bytes {
    if s == [] then [] else if s[0] == c then s[1..] else After(s[1..], c)
  }

  lemma {:induction false} AfterPiece(x: bytes, y: bytes, c: byte)
    requires c !in x
    ensures After(x + ([c] + y), c) == y
  {
    var s := x + ([c] + y);
    if x == [] {
      assert s[1..] == y;
    } else {
      assert x[0] in x && s[1..] == x[1..] + ([c] + y);
      AfterPiece(x[1..], y, c);
    }
  }

  /** The first piece has no separator in it, and is everything exactly if there is none at all. */
  lemma {:induction false} UpToExactly(s: bytes, c: byte)
    ensures c !in UpTo(s, c) && UpTo(s, c) <= s
    ensures UpTo(s, c) == s <==> c !in s
  {
    if s != [] && s[0] != c {
      UpToExactly(s[1..], c);
      assert UpTo(s, c) == [s[0]] + UpTo(s[1..], c);
      assert s == [s[0]] + s[1..];
      assert [s[0]] + UpTo(s[1..], c) == [s[0]] + s[1..] ==> UpTo(s[1..], c) == s[1..] by {
        assert ([s[0]] + UpTo(s[1..], c))[1..] == UpTo(s[1..], c) && ([s[0]] + s[1..])[1..] == s[1..];
      }
    }
  }

  /** A separator at the end does not change the first piece. */
  lemma {:induction false} UpToEnded(s: bytes, c: byte)
    ensures UpTo(s + [c], c) == UpTo(s, c)
  {
    if s == [] {
      assert s + [c] == [c];
      assert [c][1..] == [];
    } else {
      assert (s + [c])[1..] == s[1..] + [c];
      UpToEnded(s[1..], c);
    }
  }

  const SLASH: byte := 47

  function TrimSlashes(p: bytes): bytes {
    if p != [] && p[|p| - 1] == SLASH then TrimSlashes(p[..|p| - 1]) else p
  }

  /** The last element of a path, trailing slashes aside. */
  function Base(p: bytes): bytes {
    if p == [] then [46]
    else
      var t := TrimSlashes(p);
      if t == [] then [SLASH] else var parts := Split(t, SLASH); parts[|parts| - 1]
  }

  lemma {:induction false} LastPiece(dir: bytes, name: bytes)
    requires SLASH !in name
    ensures var parts := Split(dir + ([SLASH] + name), SLASH); parts[|parts| - 1] == name
  {
    if dir == [] {
      SplitPiece([], name, SLASH);
      SplitWhole(name, SLASH);
      assert dir + ([SLASH] + name) == [] + ([SLASH] + name);
    } else {
      assert (dir + ([SLASH] + name))[1..] == dir[1..] + ([SLASH] + name);
      LastPiece(dir[1..], name);
      LastPieceLonger(dir[1..], name);
    }
  }

  /** A path with a slash in it has more than one piece. */
  lemma {:induction false} LastPieceLonger(dir: bytes, name: bytes)
    ensures 2 <= |Split(dir + ([SLASH] + name), SLASH)|
  {
    if dir == [] {
      assert dir + ([SLASH] + name) == [SLASH] + name;
      assert ([SLASH] + name)[1..] == name;
    } else {
      assert (dir + ([SLASH] + name))[1..] == dir[1..] + ([SLASH] + name);
      LastPieceLonger(dir[1..], name);
    }
  }

  /** The last element of every path: "." for the empty one, "/" if there are only slashes, and otherwise
      what stands between the last slash and the slashes at the end. */
  lemma BaseExactly(p: bytes) returns (dir: bytes, name: bytes, n: nat)
    ensures p == dir + name + Repeat(47, n)
    ensures 47 !in name && (dir == [] || dir[|dir| - 1] == 47) && (name == [] ==> dir == [])
    ensures Base(p) == if p == [] then [46] else if name == [] then [47] else name
  {
    n := TrimCount(p);
    var t := TrimSlashes(p);
    dir, name := [], [];
    if t != [] {
      dir, name := LastElement(t);
    }
  }

  lemma {:induction false} TrimCount(p: bytes) returns (n: nat)
    ensures var t := TrimSlashes(p);
            p == t + Repeat(47, n) && (t == [] || t[|t| - 1] != 47)
  {
    n := 0;
    if p != [] && p[|p| - 1] == SLASH {
      var front := p[..|p| - 1];
      n := TrimCount(front);
      RepeatEnd(n);
      Assoc(TrimSlashes(front), Repeat(47, n), [47]);
      assert p == front + [47];
      n := n + 1;
    } else {
      assert p + [] == p;
    }
  }

  lemma {:induction false} RepeatEnd(n: nat)
    ensures Repeat<byte>(47, n) + [47] == Repeat<byte>(47, n + 1)
  {
  }

  lemma {:induction false} LastElement(t: bytes) returns (dir: bytes, name: bytes)
    ensures t == dir + name && 47 !in name && (dir == [] || dir[|dir| - 1] == 47)
    ensures var parts := Split(t, SLASH); parts[|parts| - 1] == name && (|parts| == 1 <==> dir == [])
  {
    if t == [] {
      dir, name := [], [];
    } else {
      dir, name := LastElement(t[1..]);
      assert t == [t[0]] + t[1..];
      if dir == [] && t[0] != SLASH {
        name := [t[0]] + name;
      } else {
        assert dir != [] ==> ([t[0]] + dir)[|dir|] == dir[|dir| - 1];
        dir := [t[0]] + dir;
      }
    }
  }

  lemma BaseOf(dir: bytes, name: bytes)
    requires name != [] && SLASH !in name
    ensures Base(dir + ([SLASH] + name)) == name
  {
    var p := dir + ([SLASH] + name);
    assert p[|p| - 1] == name[|name| - 1] && name[|name| - 1] in name;
    LastPiece(dir, name);
  }
}
