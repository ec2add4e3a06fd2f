/** Decimal text of Go's 64-bit int: strconv.Itoa, strconv.Atoi and fmt's %d. */
module Decimal {
  import opened Bytes

  const MAX_INT := 0x7fff_ffff_ffff_ffff
  const MINUS: byte := 45
  const PLUS: byte := 43

  predicate IsDigit(c: byte) {
    48 <= c <= 57
  }

  predicate AllDigits(s: bytes) {
    forall i | 0 <= i < |s| :: IsDigit(s[i])
  }

  function Digits(n: nat): (s: bytes)
    ensures 0 < |s| && AllDigits(s)
  {
    if n < 10 then [48 + n] else Digits(n / 10) + [48 + n % 10]
  }

  function Itoa(n: int): (s: bytes)
    ensures 0 < |s| && forall i | 0 <= i < |s| :: IsDigit(s[i]) || s[i] == MINUS
  {
    if n < 0 then [MINUS] + Digits(-n) else Digits(n)
  }

  function Value(s: bytes): nat
    requires AllDigits(s)
  {
    if s == [] then 0 else 10 * Value(s[..|s| - 1]) + (s[|s| - 1] - 48)
  }

  /** An optional sign, at least one digit, and a value that fits in 64 bits. */
  function Atoi(s: bytes): Option<int> {
    var signed := 0 < |s| && (s[0] == MINUS || s[0] == PLUS);
    var digits := if signed then s[1..] else s;
    if digits == [] || !AllDigits(digits) then None
    else
      var v: int := if signed && s[0] == MINUS then -(Value(digits) as int) else Value(digits);
      if -MAX_INT - 1 <= v <= MAX_INT then Some(v) else None
  }

  lemma {:induction false} ValueDigits(n: nat)
    ensures Value(Digits(n)) == n
  {
    if 10 <= n {
      ValueDigits(n / 10);
      assert Digits(n)[..|Digits(n)| - 1] == Digits(n / 10);
    } else {
      assert Digits(n)[..0] == [];
    }
  }

  /** Every 64-bit int survives being printed and read back. */
  lemma AtoiItoa(n: int)
    requires -MAX_INT - 1 <= n <= MAX_INT
    ensures Atoi(Itoa(n)) == Some(n)
  {
    if n < 0 {
      ValueDigits(-n);
      assert Itoa(n)[1..] == Digits(-n);
    } else {
      ValueDigits(n);
      assert IsDigit(Itoa(n)[0]);
    }
  }

  function Pow10(k: nat): nat {
    if k == 0 then 1 else 10 * Pow10(k - 1)
  }

  lemma {:induction false} DigitsLength(n: nat, k: nat)
    requires 0 < k && n < Pow10(k)
    ensures |Digits(n)| <= k
  {
    if 10 <= n {
      DigitsLength(n / 10, k - 1);
    }
  }

  lemma Pow10Nineteen()
    ensures Pow10(3) == 1000 && Pow10(19) == 10_000_000_000_000_000_000
  {
    assert Pow10(3) == 1000;
    assert Pow10(6) == 1_000_000;
    assert Pow10(9) == 1_000_000_000;
    assert Pow10(12) == 1_000_000_000_000;
    assert Pow10(15) == 1_000_000_000_000_000;
    assert Pow10(18) == 1_000_000_000_000_000_000;
  }

  /** No 64-bit int takes more than twenty characters. */
  lemma ItoaLength(n: int)
    requires -MAX_INT - 1 <= n <= MAX_INT
    ensures |Itoa(n)| <= 20
    ensures 0 <= n < 1000 ==> |Itoa(n)| <= 3
  {
    Pow10Nineteen();
    DigitsLength(if n < 0 then -n else n, 19);
    if 0 <= n < 1000 {
      DigitsLength(n, 3);
    }
  }

  // ---- Which texts are read as a number -----------------------------------------------------

  /** The digits of a number, possibly with zeros in front. */
  predicate PaddedDigits(d: bytes, n: nat) {
    |Digits(n)| <= |d| && d == Repeat(48, |d| - |Digits(n)|) + Digits(n)
  }

  /** A numeral for a 64-bit int: its digits, with any zeros and a fitting sign in front. */
  predicate Numeral(s: bytes, n: int) {
    && -MAX_INT - 1 <= n <= MAX_INT
    && (|| (0 <= n && PaddedDigits(s, n))
        || (0 <= n && s != [] && s[0] == 43 && PaddedDigits(s[1..], n))
        || (n <= 0 && s != [] && s[0] == 45 && PaddedDigits(s[1..], -n)))
  }

  lemma {:induction false} ValuePadded(z: nat, x: bytes)
    requires AllDigits(x)
    ensures AllDigits(Repeat(48, z) + x) && Value(Repeat(48, z) + x) == Value(x)
    decreases z + |x|
  {
    var s := Repeat(48, z) + x;
    if x != [] {
      assert s[..|s| - 1] == Repeat(48, z) + x[..|x| - 1];
      ValuePadded(z, x[..|x| - 1]);
    } else if 0 < z {
      RepeatSplit(z);
      var front: bytes := Repeat(48, z - 1);
      assert s == front + [48];
      assert s[..|s| - 1] == front && front + [] == front;
      ValuePadded(z - 1, []);
    }
  }

  lemma RepeatSplit(z: nat)
    requires 0 < z
    ensures Repeat<byte>(48, z) == Repeat<byte>(48, z - 1) + [48]
  {
  }

  lemma {:induction false} DigitsOfValue(d: bytes)
    requires d != [] && AllDigits(d)
    ensures PaddedDigits(d, Value(d))
  {
    var n, front, last := Value(d), d[..|d| - 1], d[|d| - 1];
    assert d == front + [last];
    assert IsDigit(last);
    if front == [] {
      assert d[..|d| - 1] == [] && n == last - 48;
      assert Digits(n) == [last];
    } else {
      DigitsOfValue(front);
      if n < 10 {
        assert Value(front) == 0 && Digits(n) == [last];
        RepeatSplit(|front|);
        assert front == Repeat(48, |front|);
      } else {
        assert Digits(n) == Digits(Value(front)) + [last];
        Assoc(Repeat(48, |front| - |Digits(Value(front))|), Digits(Value(front)), [last]);
      }
    }
  }

  lemma PaddedDigitsExactly(d: bytes, n: nat)
    ensures PaddedDigits(d, n) <==> d != [] && AllDigits(d) && Value(d) == n
  {
    if PaddedDigits(d, n) {
      ValuePadded(|d| - |Digits(n)|, Digits(n));
      ValueDigits(n);
    }
    if d != [] && AllDigits(d) {
      DigitsOfValue(d);
    }
  }

  /** A text is read as a number if and only if it is a numeral for it. */
  lemma AtoiExactly(s: bytes, n: int)
    ensures Atoi(s) == Some(n) <==> Numeral(s, n)
  {
    var m := if n < 0 then -n else n;
    PaddedDigitsExactly(s, m);
    if s != [] && (s[0] == MINUS || s[0] == PLUS) {
      assert !AllDigits(s) by {
        assert !IsDigit(s[0]);
      }
      PaddedDigitsExactly(s[1..], m);
    }
  }
}
