/** atoi on byte strings, and the decimal text it reads back. */
module Decimal {
  import opened Bytes

  const INT_MAX := 0x7FFF_FFFF
  const INT_MIN := -0x8000_0000
  const ZERO: byte := 0x30
  const MINUS: byte := 0x2d
  const PLUS: byte := 0x2b

  predicate IsDigit(b: byte) {
    ZERO <= b < ZERO + 10
  }

  predicate IsSpace(b: byte) {
    b == 0x20 || 0x09 <= b <= 0x0d
  }

  /** The digits at the front of `s`, appended to the number `acc`. */
  function Value(s: bytes, acc: nat): nat
    decreases |s|
  {
    if s == [] || !IsDigit(s[0]) then acc else Value(s[1..], 10 * acc + (s[0] - ZERO))
  }

  function SkipSpace(s: bytes): bytes {
    if s == [] || !IsSpace(s[0]) then s else SkipSpace(s[1..])
  }

  /** atoi: spaces, a sign, digits up to the first other byte, clamped to an int. */
  function Atoi(s: bytes): (n: int)
    ensures INT_MIN <= n <= INT_MAX
  {
    var t := SkipSpace(s);
    if t != [] && t[0] == MINUS then -Min(Value(t[1..], 0), -INT_MIN)
    else Min(Value(if t != [] && t[0] == PLUS then t[1..] else t, 0), INT_MAX)
  }

  /** The decimal text of a number. */
  function Text(n: nat): (s: bytes)
    ensures s != [] && forall b :: b in s ==> IsDigit(b)
  {
    if n < 10 then [ZERO + n] else Text(n / 10) + [ZERO + n % 10]
  }

  lemma {:induction false} ValueOfText(n: nat, rest: bytes)
    ensures Value(Text(n) + rest, 0) == Value(rest, n)
    decreases n
  {
    if n < 10 {
      assert ([ZERO + n] + rest)[1..] == rest;
    } else {
      var d: bytes := [ZERO + n % 10];
      assert Text(n) + rest == Text(n / 10) + (d + rest);
      ValueOfText(n / 10, d + rest);
      assert (d + rest)[1..] == rest;
    }
  }

  /** Text is read back exactly, whatever follows its end. */
  lemma AtoiOfText(n: nat, rest: bytes)
    requires n <= INT_MAX && (rest == [] || !IsDigit(rest[0]))
    ensures Atoi(Text(n) + rest) == n
  {
    ValueOfText(n, rest);
    assert (Text(n) + rest)[0] == Text(n)[0];
  }

  lemma {:induction false} ValueStops(s: bytes, t: bytes, acc: nat)
    requires t == [] || !IsDigit(t[0])
    ensures Value(s + t, acc) == Value(s, acc)
    decreases |s|
  {
    if s == [] {
      assert s + t == t;
    } else if IsDigit(s[0]) {
      assert (s + t)[1..] == s[1..] + t;
      ValueStops(s[1..], t, 10 * acc + (s[0] - ZERO));
    }
  }

  lemma {:induction false} SpaceSkipped(s: bytes, t: bytes)
    requires t == [] || !IsSpace(t[0])
    ensures SkipSpace(s + t) == SkipSpace(s) + t
    decreases |s|
  {
    if s == [] {
      assert s + t == t;
    } else if IsSpace(s[0]) {
      assert (s + t)[1..] == s[1..] + t;
      SpaceSkipped(s[1..], t);
    }
  }

  /** What is read of a string does not depend on what is behind its terminator. */
  lemma AtoiStops(text: bytes, rest: bytes)
    ensures Atoi(text + ([0] + rest)) == Atoi(text)
  {
    var behind, t := [0] + rest, SkipSpace(text);
    SpaceSkipped(text, behind);
    if t != [] {
      assert (t + behind)[1..] == t[1..] + behind;
      ValueStops(t[1..], behind, 0);
    }
    ValueStops(t, behind, 0);
  }

  /** Any spaces, at most one sign, then the text of a number: that number with that sign, clamped. */
  lemma AtoiOfSigned(spaces: bytes, sign: bytes, n: nat, rest: bytes)
    requires (forall b :: b in spaces ==> b == 0x20 || 9 <= b <= 13) && sign in {[], [0x2d], [0x2b]}
    requires rest == [] || !(0x30 <= rest[0] <= 0x39)
    ensures Atoi(spaces + (sign + (Text(n) + rest))) ==
            if sign == [0x2d] then -Min(n, 0x8000_0000) else Min(n, 0x7FFF_FFFF)
  {
    var digits := Text(n) + rest;
    var t := sign + digits;
    assert IsDigit(Text(n)[0]) && digits[0] == Text(n)[0];
    assert !IsSpace(t[0]);
    AllSpaces(spaces);
    SpaceSkipped(spaces, t);
    assert [] + t == t;
    ValueOfText(n, rest);
    if sign == [] {
      assert t == digits;
    } else {
      assert t[1..] == digits;
    }
  }

  lemma {:induction false} AllSpaces(spaces: bytes)
    requires forall b :: b in spaces ==> IsSpace(b)
    ensures SkipSpace(spaces) == []
    decreases |spaces|
  {
    if spaces != [] {
      AllSpaces(spaces[1..]);
    }
  }
}
