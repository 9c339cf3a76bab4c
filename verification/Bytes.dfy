/** Machine integers, byte strings and the few C library scans the protocol code relies on. */
module Bytes {

  type byte = x: int | 0 <= x < 0x100
  type u16 = x: int | 0 <= x < 0x1_0000
  type u32 = x: int | 0 <= x < 0x1_0000_0000
  type bytes = seq<byte>

  datatype Option<+T> = None | Some(value: T)

  /** Conversion of a C `int` to `unsigned short`. */
  function Trunc16(x: int): u16 {
    x % 0x1_0000
  }

  /** Conversion of a C `int` to `unsigned int`. */
  function Trunc32(x: int): u32 {
    x % 0x1_0000_0000
  }

  /** Conversion to `unsigned char`, which is also what masking with 0xff does. */
  function Trunc8(x: int): byte {
    x % 0x100
  }

  /** The union cast of a little-endian core: low byte first. */
  function Le16(v: u16): (s: bytes)
    ensures |s| == 2
  {
    [v % 0x100, v / 0x100]
  }

  function FromLe16(lo: byte, hi: byte): u16 {
    lo + 0x100 * hi
  }

  /** The first index of `b` in `s`, or `|s|`: memchr over a byte range. */
  function Find(s: bytes, b: byte): (i: nat)
    ensures i <= |s| && b !in s[..i]
    ensures i < |s| ==> s[i] == b
  {
    if s == [] then 0
    else if s[0] == b then 0
    else
      var i := Find(s[1..], b);
      assert s[..1 + i] == [s[0]] + s[1..][..i];
      1 + i
  }

  /** The position of the first terminator is fixed by what precedes it. */
  lemma FindIs(s: bytes, b: byte, i: nat)
    requires i < |s| && s[i] == b && b !in s[..i]
    ensures Find(s, b) == i
  {
    assert forall k :: 0 <= k < i ==> s[..i][k] != b;
    var j := Find(s, b);
    assert forall k :: 0 <= k < j ==> s[..j][k] != b;
  }

  function Zeros(n: nat): (s: bytes)
    ensures |s| == n
    ensures forall i :: 0 <= i < n ==> s[i] == 0
  {
    seq(n, _ => 0)
  }

  /** A memory after `src` has been copied into it. */
  function Splice(s: bytes, at: nat, src: bytes): (r: bytes)
    requires at + |src| <= |s|
    ensures |r| == |s|
  {
    s[..at] + src + s[at + |src|..]
  }

  function Min(a: int, b: int): int {
    if a <= b then a else b
  }

  /** All pieces one after the other. */
  function Concat(pieces: seq<bytes>): bytes {
    if pieces == [] then [] else pieces[0] + Concat(pieces[1..])
  }

  lemma {:induction false} ConcatAppend(a: seq<bytes>, b: seq<bytes>)
    ensures Concat(a + b) == Concat(a) + Concat(b)
  {
    if a == [] {
      assert a + b == b;
    } else {
      assert (a + b)[1..] == a[1..] + b;
      ConcatAppend(a[1..], b);
    }
  }

  lemma ConcatSnoc(a: seq<bytes>, x: bytes)
    ensures Concat(a + [x]) == Concat(a) + x
  {
    ConcatAppend(a, [x]);
    assert Concat([x]) == x + Concat([]);
  }
}
