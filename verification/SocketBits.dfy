/** One bit per socket in a 16-bit word, as sock_io_mode and sock_is_sending are kept. */
module SocketBits {
  import opened Bytes

  const SOCK_NUM := 8

  /** `(w >> sn) & 1`. */
  predicate Bit(w: nat, sn: nat) {
    if sn == 0 then w % 2 == 1 else Bit(w / 2, sn - 1)
  }

  /** `w | (1 << sn)`. */
  function Set(w: nat, sn: nat): nat {
    if sn == 0 then w - w % 2 + 1 else w % 2 + 2 * Set(w / 2, sn - 1)
  }

  /** `w & ~(1 << sn)`. */
  function Clear(w: nat, sn: nat): (r: nat)
    ensures r <= w
  {
    if sn == 0 then w - w % 2 else w % 2 + 2 * Clear(w / 2, sn - 1)
  }

  function Pow2(n: nat): (p: nat)
    ensures p > 0
  {
    if n == 0 then 1 else 2 * Pow2(n - 1)
  }

  /** A bit is the binary digit of its weight. */
  lemma {:induction false} DigitIs(w: nat, sn: nat, high: nat, digit: nat, low: nat)
    requires digit < 2 && low < Pow2(sn) && w == Pow2(sn) * (2 * high + digit) + low
    ensures Bit(w, sn) <==> digit == 1
    decreases sn
  {
    var y := 2 * high + digit;
    if sn > 0 {
      var p := Pow2(sn - 1);
      TwiceTimes(p, y);
      DigitIs(w / 2, sn - 1, high, digit, low / 2);
    }
  }

  /** So a bit is what division by its weight leaves odd. */
  lemma BitIs(w: nat, sn: nat)
    ensures Bit(w, sn) <==> w / Pow2(sn) % 2 == 1
  {
    var p := Pow2(sn);
    var q := w / p;
    assert w == p * q + w % p && q == 2 * (q / 2) + q % 2;
    DigitIs(w, sn, q / 2, q % 2, w % p);
  }

  lemma TwiceTimes(p: nat, y: nat)
    ensures 2 * p * y == 2 * (p * y)
  {
  }

  /** Setting a socket's bit sets that bit and no other. */
  lemma {:induction false} SetBit(w: nat, a: nat, b: nat)
    ensures Bit(Set(w, a), b) <==> a == b || Bit(w, b)
    decreases b
  {
    if a > 0 && b > 0 {
      SetBit(w / 2, a - 1, b - 1);
    }
  }

  /** Clearing a socket's bit clears that bit and no other. */
  lemma {:induction false} ClearBit(w: nat, a: nat, b: nat)
    ensures Bit(Clear(w, a), b) <==> a != b && Bit(w, b)
    decreases b
  {
    if a > 0 && b > 0 {
      ClearBit(w / 2, a - 1, b - 1);
    }
  }

  /** Both change the word by the weight of the bit, or not at all. */
  lemma {:induction false} SetAndClearValue(w: nat, a: nat)
    ensures Set(w, a) == w + (if Bit(w, a) then 0 else Pow2(a))
    ensures Clear(w, a) == w - (if Bit(w, a) then Pow2(a) else 0)
  {
    if a > 0 {
      SetAndClearValue(w / 2, a - 1);
    }
  }

  lemma {:induction false} SetFits(w: nat, a: nat, width: nat)
    requires a < width && w < Pow2(width)
    ensures Set(w, a) < Pow2(width)
    decreases a
  {
    if a > 0 {
      SetFits(w / 2, a - 1, width - 1);
    }
  }

  /** A socket's bit fits the 16-bit word. */
  lemma SetFits16(w: u16, a: nat)
    requires a < SOCK_NUM
    ensures Set(w, a) < 0x1_0000
  {
    assert Pow2(4) == 16 && Pow2(8) == 0x100;
    assert Pow2(12) == 16 * Pow2(8) && Pow2(16) == 16 * Pow2(12);
    SetFits(w, a, 16);
  }

  datatype BitOp = SetOp(sn: nat) | ClearOp(sn: nat)

  /** The word after a run of updates for any sockets. */
  function RunOps(w: nat, ops: seq<BitOp>): nat
    decreases |ops|
  {
    if ops == [] then w
    else RunOps(if ops[0].SetOp? then Set(w, ops[0].sn) else Clear(w, ops[0].sn), ops[1..])
  }

  /** What a boolean kept for one socket alone would be. */
  function RunAlone(b: bool, ops: seq<BitOp>, sn: nat): bool
    decreases |ops|
  {
    if ops == [] then b
    else RunAlone(if ops[0].sn == sn then ops[0].SetOp? else b, ops[1..], sn)
  }

  /** The word is independent booleans: over any run of updates each bit is what a boolean kept
      for its socket alone would be. */
  lemma {:induction false} WordIsIndependentBits(w: nat, ops: seq<BitOp>, sn: nat)
    ensures Bit(RunOps(w, ops), sn) == RunAlone(Bit(w, sn), ops, sn)
    decreases |ops|
  {
    if ops != [] {
      SetBit(w, ops[0].sn, sn);
      ClearBit(w, ops[0].sn, sn);
      WordIsIndependentBits(if ops[0].SetOp? then Set(w, ops[0].sn) else Clear(w, ops[0].sn), ops[1..], sn);
    }
  }
}
