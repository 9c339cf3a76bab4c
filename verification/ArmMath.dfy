/**
 Two inlines of the signal-processing header: fixed-point linear interpolation and the circular
 buffer copies.
 */
module ArmMath {

  // ---------------------------------------------------------------------------------------
  // Interpolation.

  type q31 = y: int | -0x8000_0000 <= y < 0x8000_0000

  /** The table index in the upper twelve bits of a 12.20 number: an arithmetic shift. */
  function Index(x: q31): int {
    x / 0x10_0000
  }

  /** The lower twenty bits as a 1.31 fraction. */
  function Fract(x: q31): (f: int)
    ensures 0 <= f <= 0x7FFF_F800
  {
    x % 0x10_0000 * 0x800
  }

  /** A 64-bit product kept from bit 32 up: an arithmetic shift. */
  function HighWord(product: int): int {
    product / 0x1_0000_0000
  }

  /** Conversion of an unsigned 32-bit number to a signed one. */
  function Signed32(n: int): int
    requires 0 <= n < 0x1_0000_0000
  {
    if n < 0x8000_0000 then n else n - 0x1_0000_0000
  }

  /** The 2.30 sum before the final doubling. */
  function Blend(y0: q31, y1: q31, fract: int): int {
    HighWord(y0 * (0x7FFF_FFFF - fract)) + HighWord(y1 * fract)
  }

  /** arm_linear_interp_q31. Both table reads and the doubled result are in range by its type. */
  function LinearInterpQ31(table: seq<q31>, x: q31): q31
    requires 1 <= |table| < 0x1_0000_0000
  {
    if Index(x) >= Signed32(|table| - 1) then table[|table| - 1]
    else if Index(x) < 0 then table[0]
    else
      var y0, y1 := table[Index(x)], table[Index(x) + 1];
      BlendFits(y0, y1, Fract(x));
      2 * Blend(y0, y1, Fract(x))
  }

  lemma ProductBounds(y: q31, w: int)
    requires 0 <= w
    ensures -0x8000_0000 * w <= y * w <= 0x8000_0000 * w
  {
  }

  /** One product's share, for a weight w: no more than w/2, and no less than -w/2 rounded down. */
  lemma HighWordBounds(y: q31, w: int)
    requires 0 <= w
    ensures -w <= 2 * HighWord(y * w) + 1 && 2 * HighWord(y * w) <= w
  {
    ProductBounds(y, w);
  }

  /** The 32-bit sum and its doubling never overflow: the weights add up to an odd number, so only
      one of the two shares can be rounded down from a half. */
  lemma BlendFits(y0: q31, y1: q31, fract: int)
    requires 0 <= fract <= 0x7FFF_FFFF
    ensures -0x4000_0000 <= Blend(y0, y1, fract) < 0x4000_0000
  {
    HighWordBounds(y0, 0x7FFF_FFFF - fract);
    HighWordBounds(y1, fract);
  }

  /** A 12.20 number is its table index and its fraction. */
  lemma IndexAndFract(x: q31)
    ensures x == 0x10_0000 * Index(x) + Fract(x) / 0x800 && 0 <= Fract(x) < 0x8000_0000 && Fract(x) % 0x800 == 0
  {
    assert x == 0x10_0000 * (x / 0x10_0000) + x % 0x10_0000;
  }

  /** Main result: on segment `i` of the table, from its start at i * 2^20, the result is at most one unit
      above and less than five below the exact interpolation y0 + (y1 - y0) * (x - i * 2^20) / 2^20, here
      scaled by 2^31. */
  lemma InterpolationIsClose(table: seq<q31>, x: q31, i: nat)
    requires i + 1 < |table| <= 0x8000_0000 && 0x10_0000 * i <= x < 0x10_0000 * (i + 1)
    ensures var y0, y1, d := table[i], table[i + 1], x - 0x10_0000 * i;
            -0x8000_0000 <= 0x8000_0000 * y0 + (y1 - y0) * (0x800 * d) - 0x8000_0000 * LinearInterpQ31(table, x)
            < 5 * 0x8000_0000
  {
    assert x / 0x10_0000 == i;
    assert x % 0x10_0000 == x - 0x10_0000 * i;
    InterpolationError(table, x);
  }

  /** In terms of index and fraction. */
  lemma InterpolationError(table: seq<q31>, x: q31)
    requires 1 <= |table| < 0x1_0000_0000
    requires 0 <= Index(x) < Signed32(|table| - 1)
    ensures var y0, y1, f := table[Index(x)], table[Index(x) + 1], Fract(x);
            -0x8000_0000 <= 0x8000_0000 * y0 + (y1 - y0) * f - 0x8000_0000 * LinearInterpQ31(table, x) < 5 * 0x8000_0000
  {
    var y0, y1, f := table[Index(x)], table[Index(x) + 1], Fract(x);
    BlendFits(y0, y1, f);
    var p, q := y0 * (0x7FFF_FFFF - f), y1 * f;
    assert p == 0x1_0000_0000 * HighWord(p) + p % 0x1_0000_0000;
    assert q == 0x1_0000_0000 * HighWord(q) + q % 0x1_0000_0000;
    assert 0x8000_0000 * y0 + (y1 - y0) * f == p + q + y0 by {
      assert (y1 - y0) * f == y1 * f - y0 * f;
      assert y0 * (0x7FFF_FFFF - f) == 0x7FFF_FFFF * y0 - y0 * f;
    }
  }

  lemma ProductIsNonNegative(a: int, b: int)
    requires 0 <= a && 0 <= b
    ensures 0 <= a * b
  {
  }

  lemma WeightedIsBetween(lo: int, hi: int, w: int)
    requires lo <= hi && 0 <= w <= 0x8000_0000
    ensures 0 <= (hi - lo) * w <= 0x8000_0000 * (hi - lo)
  {
    ProductIsNonNegative(hi - lo, w);
    ProductIsNonNegative(hi - lo, 0x8000_0000 - w);
    assert (hi - lo) * (0x8000_0000 - w) == 0x8000_0000 * (hi - lo) - (hi - lo) * w;
  }

  /** So it lies between the two table values, but for those few units. */
  lemma NearNeighbours(table: seq<q31>, x: q31)
    requires 1 <= |table| < 0x1_0000_0000
    requires 0 <= Index(x) < Signed32(|table| - 1)
    ensures var y0, y1, y := table[Index(x)], table[Index(x) + 1], LinearInterpQ31(table, x);
            (if y0 <= y1 then y0 else y1) - 4 <= y <= (if y0 <= y1 then y1 else y0) + 1
  {
    var y0, y1, f := table[Index(x)], table[Index(x) + 1], Fract(x);
    InterpolationError(table, x);
    if y0 <= y1 {
      WeightedIsBetween(y0, y1, f);
    } else {
      WeightedIsBetween(y1, y0, f);
      assert (y1 - y0) * f == -((y0 - y1) * f);
    }
  }

  /** Outside the interior the table's end values are returned. */
  lemma OutsideIsClamped(table: seq<q31>, x: q31)
    requires 1 <= |table| <= 0x8000_0000
    ensures x >= 0x10_0000 * (|table| - 1) ==> LinearInterpQ31(table, x) == table[|table| - 1]
    ensures x < 0 && |table| > 1 ==> LinearInterpQ31(table, x) == table[0]
  {
    if x >= 0x10_0000 * (|table| - 1) {
      assert x / 0x10_0000 >= |table| - 1;
    }
  }

  // ---------------------------------------------------------------------------------------
  // Circular buffers.

  /** One step of a circular offset. */
  function Advance(off: int, inc: int, L: int): (next: int)
    requires 0 <= inc <= L && 0 <= off < L
    ensures 0 <= next < L
  {
    if off + inc >= L then off + inc - L else off + inc
  }

  function OffsetAfter(off: int, inc: int, L: int, n: nat): (next: int)
    requires 0 <= inc <= L && 0 <= off < L
    ensures 0 <= next < L
    decreases n
  {
    if n == 0 then off else OffsetAfter(Advance(off, inc, L), inc, L, n - 1)
  }

  /** The offset goes around the ring by the total increment. */
  lemma {:induction false} OffsetAfterIsModular(off: int, inc: int, L: int, n: nat)
    requires 0 <= inc <= L && 0 <= off < L
    ensures OffsetAfter(off, inc, L, n) == (off + n * inc) % L
    decreases n
  {
    if n == 0 {
      ModUnique(off, L, 0, off);
    } else {
      var next := Advance(off, inc, L);
      OffsetAfterIsModular(next, inc, L, n - 1);
      OneLapIsModular(off + inc, next, (n - 1) * inc, L);
      assert n * inc == (n - 1) * inc + inc;
    }
  }

  lemma OneLapIsModular(here: int, next: int, rest: int, L: int)
    requires L > 0 && (next == here || next == here - L)
    ensures (next + rest) % L == (here + rest) % L
  {
    var a := next + rest;
    assert a == L * (a / L) + a % L;
    if next == here - L {
      assert L * (a / L + 1) == L * (a / L) + L;
      ModUnique(here + rest, L, a / L + 1, a % L);
    }
  }

  lemma MultipleIsFar(L: int, d: int)
    requires L > 0
    ensures d > 0 ==> L * d >= L
    ensures d < 0 ==> L * d <= -L
  {
  }

  lemma ModUnique(x: int, L: int, q: int, r: int)
    requires L > 0 && x == L * q + r && 0 <= r < L
    ensures x % L == r
  {
    var d := x / L - q;
    assert x == L * (x / L) + x % L;
    assert L * d == L * (x / L) - L * q;
    MultipleIsFar(L, d);
  }

  /** The elements read with a stride are all there. */
  predicate InRange(src: seq<int>, at: int, inc: int, n: nat)
    decreases n
  {
    n == 0 || (0 <= at < |src| && InRange(src, at + inc, inc, n - 1))
  }

  /** The block a strided source supplies. */
  function Sampled(src: seq<int>, at: int, inc: int, n: nat): (block: seq<int>)
    requires InRange(src, at, inc, n)
    ensures |block| == n
    decreases n
  {
    if n == 0 then [] else [src[at]] + Sampled(src, at + inc, inc, n - 1)
  }

  lemma {:induction false} SampledAt(src: seq<int>, at: int, inc: int, n: nat, k: nat)
    requires InRange(src, at, inc, n) && k < n
    ensures 0 <= at + k * inc < |src| && Sampled(src, at, inc, n)[k] == src[at + k * inc]
    decreases n
  {
    if k > 0 {
      SampledAt(src, at + inc, inc, n - 1, k - 1);
      assert k * inc == (k - 1) * inc + inc;
    }
  }

  /** The ring after a block has been written from an offset on. */
  function Written(ring: seq<int>, L: int, off: int, inc: int, block: seq<int>): (r: seq<int>)
    requires 0 <= inc <= L <= |ring| && 0 <= off < L
    ensures |r| == |ring|
    decreases |block|
  {
    if block == [] then ring
    else Written(ring[off := block[0]], L, Advance(off, inc, L), inc, block[1..])
  }

  /** A 32-bit offset, which the sum with an increment must fit too. */
  type i32 = n: int | -0x8000_0000 <= n < 0x8000_0000

  /** arm_circularWrite_q15: the write offset is a 16-bit in-out parameter. */
  method CircularWriteQ15(ring: array<int>, L: int, writeOffset: int, bufferInc: int,
                          src: array<int>, at: int, srcInc: int, blockSize: nat) returns (offset: int)
    requires 0 <= bufferInc <= L <= ring.Length && L <= 0x1_0000 && 0 <= writeOffset < L
    requires ring != src && InRange(src[..], at, srcInc, blockSize)
    modifies ring
    ensures ring[..] == Written(old(ring[..]), L, writeOffset, bufferInc, Sampled(src[..], at, srcInc, blockSize))
    ensures 0 <= offset < L && offset == OffsetAfter(writeOffset, bufferInc, L, blockSize)
  {
    var wOffset, from, i := writeOffset, at, blockSize;
    while i > 0
      invariant 0 <= i <= blockSize && 0 <= wOffset < L
      invariant src[..] == old(src[..]) && InRange(src[..], from, srcInc, i)
      invariant Written(ring[..], L, wOffset, bufferInc, Sampled(src[..], from, srcInc, i)) ==
                Written(old(ring[..]), L, writeOffset, bufferInc, Sampled(src[..], at, srcInc, blockSize))
      invariant OffsetAfter(wOffset, bufferInc, L, i) == OffsetAfter(writeOffset, bufferInc, L, blockSize)
    {
      ghost var before, block := ring[..], Sampled(src[..], from, srcInc, i);
      ring[wOffset] := src[from];
      assert ring[..] == before[wOffset := block[0]];
      assert block[1..] == Sampled(src[..], from + srcInc, srcInc, i - 1);
      from := from + srcInc;
      var sum: i32 := wOffset + bufferInc;
      wOffset := sum;
      if wOffset >= L {
        wOffset := wOffset - L;
      }
      i := i - 1;
    }
    offset := wOffset % 0x1_0000;
  }

  /** The destination's position after one step: back to the base at its end. */
  function NextDst(d: int, inc: int, length: int): int {
    if d + inc == length then 0 else d + inc
  }

  /** The positions a read writes to are cells of the destination. */
  predicate DstInRange(size: int, d: int, inc: int, length: int, n: nat)
    decreases n
  {
    n == 0 || (0 <= d < size && DstInRange(size, NextDst(d, inc, length), inc, length, n - 1))
  }

  /** The destination after a block has been read from an offset on. */
  function ReadOut(dst: seq<int>, d: int, dstInc: int, length: int,
                   ring: seq<int>, L: int, off: int, inc: int, n: nat): (r: seq<int>)
    requires 0 <= inc <= L <= |ring| && 0 <= off < L && DstInRange(|dst|, d, dstInc, length, n)
    ensures |r| == |dst|
    decreases n
  {
    if n == 0 then dst
    else ReadOut(dst[d := ring[off]], NextDst(d, dstInc, length), dstInc, length, ring, L, Advance(off, inc, L), inc, n - 1)
  }

  /** arm_circularRead_q15. */
  method CircularReadQ15(ring: array<int>, L: int, readOffset: int, bufferInc: int,
                         dst: array<int>, at: int, dstLength: int, dstInc: int, blockSize: nat) returns (offset: int)
    requires 0 <= bufferInc <= L <= ring.Length && 0 <= readOffset < L && L + bufferInc <= 0x8000_0000
    requires ring != dst && DstInRange(dst.Length, at, dstInc, dstLength, blockSize)
    modifies dst
    ensures dst[..] == ReadOut(old(dst[..]), at, dstInc, dstLength, ring[..], L, readOffset, bufferInc, blockSize)
    ensures 0 <= offset < L && offset == OffsetAfter(readOffset, bufferInc, L, blockSize)
  {
    var rOffset, to, i := readOffset, at, blockSize;
    while i > 0
      invariant 0 <= i <= blockSize && 0 <= rOffset < L
      invariant ring[..] == old(ring[..]) && DstInRange(dst.Length, to, dstInc, dstLength, i)
      invariant ReadOut(dst[..], to, dstInc, dstLength, ring[..], L, rOffset, bufferInc, i) ==
                ReadOut(old(dst[..]), at, dstInc, dstLength, ring[..], L, readOffset, bufferInc, blockSize)
      invariant OffsetAfter(rOffset, bufferInc, L, i) == OffsetAfter(readOffset, bufferInc, L, blockSize)
    {
      ghost var before := dst[..];
      dst[to] := ring[rOffset];
      assert dst[..] == before[to := ring[..][rOffset]];
      to := to + dstInc;
      if to == dstLength {
        to := 0;
      }
      var sum: i32 := rOffset + bufferInc;
      rOffset := sum;
      if rOffset >= L {
        rOffset := rOffset - L;
      }
      i := i - 1;
    }
    offset := rOffset;
  }

  /** How far cell `c` is ahead of the offset, around the ring. */
  function Ahead(c: int, off: int, L: int): int {
    if c >= off then c - off else c - off + L
  }

  /** With unit steps and a block no longer than the ring, each cell of the block's stretch holds
      its element and every other cell is untouched. */
  lemma {:induction false} WrittenCell(ring: seq<int>, L: int, off: int, block: seq<int>, c: int)
    requires 1 <= L <= |ring| && 0 <= off < L && |block| <= L && 0 <= c < |ring|
    ensures Written(ring, L, off, 1, block)[c] ==
            if c < L && Ahead(c, off, L) < |block| then block[Ahead(c, off, L)] else ring[c]
    decreases |block|
  {
    if block != [] {
      WrittenCell(ring[off := block[0]], L, Advance(off, 1, L), block[1..], c);
    }
  }

  /** The destination is a ring too: from its end the read goes on at its start. */
  lemma {:induction false} RingDstInRange(size: int, d: int, length: int, n: nat)
    requires 0 <= d < length <= size
    ensures DstInRange(size, d, 1, length, n)
    decreases n
  {
    if n > 0 {
      RingDstInRange(size, NextDst(d, 1, length), length, n - 1);
    }
  }

  /** So each cell of the stretch read to holds its element and every other cell is untouched. */
  lemma {:induction false} ReadCell(dst: seq<int>, d: int, length: int, ring: seq<int>, L: int, off: int, n: nat, c: int)
    requires 1 <= L <= |ring| && 0 <= off < L && 0 <= d < length <= |dst| && 0 <= c < |dst| && n <= L && n <= length
    ensures DstInRange(|dst|, d, 1, length, n)
    ensures ReadOut(dst, d, 1, length, ring, L, off, 1, n)[c] ==
            if c < length && Ahead(c, d, length) < n then ring[OffsetAhead(off, Ahead(c, d, length), L)] else dst[c]
    decreases n
  {
    RingDstInRange(|dst|, d, length, n);
    if n > 0 {
      ReadCell(dst[d := ring[off]], NextDst(d, 1, length), length, ring, L, Advance(off, 1, L), n - 1, c);
    }
  }

  function OffsetAhead(off: int, k: int, L: int): (o: int)
    requires 0 <= off < L && 0 <= k < L
    ensures 0 <= o < L
  {
    if off + k < L then off + k else off + k - L
  }

  /** The position `k` strides on. */
  function Position(d: int, inc: int, k: nat): int
    decreases k
  {
    if k == 0 then d else Position(d + inc, inc, k - 1)
  }

  lemma {:induction false} PositionIs(d: int, inc: int, k: nat)
    ensures Position(d, inc, k) == d + k * inc
    decreases k
  {
    if k > 0 {
      PositionIs(d + inc, inc, k - 1);
      assert k * inc == (k - 1) * inc + inc;
    }
  }

  lemma {:induction false} PositionsGrow(d: int, inc: int, k: nat, n: nat)
    requires 0 < inc && k <= n
    ensures d <= Position(d, inc, k) <= Position(d, inc, n)
    decreases n
  {
    if k > 0 {
      PositionsGrow(d + inc, inc, k - 1, n - 1);
    } else if n > 0 {
      PositionsGrow(d + inc, inc, 0, n - 1);
    }
  }

  lemma {:induction false} StridedInRange(size: int, d: int, inc: int, length: int, n: nat)
    requires 0 <= d && 0 < inc && length <= size && (n > 0 ==> Position(d, inc, n - 1) < length)
    ensures DstInRange(size, d, inc, length, n)
    decreases n
  {
    if n > 0 {
      PositionsGrow(d, inc, 0, n - 1);
    }
    if n > 1 {
      PositionsGrow(d, inc, 1, n - 1);
      StridedInRange(size, d + inc, inc, length, n - 1);
    } else if n == 1 {
      assert DstInRange(size, NextDst(d, inc, length), inc, length, 0);
    }
  }

  /** With any stride a read goes to the positions a stride apart, as long as the destination lasts, and
      takes what stands where the ring's own stride leads. */
  lemma {:induction false} StridedCell(dst: seq<int>, d: int, dstInc: int, length: int,
                                       ring: seq<int>, L: int, off: int, inc: int, n: nat, k: nat)
    requires 0 <= inc <= L <= |ring| && 0 <= off < L && k < n
    requires 0 <= d && 0 < dstInc && length <= |dst| && Position(d, dstInc, n - 1) < length
    ensures DstInRange(|dst|, d, dstInc, length, n) && 0 <= Position(d, dstInc, k) < |dst|
    ensures ReadOut(dst, d, dstInc, length, ring, L, off, inc, n)[Position(d, dstInc, k)] == ring[OffsetAfter(off, inc, L, k)]
    decreases n
  {
    StridedInRange(|dst|, d, dstInc, length, n);
    PositionsGrow(d, dstInc, k, n - 1);
    if n > 1 {
      var dst', next := dst[d := ring[off]], Advance(off, inc, L);
      PositionsGrow(d, dstInc, 1, n - 1);
      if k > 0 {
        StridedCell(dst', d + dstInc, dstInc, length, ring, L, next, inc, n - 1, k - 1);
      } else {
        EarlierCellStays(dst', d + dstInc, dstInc, length, ring, L, next, inc, n - 1, d);
      }
    }
  }

  lemma {:induction false} EarlierCellStays(dst: seq<int>, d: int, dstInc: int, length: int,
                                            ring: seq<int>, L: int, off: int, inc: int, n: nat, c: int)
    requires 0 <= inc <= L <= |ring| && 0 <= off < L && 0 < n
    requires 0 <= c < d && 0 < dstInc && length <= |dst| && Position(d, dstInc, n - 1) < length
    ensures DstInRange(|dst|, d, dstInc, length, n) && c < |dst|
    ensures ReadOut(dst, d, dstInc, length, ring, L, off, inc, n)[c] == dst[c]
    decreases n
  {
    StridedInRange(|dst|, d, dstInc, length, n);
    PositionsGrow(d, dstInc, 0, n - 1);
    if n > 1 {
      PositionsGrow(d, dstInc, 1, n - 1);
      EarlierCellStays(dst[d := ring[off]], d + dstInc, dstInc, length, ring, L, Advance(off, inc, L), inc, n - 1, c);
    }
  }

  /** Main result: a circular read from where a circular write started returns exactly the block
      written, and the rest of the destination is untouched. */
  lemma ReadReturnsWritten(ring: seq<int>, L: int, off: int, block: seq<int>, dst: seq<int>, length: int)
    requires 1 <= L <= |ring| && 0 <= off < L && |block| <= L && |block| <= length <= |dst|
    ensures DstInRange(|dst|, 0, 1, length, |block|)
    ensures ReadOut(dst, 0, 1, length, Written(ring, L, off, 1, block), L, off, 1, |block|) == block + dst[|block|..]
  {
    var ring', n := Written(ring, L, off, 1, block), |block|;
    if n == 0 {
      return;
    }
    RingDstInRange(|dst|, 0, length, n);
    forall c | 0 <= c < |dst|
      ensures ReadOut(dst, 0, 1, length, ring', L, off, 1, n)[c] == (block + dst[n..])[c]
    {
      ReadCell(dst, 0, length, ring', L, off, n, c);
      if c < n {
        WrittenCell(ring, L, off, block, if off + c < L then off + c else off + c - L);
      }
    }
  }
}
