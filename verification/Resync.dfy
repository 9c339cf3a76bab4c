/**
 How the frame parser finds its way back to a frame boundary after garbage, and where it does not.
 */
module Resync {
  import opened Bytes
  import opened PacketCodec
  import opened Framing

  /** An offset of a rejected window from which later bytes could complete a header. */
  predicate CouldBegin(h: bytes, j: nat)
    requires |h| == HEADER_SIZE
  {
    0 < j < HEADER_SIZE && h[j] == RC_FS && (j == HEADER_SIZE - 1 || h[j + 1] == RC_MAGIC)
  }

  ghost predicate LosesStart(h: bytes)
    requires |h| == HEADER_SIZE && !IsHeader(h)
  {
    exists j: nat :: CouldBegin(h, j) && j < Dropped(h)
  }

  /** A shift goes to the first offset at which a header could begin. */
  lemma ShiftLosesNothing(h: bytes)
    requires |h| == HEADER_SIZE && !IsHeader(h) && !Blank(h)
    ensures CouldBegin(h, Dropped(h)) && !LosesStart(h)
  {
    var i := Find(h[1..], RC_FS);
    assert forall j :: 0 <= j < i ==> h[1..][..i][j] == h[1 + j];
  }

  /** Discarding a window altogether can lose one: the search looks at the first separator only, and
      here a complete frame after three bytes of garbage is lost. */
  lemma DecoyHidesFrame()
    ensures var frame := MakeHeader(0, 0, 0);
            Parse(frame).packets == [FromWire(frame, [])] && Parse([0, RC_FS, 0] + frame).packets == []
  {
    var frame := MakeHeader(0, 0, 0);
    assert frame[..HEADER_SIZE] == frame && frame[HEADER_SIZE..] == [];
    assert frame[HEADER_SIZE..HEADER_SIZE] == [];
    assert Parse([]) == Parsed([], []);
    var s := [0, RC_FS, 0] + frame;
    var h := s[..HEADER_SIZE];
    assert h == [0, RC_FS, 0, RC_FS, RC_MAGIC, VERSION, 0, 0];
    FindIs(h[1..], RC_FS, 0);
    assert Blank(h);
    assert Parse(s[HEADER_SIZE..]).packets == [];
  }

  // ---------------------------------------------------------------------------------------

  /** A packet whose wire form is its own header and data. */
  predicate Framed(p: Packet) {
    && |p.header| == HEADER_SIZE && IsHeader(p.header)
    && HeaderDataSize(p.header) == |p.data|
    && FromWire(p.header, p.data) == p
  }

  lemma FrontIsFrame(p: Packet, tail: bytes)
    requires Framed(p)
    ensures FrontOf(Wire(p) + tail) == Frame(p, |Wire(p)|)
  {
    var s, n := Wire(p) + tail, HEADER_SIZE + |p.data|;
    assert s[..HEADER_SIZE] == p.header;
    assert s[HEADER_SIZE..n] == p.data;
  }

  /** With another first, second or last byte its header is none: where it stands nothing is found. */
  lemma BrokenHeaderIsRejected(p: Packet, i: nat, b: byte, tail: bytes)
    requires Framed(p) && i in {0, 1, 7} && b != p.header[i]
    ensures FrontOf(p.header[i := b] + p.data + tail).Reject?
  {
    var h := p.header[i := b];
    assert (h + p.data + tail)[..HEADER_SIZE] == h;
    HeaderIsIff(p.header);
    HeaderIsIff(h);
  }

  lemma ParseFrame(p: Packet, tail: bytes)
    requires Framed(p)
    ensures Parse(Wire(p) + tail) == Parsed([p] + Parse(tail).packets, Parse(tail).rest)
    ensures MeetsBlank(Wire(p) + tail) == MeetsBlank(tail)
  {
    FrontIsFrame(p, tail);
    assert (Wire(p) + tail)[|Wire(p)|..] == tail;
  }

  // ---------------------------------------------------------------------------------------
  // Any garbage in front of the first header of a stream.

  /** What the parser drops at the front of garbage with a header behind it: up to the first
      separator of the window behind its first byte, or up to the header, unless that separator is
      a decoy, neither the window's last byte nor followed by the magic byte; then the whole window. */
  function Skip(g: bytes): (k: nat)
    requires g != []
    ensures 0 < k <= HEADER_SIZE
  {
    var n := Min(|g|, HEADER_SIZE);
    var i := 1 + Find(g[1..n], RC_FS);
    if i == n || i == HEADER_SIZE - 1 || (i + 1 < |g| && g[i + 1] == RC_MAGIC) then i else HEADER_SIZE
  }

  /** Garbage over which the parser stays in step with the header behind it: no window with a decoy
      reaches beyond its end. */
  predicate InStep(g: bytes)
    decreases |g|
  {
    g == [] || (Skip(g) <= |g| && InStep(g[Skip(g)..]))
  }

  /** Whether one of its windows holds nothing the search recognises. */
  predicate HoldsBlank(g: bytes)
    decreases |g|
  {
    g != [] && (Skip(g) == HEADER_SIZE || (Skip(g) <= |g| && HoldsBlank(g[Skip(g)..])))
  }

  /** Whether parsing `s` comes to look at offset `n`. */
  predicate Reaches(s: bytes, n: nat)
    decreases |s|
  {
    n == 0 ||
    match FrontOf(s)
    case Short => false
    case Reject(k, _) => k <= n && Reaches(s[k..], n - k)
    case Frame(_, size) => size <= n && Reaches(s[size..], n - size)
  }

  /** The first header of the stream is the one behind the garbage. */
  ghost predicate HeaderBehind(g: bytes, w: bytes) {
    && |w| >= HEADER_SIZE && IsHeader(w[..HEADER_SIZE])
    && forall i :: 0 <= i < |g| ==> !HeaderAt(g + w, i)
  }

  predicate HeaderAt(s: bytes, i: nat) {
    i + HEADER_SIZE <= |s| && IsHeader(s[i..i + HEADER_SIZE])
  }

  lemma FirstSeparatorIs(h: bytes, i: nat)
    requires |h| == HEADER_SIZE && 1 <= i < HEADER_SIZE && h[i] == RC_FS && RC_FS !in h[1..i]
    ensures Find(h[1..], RC_FS) == i - 1
  {
    assert h[1..][..i - 1] == h[1..i];
    FindIs(h[1..], RC_FS, i - 1);
  }

  lemma WindowSkips(g: bytes, w: bytes)
    requires g != [] && HeaderBehind(g, w)
    ensures FrontOf(g + w) == Reject(Skip(g), Skip(g) == HEADER_SIZE)
  {
    var h, n := (g + w)[..HEADER_SIZE], Min(|g|, HEADER_SIZE);
    assert h == (g + w)[0..HEADER_SIZE] && !HeaderAt(g + w, 0);
    var i := 1 + Find(g[1..n], RC_FS);
    assert forall j :: 0 <= j < n ==> h[j] == g[j];
    assert g[1..n][..i - 1] == g[1..i] == h[1..i];
    if i < n {
      FirstSeparatorIs(h, i);
      assert i + 1 < |g| ==> i + 1 == HEADER_SIZE || h[i + 1] == g[i + 1];
      assert i + 1 == |g| && i + 1 < HEADER_SIZE ==> h[i + 1] == w[0];
    } else if n < HEADER_SIZE {
      assert h[n] == w[0] && (n + 1 < HEADER_SIZE ==> h[n + 1] == w[1]);
      FirstSeparatorIs(h, n);
    } else {
      assert g[1..n] == h[1..];
    }
  }

  lemma BehindAfterSkip(g: bytes, w: bytes, k: nat)
    requires HeaderBehind(g, w) && k <= |g|
    ensures (g + w)[k..] == g[k..] + w && HeaderBehind(g[k..], w)
  {
    assert (g + w)[k..] == g[k..] + w;
    forall i | 0 <= i < |g[k..]| ensures !HeaderAt(g[k..] + w, i) {
      assert !HeaderAt(g + w, k + i);
      assert (g[k..] + w)[i..i + HEADER_SIZE] == (g + w)[k + i..k + i + HEADER_SIZE];
    }
  }

  /** Main result: the parser comes to look at the first header of a stream exactly when the garbage
      in front of it keeps it in step. Then it finds there what it would find without the garbage;
      otherwise it goes on inside the header. */
  lemma {:induction false} FirstHeaderIsReachedIff(g: bytes, w: bytes)
    requires HeaderBehind(g, w)
    ensures Reaches(g + w, |g|) <==> InStep(g)
    ensures InStep(g) ==> Parse(g + w) == Parse(w) && (MeetsBlank(g + w) <==> HoldsBlank(g) || MeetsBlank(w))
    ensures !InStep(g) ==> exists j :: 0 < j < HEADER_SIZE && Parse(g + w) == Parse(w[j..])
    decreases |g|
  {
    if g == [] {
      assert g + w == w;
    } else {
      WindowSkips(g, w);
      var k := Skip(g);
      if k <= |g| {
        BehindAfterSkip(g, w, k);
        FirstHeaderIsReachedIff(g[k..], w);
      } else {
        assert (g + w)[k..] == w[k - |g|..];
      }
    }
  }

  /** For less than a window of garbage without a separator before a magic byte: exactly when no
      separator stands behind its first byte. */
  lemma ShortGarbageInStepIff(g: bytes)
    requires 0 < |g| < HEADER_SIZE && forall i :: 0 <= i < |g| - 1 && g[i] == RC_FS ==> g[i + 1] != RC_MAGIC
    ensures InStep(g) <==> RC_FS !in g[1..]
  {
    var i := Find(g[1..], RC_FS);
    assert g[1..|g|] == g[1..];
    if i == |g| - 1 {
      assert g[1..][..i] == g[1..];
    }
  }

  lemma {:induction false} NoSeparatorNoPackets(s: bytes)
    requires RC_FS !in s
    ensures Parse(s).packets == []
    decreases |s|
  {
    if |s| >= HEADER_SIZE {
      assert s[..HEADER_SIZE][0] == s[0];
      NoSeparatorNoPackets(s[FrontOf(s).dropped..]);
    }
  }

  /** So a frame with no separator behind its first byte is found behind the garbage exactly when the
      garbage keeps the parser in step; otherwise nothing is found at all. */
  lemma FrameBehindGarbageIff(g: bytes, p: Packet)
    requires Framed(p) && HeaderBehind(g, Wire(p)) && RC_FS !in Wire(p)[1..]
    ensures Parse(g + Wire(p)).packets == if InStep(g) then [p] else []
  {
    FirstHeaderIsReachedIff(g, Wire(p));
    if InStep(g) {
      ParseFrame(p, []);
      assert Wire(p) + [] == Wire(p);
    } else {
      var j :| 0 < j < HEADER_SIZE && Parse(g + Wire(p)) == Parse(Wire(p)[j..]);
      assert forall b :: b in Wire(p)[j..] ==> b in Wire(p)[1..];
      NoSeparatorNoPackets(Wire(p)[j..]);
    }
  }

  // ---------------------------------------------------------------------------------------
  // Streams of frames.

  /** Garbage that may stand in front of a header: no header begins in it, and the parser stays in
      step over it. */
  ghost predicate Leads(g: bytes, header: bytes) {
    HeaderBehind(g, header) && InStep(g)
  }

  /** Only the header matters. */
  lemma OnlyHeaderMatters(g: bytes, w: bytes)
    requires |w| >= HEADER_SIZE
    ensures HeaderBehind(g, w) <==> HeaderBehind(g, w[..HEADER_SIZE])
  {
    var header := w[..HEADER_SIZE];
    assert header[..HEADER_SIZE] == header;
    forall i | 0 <= i < |g| ensures HeaderAt(g + w, i) <==> HeaderAt(g + header, i) {
      assert (g + w)[i..i + HEADER_SIZE] == (g + header)[i..i + HEADER_SIZE];
    }
  }

  /** Garbage without a separator is such garbage. As written it takes the undefined copy exactly when
      there are eight bytes of it or more. */
  lemma {:induction false} SeparatorFreeLeads(g: bytes, header: bytes)
    requires RC_FS !in g && |header| == HEADER_SIZE && IsHeader(header)
    ensures Leads(g, header) && (HoldsBlank(g) <==> |g| >= HEADER_SIZE)
    decreases |g|
  {
    assert header[..HEADER_SIZE] == header;
    forall i | 0 <= i < |g| ensures !HeaderAt(g + header, i) {
      assert (g + header)[i..i + HEADER_SIZE][0] == g[i];
    }
    if g != [] {
      SeparatorFreeLeads(g[Skip(g)..], header);
    }
  }

  lemma FrameBehindIsFound(g: bytes, p: Packet, later: bytes)
    requires Framed(p) && Leads(g, p.header)
    ensures Parse(g + Wire(p) + later) == Parsed([p] + Parse(later).packets, Parse(later).rest)
    ensures MeetsBlank(g + Wire(p) + later) <==> HoldsBlank(g) || MeetsBlank(later)
  {
    var w := Wire(p) + later;
    assert g + Wire(p) + later == g + w && w[..HEADER_SIZE] == p.header;
    OnlyHeaderMatters(g, w);
    FirstHeaderIsReachedIff(g, w);
    ParseFrame(p, later);
  }

  /** Frames with garbage in front of each. */
  function Noisy(noise: seq<bytes>, ps: seq<Packet>): bytes
    requires |noise| == |ps|
  {
    if ps == [] then [] else noise[0] + Wire(ps[0]) + Noisy(noise[1..], ps[1..])
  }

  /** Main result: a stream of frames, each behind any amount of garbage that keeps the parser in
      step, parses into exactly those frames. As written the stream is defined exactly when no stretch
      of garbage holds a blank window. */
  lemma {:induction false} NoisyFramesAreFound(noise: seq<bytes>, ps: seq<Packet>)
    requires |noise| == |ps|
    requires forall i :: 0 <= i < |ps| ==> Framed(ps[i]) && Leads(noise[i], ps[i].header)
    ensures Parse(Noisy(noise, ps)) == Parsed(ps, [])
    ensures MeetsBlank(Noisy(noise, ps)) <==> exists i :: 0 <= i < |noise| && HoldsBlank(noise[i])
    decreases |ps|
  {
    hide Framed, Leads, HoldsBlank;
    if ps != [] {
      FrameBehindIsFound(noise[0], ps[0], Noisy(noise[1..], ps[1..]));
      NoisyFramesAreFound(noise[1..], ps[1..]);
      var later := noise[1..];
      assert forall i :: 0 <= i < |later| ==> later[i] == noise[i + 1];
      assert forall i :: 1 <= i < |noise| ==> noise[i] == later[i - 1];
    }
  }

  // ---------------------------------------------------------------------------------------
  // A connection that broke off.

  lemma {:induction false} RestIsShort(s: bytes)
    ensures FrontOf(Parse(s).rest).Short?
    decreases |s|
  {
    match FrontOf(s)
    case Short =>
    case Reject(k, _) => RestIsShort(s[k..]);
    case Frame(_, n) => RestIsShort(s[n..]);
  }

  /** How many bytes the statics are waiting for when `rest` is what they hold of a packet's header and
      data; none when they hold less than a header. */
  function Missing(rest: bytes): (m: nat)
    ensures m > 0 ==> |rest| >= HEADER_SIZE && m == HEADER_SIZE + HeaderDataSize(rest[..HEADER_SIZE]) - |rest|
  {
    if |rest| < HEADER_SIZE then 0
    else
      var n := HEADER_SIZE + HeaderDataSize(rest[..HEADER_SIZE]);
      if |rest| < n then n - |rest| else 0
  }

  /** The garbage the parser looks at when it holds `rest` and receives garbage `g`: what it holds of a
      header is part of it, and what it lacks of a packet comes off it. */
  function Ahead(rest: bytes, g: bytes): bytes {
    if |rest| < HEADER_SIZE then rest + g else g[Min(Missing(rest), |g|)..]
  }

  /** The packet completed that way. */
  function Completed(rest: bytes, g: bytes): (ps: seq<Packet>)
    ensures |ps| <= 1
  {
    if 0 < Missing(rest) <= |g| then [FromWire(rest[..HEADER_SIZE], rest[HEADER_SIZE..] + g[..Missing(rest)])] else []
  }

  /** Whether the parser comes to look at the first header behind `g` on the next connection. */
  predicate Recovers(rest: bytes, g: bytes) {
    Missing(rest) <= |g| && InStep(Ahead(rest, g))
  }

  lemma CutPacketLacks(rest: bytes)
    requires FrontOf(rest).Short?
    ensures |rest| >= HEADER_SIZE ==> Missing(rest) > 0
  {
  }

  lemma CutPacketIsCompleted(rest: bytes, g: bytes, w: bytes)
    requires FrontOf(rest).Short? && |rest| >= HEADER_SIZE && Missing(rest) <= |g|
    ensures var n := |rest| + Missing(rest); var s := rest + g + w;
            n <= |s| && FrontOf(s) == Frame(Completed(rest, g)[0], n) && s[n..] == g[Missing(rest)..] + w
  {
    hide FromWire, IsHeader, HeaderDataSize;
    var s, m := rest + g + w, Missing(rest);
    assert s[..HEADER_SIZE] == rest[..HEADER_SIZE];
    assert s[HEADER_SIZE..|rest| + m] == rest[HEADER_SIZE..] + g[..m];
  }

  lemma CutPacketComesFirst(rest: bytes, g: bytes, w: bytes)
    requires FrontOf(rest).Short? && |rest| >= HEADER_SIZE && Missing(rest) <= |g|
    ensures var later := g[Missing(rest)..] + w;
            && (Reaches(rest + g + w, |rest + g|) <==> Reaches(later, |g| - Missing(rest)))
            && Parse(rest + g + w) == Parsed(Completed(rest, g) + Parse(later).packets, Parse(later).rest)
  {
    hide FromWire, IsHeader, HeaderDataSize, FrontOf;
    CutPacketIsCompleted(rest, g, w);
    CutPacketLacks(rest);
    assert Completed(rest, g) == [Completed(rest, g)[0]];
  }

  lemma CutPacketSwallows(rest: bytes, g: bytes, w: bytes)
    requires FrontOf(rest).Short? && |rest| >= HEADER_SIZE && |g| < Missing(rest)
    ensures !Reaches(rest + g + w, |rest + g|)
  {
    hide FromWire, IsHeader, HeaderDataSize;
    var s := rest + g + w;
    assert s[..HEADER_SIZE] == rest[..HEADER_SIZE];
  }

  /** What a broken connection leaves in the parser's statics: the next one's first header is reached
      exactly when the garbage in front of it makes up for it. Never, if there is none and the
      connection broke off inside a packet's data. */
  lemma NextConnectionIff(rest: bytes, g: bytes, w: bytes)
    requires FrontOf(rest).Short? && |w| >= HEADER_SIZE && IsHeader(w[..HEADER_SIZE])
    requires Missing(rest) <= |g| ==> HeaderBehind(Ahead(rest, g), w)
    ensures Reaches(rest + g + w, |rest + g|) <==> Recovers(rest, g)
    ensures Recovers(rest, g) ==>
              Parse(rest + g + w) == Parsed(Completed(rest, g) + Parse(w).packets, Parse(w).rest)
    ensures g == [] && |rest| >= HEADER_SIZE ==> !Recovers(rest, g)
  {
    hide FromWire, IsHeader, HeaderDataSize, FrontOf, InStep, HeaderBehind, Parse, Reaches;
    var m := Missing(rest);
    if |rest| < HEADER_SIZE {
      FirstHeaderIsReachedIff(rest + g, w);
      assert Completed(rest, g) + Parse(w).packets == Parse(w).packets;
    } else if m <= |g| {
      CutPacketComesFirst(rest, g, w);
      FirstHeaderIsReachedIff(g[m..], w);
    } else {
      CutPacketSwallows(rest, g, w);
    }
    CutPacketLacks(rest);
  }

  /** Frames that are found behind such a rest: what is in front of the first makes up for it. Behind no
      rest at all that is garbage like any other. */
  ghost predicate Follow(rest: bytes, noise: seq<bytes>, ps: seq<Packet>) {
    && FrontOf(rest).Short? && |noise| == |ps| > 0
    && Recovers(rest, noise[0]) && HeaderBehind(Ahead(rest, noise[0]), ps[0].header)
    && forall i :: 0 < i < |ps| ==> Leads(noise[i], ps[i].header)
  }

  lemma FollowNothingIff(noise: seq<bytes>, ps: seq<Packet>)
    requires |noise| == |ps| > 0
    ensures Follow([], noise, ps) <==> forall i :: 0 <= i < |ps| ==> Leads(noise[i], ps[i].header)
  {
    assert [] + noise[0] == noise[0];
    assert Ahead([], noise[0]) == noise[0];
    assert (forall i :: 0 <= i < |ps| ==> Leads(noise[i], ps[i].header)) ==> Leads(noise[0], ps[0].header);
  }

  /** Frames on a connection behind one that broke off. */
  lemma FramesBehindRest(rest: bytes, noise: seq<bytes>, ps: seq<Packet>)
    requires Follow(rest, noise, ps) && forall i :: 0 <= i < |ps| ==> Framed(ps[i])
    ensures Parse(rest + Noisy(noise, ps)) == Parsed(Completed(rest, noise[0]) + ps, [])
  {
    hide FrontOf, InStep, HeaderBehind, Completed, Ahead, Missing, Leads, Framed, Parse, Noisy, Wire, IsHeader;
    var w := Wire(ps[0]) + Noisy(noise[1..], ps[1..]);
    NoisyUnfolds(noise, ps);
    assert rest + (noise[0] + w) == rest + noise[0] + w;
    OnlyHeaderMatters(Ahead(rest, noise[0]), w);
    NextConnectionIff(rest, noise[0], w);
    FramesBehindFirst(noise, ps);
  }

  lemma NoisyUnfolds(noise: seq<bytes>, ps: seq<Packet>)
    requires |noise| == |ps| > 0 && Framed(ps[0])
    ensures var w := Wire(ps[0]) + Noisy(noise[1..], ps[1..]);
            && Noisy(noise, ps) == noise[0] + w
            && |w| >= HEADER_SIZE && w[..HEADER_SIZE] == ps[0].header && IsHeader(ps[0].header)
  {
    hide FromWire, HeaderDataSize;
    var later := Noisy(noise[1..], ps[1..]);
    assert noise[0] + Wire(ps[0]) + later == noise[0] + (Wire(ps[0]) + later);
  }

  lemma FramesBehindFirst(noise: seq<bytes>, ps: seq<Packet>)
    requires |noise| == |ps| > 0
    requires forall i :: 0 <= i < |ps| ==> Framed(ps[i]) && (i > 0 ==> Leads(noise[i], ps[i].header))
    ensures Parse(Wire(ps[0]) + Noisy(noise[1..], ps[1..])) == Parsed(ps, [])
  {
    hide Leads, Framed, Noisy, Parse;
    NoisyFramesAreFound(noise[1..], ps[1..]);
    ParseFrame(ps[0], Noisy(noise[1..], ps[1..]));
    assert [ps[0]] + ps[1..] == ps;
  }

  /** As written, a full window of zeros is enough to leave the C semantics. */
  lemma ZerosAreUndefined()
    ensures Run(AsWritten, START, Zeros(HEADER_SIZE), [HEADER_SIZE]).reader == Undefined
    ensures Run(AsDocumented, START, Zeros(HEADER_SIZE), [HEADER_SIZE]).reader == START
  {
    var h := Zeros(HEADER_SIZE);
    assert RC_FS !in h[1..];
    assert Step(AsWritten, START, h).reader == Undefined && Step(AsDocumented, START, h).reader == START;
    hide Step;
    assert h[..HEADER_SIZE] == h && [HEADER_SIZE][1..] == [];
  }
}
