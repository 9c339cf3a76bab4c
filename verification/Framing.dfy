/**
 Frame parsing of comm_tcp3.c. `Step` is one call of recv_tcp_packet3 on whatever slice recv
 returned; `Parse` is the parser one would write if the whole stream were at hand. The two are
 shown to agree however the stream is sliced.

 The source has two readings where a window holds neither a header nor the start of one.
 Its comment, and the caller's test, say contains_tcp_packet3_fragment answers 0 there; the body
 answers -1, and the caller then copies nine bytes from one before an eight-byte buffer. `Edition`
 keeps both: `AsWritten` stops with `Undefined` at that copy.
 */
module Framing {
  import opened Bytes
  import opened PacketCodec

  datatype Edition = AsWritten | AsDocumented

  /** contains_tcp_packet3_fragment: the index a new header may start at, -1 or 0 for none. */
  function ContainsFragment(e: Edition, h: bytes): (k: int)
    requires |h| == HEADER_SIZE
    ensures -1 <= k < HEADER_SIZE
    ensures e == AsDocumented ==> 0 <= k
  {
    var none := if e == AsWritten then -1 else 0;
    var i := 1 + Find(h[1..], RC_FS);
    if i == HEADER_SIZE then none
    else if i == HEADER_SIZE - 1 then i
    else if h[i + 1] == RC_MAGIC then i
    else none
  }

  /** A window that is rejected and holds no fragment the search recognises. */
  predicate Blank(h: bytes)
    requires |h| == HEADER_SIZE
  {
    !IsHeader(h) && ContainsFragment(AsDocumented, h) == 0
  }

  /** How many bytes a rejected window drops. */
  function Dropped(h: bytes): (k: nat)
    requires |h| == HEADER_SIZE && !IsHeader(h)
    ensures 1 <= k <= HEADER_SIZE
  {
    var k := ContainsFragment(AsDocumented, h);
    if k == 0 then HEADER_SIZE else k
  }

  /** The first separator of a window behind its first byte. */
  predicate FirstSeparator(h: bytes, i: int)
    requires |h| == HEADER_SIZE
  {
    1 <= i < HEADER_SIZE && h[i] == RC_FS && RC_FS !in h[1..i]
  }

  /** The search answers with the first separator behind the first byte exactly when that is the
      last byte or followed by the magic byte; otherwise with none. */
  lemma FragmentIsFound(e: Edition, h: bytes, k: int)
    requires |h| == HEADER_SIZE
    ensures k > 0 ==>
              (ContainsFragment(e, h) == k <==> FirstSeparator(h, k) && (k == HEADER_SIZE - 1 || h[k + 1] == RC_MAGIC))
    ensures ContainsFragment(e, h) <= 0 ==> ContainsFragment(e, h) == if e == AsWritten then -1 else 0
  {
    var i := 1 + Find(h[1..], RC_FS);
    assert h[1..][..i - 1] == h[1..i];
    if k > 0 && FirstSeparator(h, k) {
      assert h[1..][..k - 1] == h[1..k];
      FindIs(h[1..], RC_FS, k - 1);
    }
  }

  // ---------------------------------------------------------------------------------------
  // The whole-stream parser.

  /** What the front of a stream is: too short to tell, a window to reject, or a whole frame. */
  datatype Front = Short | Reject(dropped: nat, blank: bool) | Frame(packet: Packet, size: nat)

  function FrontOf(s: bytes): (f: Front)
    ensures f.Reject? ==> 0 < f.dropped <= |s|
    ensures f.Frame? ==> 0 < f.size <= |s|
  {
    if |s| < HEADER_SIZE then Short
    else
      var h := s[..HEADER_SIZE];
      if !IsHeader(h) then Reject(Dropped(h), Blank(h))
      else
        var n := HEADER_SIZE + HeaderDataSize(h);
        if |s| < n then Short else Frame(FromWire(h, s[HEADER_SIZE..n]), n)
  }

  datatype Parsed = Parsed(packets: seq<Packet>, rest: bytes)

  /** Reads frames off the front of `s`; `rest` is the unfinished tail. */
  function Parse(s: bytes): Parsed
    decreases |s|
  {
    match FrontOf(s)
    case Short => Parsed([], s)
    case Reject(k, _) => Parse(s[k..])
    case Frame(p, n) =>
      var later := Parse(s[n..]);
      Parsed([p] + later.packets, later.rest)
  }

  /** Whether parsing `s` meets a blank window. */
  predicate MeetsBlank(s: bytes)
    decreases |s|
  {
    match FrontOf(s)
    case Short => false
    case Reject(k, blank) => blank || MeetsBlank(s[k..])
    case Frame(_, n) => MeetsBlank(s[n..])
  }

  // ---------------------------------------------------------------------------------------
  // The incremental machine.

  /** The statics of recv_tcp_packet3: the received part of a header, or a recognised header with
      the received part of its data. */
  datatype Reader = InHeader(got: bytes) | InData(header: bytes, got: bytes) | Undefined

  const START := InHeader([])

  predicate ValidReader(r: Reader) {
    match r
    case InHeader(got) => |got| < HEADER_SIZE
    case InData(h, got) => |h| == HEADER_SIZE && IsHeader(h) && |got| < HeaderDataSize(h)
    case Undefined => true
  }

  /** How many bytes the next recv asks for. */
  function Wanted(r: Reader): (n: nat)
    requires ValidReader(r) && !r.Undefined?
    ensures n > 0
  {
    match r
    case InHeader(got) => HEADER_SIZE - |got|
    case InData(h, got) => HeaderDataSize(h) - |got|
  }

  /** The bytes received but not yet accounted for. */
  function Pending(r: Reader): bytes
    requires !r.Undefined?
  {
    match r
    case InHeader(got) => got
    case InData(h, got) => h + got
  }

  datatype Outcome = Outcome(reader: Reader, packets: seq<Packet>)

  /** The end of a header window. */
  function Window(e: Edition, h: bytes): (o: Outcome)
    requires |h| == HEADER_SIZE
    ensures ValidReader(o.reader)
  {
    if IsHeader(h) then
      if HeaderDataSize(h) == 0 then Outcome(START, [FromWire(h, [])])
      else Outcome(InData(h, []), [])
    else
      var k := ContainsFragment(e, h);
      if k < 0 then Outcome(Undefined, [])
      else if k == 0 then Outcome(START, [])
      else Outcome(InHeader(h[k..]), [])
  }

  /** One call of recv_tcp_packet3 whose recv delivered `slice`. */
  function Step(e: Edition, r: Reader, slice: bytes): (o: Outcome)
    requires ValidReader(r) && !r.Undefined? && |slice| <= Wanted(r)
    ensures ValidReader(o.reader)
  {
    match r
    case InHeader(got) =>
      if |got + slice| < HEADER_SIZE then Outcome(InHeader(got + slice), [])
      else Window(e, got + slice)
    case InData(h, got) =>
      if |got + slice| < HeaderDataSize(h) then Outcome(InData(h, got + slice), [])
      else Outcome(START, [FromWire(h, got + slice)])
  }

  /** What a run of calls leaves in the statics, hands out and has read. */
  datatype Trace = Trace(reader: Reader, packets: seq<Packet>, read: bytes)

  function SliceSize(r: Reader, offer: int, s: bytes): (n: nat)
    requires ValidReader(r) && !r.Undefined?
    ensures n <= Wanted(r) && n <= |s|
  {
    if offer < 0 then 0 else Min(offer, Min(Wanted(r), |s|))
  }

  /** A run of calls over a stream of which `s` is still to come. Each offer is what recv does on
      one call: negative is an error, otherwise it delivers at most that many bytes. */
  function Run(e: Edition, r: Reader, s: bytes, offers: seq<int>): (t: Trace)
    requires ValidReader(r)
    ensures ValidReader(t.reader) && t.read <= s
    decreases |offers|
  {
    if offers == [] || r.Undefined? then Trace(r, [], [])
    else
      var n := SliceSize(r, offers[0], s);
      var o := Step(e, r, s[..n]);
      var later := Run(e, o.reader, s[n..], offers[1..]);
      assert s[..n] + later.read <= s[..n] + s[n..] == s;
      Trace(later.reader, o.packets + later.packets, s[..n] + later.read)
  }

  /** What is taken for a header: any eight bytes at the start of a frame are, exactly when the first is
      0x1c, the second 0x42 and the last 0x1d; the sixth and seventh say how many bytes of data are
      received next, and without any the packet is handed out at once. */
  lemma HeaderIsTakenIff(e: Edition, w: bytes)
    requires |w| == 8
    ensures var o := Step(e, START, w); var n := w[5] + 0x100 * (w[6] as int);
            var header := w[0] == 0x1c && w[1] == 0x42 && w[7] == 0x1d;
            && (o.packets != [] || o.reader.InData? <==> header)
            && (header && n == 0 ==> o == Outcome(START, [FromWire(w, [])]))
            && (header && n > 0 ==> o == Outcome(InData(w, []), []) && Wanted(o.reader) == n)
  {
    assert [] + w == w;
  }

  // ---------------------------------------------------------------------------------------
  // Facts about the whole-stream parser.

  /** More bytes never change what a decided front is. */
  lemma FrontOfAppend(a: bytes, b: bytes)
    requires !FrontOf(a).Short?
    ensures FrontOf(a + b) == FrontOf(a)
  {
    assert (a + b)[..HEADER_SIZE] == a[..HEADER_SIZE];
    if FrontOf(a).Frame? {
      var n := FrontOf(a).size;
      assert (a + b)[HEADER_SIZE..n] == a[HEADER_SIZE..n];
    }
  }

  /** A stream may be parsed in two goes: what the first leaves over goes in front of the rest. */
  lemma {:induction false} ParseAppend(a: bytes, b: bytes)
    ensures Parse(a + b).packets == Parse(a).packets + Parse(Parse(a).rest + b).packets
    ensures Parse(a + b).rest == Parse(Parse(a).rest + b).rest
    ensures MeetsBlank(a + b) == (MeetsBlank(a) || MeetsBlank(Parse(a).rest + b))
    decreases |a|
  {
    match FrontOf(a)
    case Short =>
    case Reject(k, blank) =>
      FrontOfAppend(a, b);
      assert (a + b)[k..] == a[k..] + b;
      ParseAppend(a[k..], b);
    case Frame(p, n) =>
      FrontOfAppend(a, b);
      assert (a + b)[n..] == a[n..] + b;
      ParseAppend(a[n..], b);
      var rest := Parse(a[n..]);
      assert [p] + (rest.packets + Parse(rest.rest + b).packets) == ([p] + rest.packets) + Parse(rest.rest + b).packets;
  }

  /** What is left over is a suffix with nothing left to parse: no complete frame, no window to
      reject. */
  lemma {:induction false} ParseRestIsFixed(s: bytes)
    ensures Parse(Parse(s).rest) == Parsed([], Parse(s).rest) && !MeetsBlank(Parse(s).rest)
    decreases |s|
  {
    match FrontOf(s)
    case Short =>
    case Reject(k, _) => ParseRestIsFixed(s[k..]);
    case Frame(_, n) => ParseRestIsFixed(s[n..]);
  }

  // ---------------------------------------------------------------------------------------
  // The machine refines the parser.

  /** The statics and the packets handed out are what the parser makes of `read`; as written, only
      if `read` meets no blank window. */
  ghost predicate Agrees(e: Edition, reader: Reader, packets: seq<Packet>, read: bytes) {
    && (reader.Undefined? <==> e == AsWritten && MeetsBlank(read))
    && (!reader.Undefined? ==> packets == Parse(read).packets && Pending(reader) == Parse(read).rest)
  }

  /** One call consumes exactly its slice: it hands out what the parser finds in the pending bytes
      followed by the slice, and keeps pending what the parser leaves over. As written it agrees
      unless that meets a blank window, and then it stops. */
  lemma StepRefines(e: Edition, r: Reader, slice: bytes)
    requires ValidReader(r) && !r.Undefined? && |slice| <= Wanted(r)
    ensures var o := Step(e, r, slice); Agrees(e, o.reader, o.packets, Pending(r) + slice)
  {
    var s := Pending(r) + slice;
    match r
    case InHeader(got) =>
      if |s| == HEADER_SIZE {
        WindowRefines(e, s);
      }
    case InData(h, got) =>
      var n := HEADER_SIZE + HeaderDataSize(h);
      assert s == h + (got + slice);
      assert s[..HEADER_SIZE] == h;
      if |s| == n {
        assert s[HEADER_SIZE..n] == got + slice;
        assert s[n..] == [];
      }
  }

  lemma WindowRefines(e: Edition, h: bytes)
    requires |h| == HEADER_SIZE
    ensures var o := Window(e, h); Agrees(e, o.reader, o.packets, h)
  {
    assert h[..HEADER_SIZE] == h && h[HEADER_SIZE..] == [];
    if IsHeader(h) {
      if HeaderDataSize(h) == 0 {
        assert h[HEADER_SIZE..HEADER_SIZE] == [];
      }
    } else {
      var k := Dropped(h);
      assert |h[k..]| < HEADER_SIZE;
    }
  }

  /** A valid state has nothing left to parse in what it keeps. */
  lemma PendingIsFixed(r: Reader)
    requires ValidReader(r) && !r.Undefined?
    ensures Parse(Pending(r)) == Parsed([], Pending(r)) && !MeetsBlank(Pending(r))
  {
    if r.InData? {
      assert Pending(r)[..HEADER_SIZE] == r.header;
    }
  }

  /** Agreement over two stretches of a stream is agreement over the whole. */
  lemma AgreesChain(e: Edition, r: Reader, ps: seq<Packet>, front: bytes, r': Reader, ps': seq<Packet>, more: bytes)
    requires Agrees(e, r, ps, front) && !r.Undefined?
    requires Agrees(e, r', ps', Pending(r) + more)
    ensures Agrees(e, r', ps + ps', front + more)
  {
    ParseAppend(front, more);
  }

  lemma AgreesAfterStep(e: Edition, r: Reader, ps: seq<Packet>, read: bytes, slice: bytes, o: Outcome)
    requires Agrees(e, r, ps, read) && ValidReader(r) && !r.Undefined? && |slice| <= Wanted(r)
    requires o == Step(e, r, slice)
    ensures Agrees(e, o.reader, ps + o.packets, read + slice)
  {
    StepRefines(e, r, slice);
    AgreesChain(e, r, ps, read, o.reader, o.packets, slice);
  }

  /** What a run is in terms of its first call. */
  lemma RunUnfolds(e: Edition, r: Reader, s: bytes, offers: seq<int>)
    requires ValidReader(r) && !r.Undefined? && offers != []
    ensures var n := SliceSize(r, offers[0], s);
            var o := Step(e, r, s[..n]);
            var later := Run(e, o.reader, s[n..], offers[1..]);
            var t := Run(e, r, s, offers);
            && t.reader == later.reader && t.packets == o.packets + later.packets
            && t.read == s[..n] + later.read
            && Pending(r) + t.read == (Pending(r) + s[..n]) + later.read
            && (o.reader.Undefined? ==> t == Trace(Undefined, o.packets, s[..n]))
  {
  }

  /** Main result: whatever slices recv delivers, the packets handed out are those the parser
      finds in the bytes read so far, and the statics hold exactly what it leaves over. The code
      as written does so until the bytes read meet a blank window, and is undefined from there. */
  lemma {:induction false} RunRefines(e: Edition, r: Reader, s: bytes, offers: seq<int>)
    requires ValidReader(r) && !r.Undefined?
    ensures Agrees(e, Run(e, r, s, offers).reader, Run(e, r, s, offers).packets, Pending(r) + Run(e, r, s, offers).read)
    decreases |offers|
  {
    if offers == [] {
      PendingIsFixed(r);
      assert Pending(r) + [] == Pending(r);
    } else {
      RunUnfolds(e, r, s, offers);
      var n := SliceSize(r, offers[0], s);
      var o := Step(e, r, s[..n]);
      StepRefines(e, r, s[..n]);
      if !o.reader.Undefined? {
        var later := Run(e, o.reader, s[n..], offers[1..]);
        RunRefines(e, o.reader, s[n..], offers[1..]);
        AgreesChain(e, o.reader, o.packets, Pending(r) + s[..n], later.reader, later.packets, later.read);
      }
    }
  }

  /** Chunk independence: two slicings that have read equally far have handed out the same packets
      and left the same statics, errors and empty reads included. */
  lemma ChunkIndependence(e: Edition, r: Reader, s: bytes, offers: seq<int>, offers': seq<int>)
    requires ValidReader(r) && !r.Undefined?
    requires |Run(e, r, s, offers).read| == |Run(e, r, s, offers').read|
    ensures var t, t' := Run(e, r, s, offers), Run(e, r, s, offers');
            t.reader == t'.reader && (!t.reader.Undefined? ==> t.packets == t'.packets)
  {
    RunRefines(e, r, s, offers);
    RunRefines(e, r, s, offers');
    var t, t' := Run(e, r, s, offers), Run(e, r, s, offers');
    assert t.read == s[..|t.read|] == t'.read;
    if !t.reader.Undefined? {
      PendingDeterminesReader(t.reader, t'.reader);
    }
  }

  /** A slicing that reads a whole stream: one byte a call. */
  lemma {:induction false} SingleBytesReadAll(r: Reader, s: bytes)
    requires ValidReader(r) && !r.Undefined?
    ensures Run(AsDocumented, r, s, seq(|s|, _ => 1)).read == s
    decreases |s|
  {
    var offers := seq(|s|, _ => 1);
    if s != [] {
      var o := Step(AsDocumented, r, s[..1]);
      StepRefines(AsDocumented, r, s[..1]);
      assert offers[1..] == seq(|s[1..]|, _ => 1);
      SingleBytesReadAll(o.reader, s[1..]);
      assert s[..1] + s[1..] == s;
    }
  }

  /** The pending bytes are all there is to a state. */
  lemma PendingDeterminesReader(r: Reader, r': Reader)
    requires ValidReader(r) && ValidReader(r') && !r.Undefined? && !r'.Undefined?
    requires Pending(r) == Pending(r')
    ensures r == r'
  {
    if r.InData? && r'.InData? {
      assert r.header == Pending(r)[..HEADER_SIZE] == r'.header;
      assert r.got == Pending(r)[HEADER_SIZE..] == r'.got;
    }
  }

  /** The code as written does what is documented over a whole stream exactly when the stream
      meets no blank window on the way. */
  lemma EditionsAgreeIff(s: bytes, offers: seq<int>)
    requires Run(AsDocumented, START, s, offers).read == s
    ensures Run(AsWritten, START, s, offers) == Run(AsDocumented, START, s, offers) <==> !MeetsBlank(s)
  {
    var t := Run(AsWritten, START, s, offers);
    if MeetsBlank(s) {
      RunRefines(AsWritten, START, s, offers);
      RunRefines(AsDocumented, START, s, offers);
      assert t.read == s ==> Pending(START) + t.read == s;
    } else {
      assert Pending(START) + s == s;
      EditionsRunTogether(START, s, offers);
    }
  }

  lemma {:induction false} EditionsRunTogether(r: Reader, s: bytes, offers: seq<int>)
    requires ValidReader(r) && !r.Undefined? && !MeetsBlank(Pending(r) + s)
    ensures Run(AsWritten, r, s, offers) == Run(AsDocumented, r, s, offers)
    decreases |offers|
  {
    if offers != [] {
      var n := SliceSize(r, offers[0], s);
      var front := Pending(r) + s[..n];
      assert Pending(r) + s == front + s[n..];
      ParseAppend(front, s[n..]);
      StepRefines(AsWritten, r, s[..n]);
      StepRefines(AsDocumented, r, s[..n]);
      var o, o' := Step(AsWritten, r, s[..n]), Step(AsDocumented, r, s[..n]);
      PendingDeterminesReader(o.reader, o'.reader);
      EditionsRunTogether(o.reader, s[n..], offers[1..]);
    }
  }
}
