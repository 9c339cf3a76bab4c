/**
 Datagram framing on a UDP socket. The chip queues each datagram behind an eight-byte head; recvfrom
 reads the head once and then hands the payload out in slices of whatever length each call asks for,
 with sock_remained_size as its only memory. `Take` is one such call; the lemmas show that a run of
 calls of any lengths, with datagrams arriving in between, hands out exactly the datagrams queued.
 */
module Datagrams {
  import opened Bytes
  import opened Chip

  const HEAD_SIZE := 8

  /** sock_remained_size and the chip's receive queue. */
  datatype Rx = Rx(remained: u16, queue: bytes)

  /** What one call returns: the data, and the sender when the call read a head. */
  datatype Slice = Slice(first: bool, addr: bytes, port: u16, data: bytes)

  datatype Taken = Taken(rx: Rx, slice: Slice)

  /** The unread tail of the current datagram is at the front, whole records follow. */
  predicate Framed(rx: Rx) {
    rx.remained <= |rx.queue| && WholeRecords(rx.queue[rx.remained..])
  }

  function BigEndian(hi: byte, lo: byte): u16 {
    0x100 * (hi as int) + lo
  }

  /** One call of recvfrom that finds the queue non-empty. */
  function Take(rx: Rx, len: u16): (t: Taken)
    requires Framed(rx) && rx.queue != []
    ensures Framed(t.rx)
  {
    var q := rx.queue;
    if rx.remained == 0 then
      var size := BigEndian(q[6], q[7]);
      var n := Min(len, size);
      assert q[HEAD_SIZE + n..][size - n..] == q[RecordSize(q)..];
      Taken(Rx(size - n, q[HEAD_SIZE + n..]),
            Slice(true, q[..4], BigEndian(q[4], q[5]), q[HEAD_SIZE..HEAD_SIZE + n]))
    else
      var n := Min(len, rx.remained);
      assert q[n..][rx.remained - n..] == q[rx.remained..];
      Taken(Rx(rx.remained - n, q[n..]), Slice(false, [], 0, q[..n]))
  }

  /** `Take` in the two reads recvfrom makes: the head if a datagram starts, then the slice. */
  function HeadRead(rx: Rx): (rx': Rx)
    requires Framed(rx) && rx.queue != []
    ensures Framed(rx')
  {
    if rx.remained == 0 then
      assert rx.queue[0..] == rx.queue;
      var size := BigEndian(rx.queue[6], rx.queue[7]);
      assert rx.queue[HEAD_SIZE..][size..] == rx.queue[RecordSize(rx.queue)..];
      Rx(size, rx.queue[HEAD_SIZE..])
    else rx
  }

  lemma TakeInTwoReads(rx: Rx, len: u16)
    requires Framed(rx) && rx.queue != []
    ensures var mid, t := HeadRead(rx), Take(rx, len);
            var n := Min(len, mid.remained);
            && n <= |mid.queue|
            && t.rx == Rx(mid.remained - n, mid.queue[n..]) && t.slice.data == mid.queue[..n]
            && t.slice.first == (rx.remained == 0)
            && (t.slice.first ==> t.slice.addr == rx.queue[..4]
                                  && t.slice.port == BigEndian(rx.queue[4], rx.queue[5]))
  {
  }

  // ---------------------------------------------------------------------------------------
  // The datagrams behind the bytes.

  datatype Datagram = Datagram(addr: bytes, port: u16, payload: bytes)

  predicate ValidDatagram(d: Datagram) {
    |d.addr| == 4 && |d.payload| < 0x1_0000
  }

  predicate AllValid(ds: seq<Datagram>) {
    forall d :: d in ds ==> ValidDatagram(d)
  }

  function Encode(d: Datagram): (s: bytes)
    requires ValidDatagram(d)
    ensures |s| == HEAD_SIZE + |d.payload|
  {
    d.addr + [d.port / 0x100, d.port % 0x100] + [|d.payload| / 0x100, |d.payload| % 0x100] + d.payload
  }

  function EncodeAll(ds: seq<Datagram>): bytes
    requires AllValid(ds)
  {
    if ds == [] then [] else assert ds[0] in ds; Encode(ds[0]) + EncodeAll(ds[1..])
  }

  /** A socket's datagrams: how far the current one has been handed out, and those waiting. */
  datatype Inbox = Boundary(waiting: seq<Datagram>)
                 | Inside(current: Datagram, offset: nat, waiting: seq<Datagram>)

  predicate ValidInbox(b: Inbox) {
    && AllValid(b.waiting)
    && (b.Inside? ==> ValidDatagram(b.current) && b.offset < |b.current.payload|)
  }

  /** The bytes and the counter that stand for an inbox. */
  function Bytewise(b: Inbox): Rx
    requires ValidInbox(b)
  {
    match b
    case Boundary(ds) => Rx(0, EncodeAll(ds))
    case Inside(d, off, ds) => Rx(|d.payload| - off, d.payload[off..] + EncodeAll(ds))
  }

  function Handed(d: Datagram, off: nat, n: nat, later: seq<Datagram>): Inbox {
    if off + n < |d.payload| then Inside(d, off + n, later) else Boundary(later)
  }

  /** What a call should do: the next `len` bytes of the current datagram, or of the next one. */
  function TakeFrom(b: Inbox, len: u16): (Inbox, Slice)
    requires ValidInbox(b) && (b.Boundary? ==> b.waiting != [])
  {
    match b
    case Boundary(ds) =>
      var n := Min(len, |ds[0].payload|);
      (Handed(ds[0], 0, n, ds[1..]), Slice(true, ds[0].addr, ds[0].port, ds[0].payload[..n]))
    case Inside(d, off, ds) =>
      var n := Min(len, |d.payload| - off);
      (Handed(d, off, n, ds), Slice(false, [], 0, d.payload[off..off + n]))
  }

  lemma EncodedHead(d: Datagram, later: bytes)
    requires ValidDatagram(d)
    ensures var q := Encode(d) + later;
            && q[..4] == d.addr && BigEndian(q[4], q[5]) == d.port
            && BigEndian(q[6], q[7]) == |d.payload| && RecordSize(q) == |Encode(d)|
            && q[HEAD_SIZE..] == d.payload + later && q[RecordSize(q)..] == later
  {
  }

  lemma {:induction false} EncodedIsWhole(ds: seq<Datagram>)
    requires AllValid(ds)
    ensures WholeRecords(EncodeAll(ds))
  {
    if ds != [] {
      assert ds[0] in ds;
      EncodedHead(ds[0], EncodeAll(ds[1..]));
      EncodedIsWhole(ds[1..]);
    }
  }

  lemma CutAppend(a: bytes, b: bytes, n: nat)
    requires n <= |a|
    ensures (a + b)[..n] == a[..n] && (a + b)[n..] == a[n..] + b
  {
  }

  lemma TakeAtBoundary(d: Datagram, later: bytes, len: u16)
    requires ValidDatagram(d) && WholeRecords(later)
    ensures var q, n := Encode(d) + later, Min(len, |d.payload|);
            && Framed(Rx(0, q))
            && Take(Rx(0, q), len) == Taken(Rx(|d.payload| - n, d.payload[n..] + later),
                                            Slice(true, d.addr, d.port, d.payload[..n]))
  {
    var q, n := Encode(d) + later, Min(len, |d.payload|);
    EncodedHead(d, later);
    assert q[0..] == q;
    CutAppend(d.payload, later, n);
    assert q[HEAD_SIZE + n..] == q[HEAD_SIZE..][n..];
    assert q[HEAD_SIZE..HEAD_SIZE + n] == q[HEAD_SIZE..][..n];
  }

  /** Inside a datagram: `p` is its unread tail. */
  lemma TakeInside(p: bytes, later: bytes, len: u16)
    requires 0 < |p| < 0x1_0000 && WholeRecords(later)
    ensures var n := Min(len, |p|);
            && Framed(Rx(|p|, p + later))
            && Take(Rx(|p|, p + later), len) ==
               Taken(Rx(|p| - n, p[n..] + later), Slice(false, [], 0, p[..n]))
  {
    CutAppend(p, later, |p|);
    CutAppend(p, later, Min(len, |p|));
    assert p[|p|..] + later == later;
  }

  lemma HandedBytewise(d: Datagram, off: nat, n: nat, ds: seq<Datagram>)
    requires ValidDatagram(d) && AllValid(ds) && off + n <= |d.payload|
    ensures ValidInbox(Handed(d, off, n, ds))
    ensures Bytewise(Handed(d, off, n, ds)) == Rx(|d.payload| - off - n, d.payload[off + n..] + EncodeAll(ds))
  {
  }

  /** The two ways a call can find the bytes of a valid inbox. */
  lemma TakeRefinesBoundary(ds: seq<Datagram>, len: u16)
    requires AllValid(ds) && ds != []
    ensures Framed(Bytewise(Boundary(ds))) && Bytewise(Boundary(ds)).queue != []
    ensures var (b', slice) := TakeFrom(Boundary(ds), len);
            ValidInbox(b') && Take(Bytewise(Boundary(ds)), len) == Taken(Bytewise(b'), slice)
  {
    assert ds[0] in ds;
    EncodedIsWhole(ds[1..]);
    TakeAtBoundary(ds[0], EncodeAll(ds[1..]), len);
    HandedBytewise(ds[0], 0, Min(len, |ds[0].payload|), ds[1..]);
  }

  lemma TakeRefinesInside(b: Inbox, len: u16)
    requires ValidInbox(b) && b.Inside?
    ensures Framed(Bytewise(b)) && Bytewise(b).queue != []
    ensures var (b', slice) := TakeFrom(b, len);
            ValidInbox(b') && Take(Bytewise(b), len) == Taken(Bytewise(b'), slice)
  {
    hide Take;
    var p, later := b.current.payload[b.offset..], EncodeAll(b.waiting);
    var n := Min(len, |p|);
    EncodedIsWhole(b.waiting);
    TakeInside(p, later, len);
    InsideHanded(b, n);
    assert Bytewise(b) == Rx(|p|, p + later);
  }

  lemma InsideHanded(b: Inbox, n: nat)
    requires ValidInbox(b) && b.Inside? && n <= |b.current.payload| - b.offset
    ensures var p, b' := b.current.payload[b.offset..], Handed(b.current, b.offset, n, b.waiting);
            && ValidInbox(b') && Bytewise(b') == Rx(|p| - n, p[n..] + EncodeAll(b.waiting))
            && b.current.payload[b.offset..b.offset + n] == p[..n]
  {
    HandedBytewise(b.current, b.offset, n, b.waiting);
    assert b.current.payload[b.offset..][n..] == b.current.payload[b.offset + n..];
  }

  /** Main result: one call on the bytes is one call on the datagrams. The head is consumed and the
      sender reported on the first slice only, no slice crosses a datagram's end, and the counter
      is the unread tail of the current datagram. */
  lemma TakeRefines(b: Inbox, len: u16)
    requires ValidInbox(b) && (b.Boundary? ==> b.waiting != [])
    ensures Framed(Bytewise(b)) && Bytewise(b).queue != []
    ensures var (b', slice) := TakeFrom(b, len);
            ValidInbox(b') && Take(Bytewise(b), len) == Taken(Bytewise(b'), slice)
  {
    if b.Boundary? {
      TakeRefinesBoundary(b.waiting, len);
    } else {
      TakeRefinesInside(b, len);
    }
  }

  /** Conversely every framed queue at a boundary is the encoding of some datagrams. */
  lemma {:induction false} WholeRecordsDecode(s: bytes) returns (ds: seq<Datagram>)
    requires WholeRecords(s)
    ensures AllValid(ds) && EncodeAll(ds) == s
    decreases |s|
  {
    if s == [] {
      ds := [];
    } else {
      var n := RecordSize(s);
      var d := Datagram(s[..4], BigEndian(s[4], s[5]), s[HEAD_SIZE..n]);
      var later := WholeRecordsDecode(s[n..]);
      ds := [d] + later;
      assert ds[1..] == later;
      assert Encode(d) == s[..n];
    }
  }

  // ---------------------------------------------------------------------------------------
  // Whole runs.

  datatype Event = Call(len: u16) | Arrival(datagram: Datagram)

  predicate ValidEvent(e: Event) {
    match e
    case Call(len) => len > 0
    case Arrival(d) => ValidDatagram(d)
  }

  lemma ArrivalKeepsFraming(rx: Rx, d: Datagram)
    requires Framed(rx) && ValidDatagram(d)
    ensures Framed(Rx(rx.remained, rx.queue + Encode(d)))
  {
    EncodedHead(d, []);
    assert Encode(d) + [] == Encode(d);
    WholeRecordsAppend(rx.queue[rx.remained..], Encode(d));
    assert (rx.queue + Encode(d))[rx.remained..] == rx.queue[rx.remained..] + Encode(d);
  }

  /** What one event does on bytes; a call on an empty queue is busy and hands out nothing. */
  function StepBytes(rx: Rx, e: Event): (r: (Rx, seq<Slice>))
    requires Framed(rx) && ValidEvent(e)
    ensures Framed(r.0)
  {
    match e
    case Call(len) =>
      if rx.queue == [] then (rx, []) else var t := Take(rx, len); (t.rx, [t.slice])
    case Arrival(d) =>
      ArrivalKeepsFraming(rx, d);
      (Rx(rx.remained, rx.queue + Encode(d)), [])
  }

  function RunBytes(rx: Rx, es: seq<Event>): (r: (Rx, seq<Slice>))
    requires Framed(rx) && (forall e :: e in es ==> ValidEvent(e))
    ensures Framed(r.0)
    decreases |es|
  {
    if es == [] then (rx, [])
    else
      assert es[0] in es;
      var (rx', now) := StepBytes(rx, es[0]);
      var (rx'', later) := RunBytes(rx', es[1..]);
      (rx'', now + later)
  }

  function Arrived(es: seq<Event>): seq<Datagram> {
    if es == [] then []
    else (if es[0].Arrival? then [es[0].datagram] else []) + Arrived(es[1..])
  }

  /** How a receiver puts datagrams together: a first slice opens one, any other continues the
      last. */
  function Absorb(got: seq<Datagram>, s: Slice): seq<Datagram> {
    if s.first || got == [] then got + [Datagram(s.addr, s.port, s.data)]
    else
      var last := got[|got| - 1];
      got[..|got| - 1] + [last.(payload := last.payload + s.data)]
  }

  function Reassemble(got: seq<Datagram>, slices: seq<Slice>): seq<Datagram>
    decreases |slices|
  {
    if slices == [] then got else Reassemble(Absorb(got, slices[0]), slices[1..])
  }

  /** What a receiver has of the current datagram. */
  function Begun(b: Inbox): seq<Datagram>
    requires ValidInbox(b)
  {
    if b.Boundary? then [] else [b.current.(payload := b.current.payload[..b.offset])]
  }

  /** All datagrams in an inbox, the current one whole. */
  function Everything(b: Inbox): seq<Datagram> {
    if b.Boundary? then b.waiting else [b.current] + b.waiting
  }

  /** A receiver that holds `got`, with `rx` still to be read, is short of nothing of `all`: it has
      `done` whole and in order, then what has been handed out of the current datagram; that one
      and the waiting ones make up the rest. */
  ghost predicate AccountsBy(rx: Rx, got: seq<Datagram>, all: seq<Datagram>, done: seq<Datagram>, b: Inbox) {
    ValidInbox(b) && rx == Bytewise(b) && got == done + Begun(b) && all == done + Everything(b)
  }

  ghost predicate Accounts(rx: Rx, got: seq<Datagram>, all: seq<Datagram>) {
    exists done, b :: AccountsBy(rx, got, all, done, b)
  }

  lemma {:induction false} EncodeAllSnoc(ds: seq<Datagram>, d: Datagram)
    requires AllValid(ds) && ValidDatagram(d)
    ensures AllValid(ds + [d]) && EncodeAll(ds + [d]) == EncodeAll(ds) + Encode(d)
  {
    if ds == [] {
      assert EncodeAll([d]) == Encode(d) + EncodeAll([d][1..]) == Encode(d);
    } else {
      assert ds[0] in ds;
      assert (ds + [d])[1..] == ds[1..] + [d];
      EncodeAllSnoc(ds[1..], d);
    }
  }

  lemma BoundaryAccounts(got: seq<Datagram>, ds: seq<Datagram>, len: u16) returns (done: seq<Datagram>)
    requires AllValid(ds) && ds != []
    ensures var (b', slice) := TakeFrom(Boundary(ds), len);
            && ValidInbox(b') && Absorb(got, slice) == done + Begun(b')
            && done + Everything(b') == got + ds
  {
    assert ds[0] in ds;
    var d, n := ds[0], Min(len, |ds[0].payload|);
    assert d.payload[..|d.payload|] == d.payload;
    assert ds == [d] + ds[1..];
    if n < |d.payload| {
      done := got;
    } else {
      done := got + [d];
      assert Absorb(got, TakeFrom(Boundary(ds), len).1) == got + [d];
      assert (got + [d]) + ds[1..] == got + ([d] + ds[1..]);
    }
  }

  lemma InsideAccounts(done: seq<Datagram>, b: Inbox, len: u16) returns (done': seq<Datagram>)
    requires ValidInbox(b) && b.Inside?
    ensures var (b', slice) := TakeFrom(b, len);
            && ValidInbox(b') && Absorb(done + Begun(b), slice) == done' + Begun(b')
            && done' + Everything(b') == done + Everything(b)
  {
    var d, off, got := b.current, b.offset, done + Begun(b);
    var n := Min(len, |d.payload| - off);
    assert got[..|got| - 1] == done;
    assert d.payload[..off] + d.payload[off..off + n] == d.payload[..off + n];
    assert Absorb(got, TakeFrom(b, len).1) == done + [d.(payload := d.payload[..off + n])];
    if off + n < |d.payload| {
      done' := done;
    } else {
      done' := done + [d];
      assert d.payload[..|d.payload|] == d.payload;
      assert done' + b.waiting == done + ([d] + b.waiting);
    }
  }

  /** What one call adds to what the receiver has of the datagrams. */
  lemma TakeFromAccounts(got: seq<Datagram>, done: seq<Datagram>, b: Inbox, len: u16)
      returns (done': seq<Datagram>)
    requires ValidInbox(b) && (b.Boundary? ==> b.waiting != []) && got == done + Begun(b)
    ensures var (b', slice) := TakeFrom(b, len);
            && ValidInbox(b') && Absorb(got, slice) == done' + Begun(b')
            && done' + Everything(b') == done + Everything(b)
  {
    if b.Boundary? {
      assert got == done;
      done' := BoundaryAccounts(got, b.waiting, len);
    } else {
      done' := InsideAccounts(done, b, len);
    }
  }

  /** One call moves the account forward without losing or mixing anything. */
  lemma CallAccounts(rx: Rx, got: seq<Datagram>, all: seq<Datagram>, len: u16)
    requires Accounts(rx, got, all) && Framed(rx) && rx.queue != []
    ensures var t := Take(rx, len); Accounts(t.rx, Absorb(got, t.slice), all)
  {
    var done, b :| AccountsBy(rx, got, all, done, b);
    TakeRefines(b, len);
    var done' := TakeFromAccounts(got, done, b, len);
    assert AccountsBy(Take(rx, len).rx, Absorb(got, Take(rx, len).slice), all, done', TakeFrom(b, len).0);
  }

  function Queued(b: Inbox, d: Datagram): Inbox {
    b.(waiting := b.waiting + [d])
  }

  lemma QueuedBytewise(b: Inbox, d: Datagram)
    requires ValidInbox(b) && ValidDatagram(d)
    ensures ValidInbox(Queued(b, d))
    ensures Bytewise(Queued(b, d)) == Rx(Bytewise(b).remained, Bytewise(b).queue + Encode(d))
  {
    EncodeAllSnoc(b.waiting, d);
    if b.Inside? {
      var tail := b.current.payload[b.offset..];
      assert tail + (EncodeAll(b.waiting) + Encode(d)) == (tail + EncodeAll(b.waiting)) + Encode(d);
    }
  }

  lemma ArrivalAccounts(rx: Rx, got: seq<Datagram>, all: seq<Datagram>, d: Datagram)
    requires Accounts(rx, got, all) && ValidDatagram(d)
    ensures Accounts(Rx(rx.remained, rx.queue + Encode(d)), got, all + [d])
  {
    var done, b :| AccountsBy(rx, got, all, done, b);
    QueuedBytewise(b, d);
    assert Everything(Queued(b, d)) == Everything(b) + [d];
    assert AccountsBy(Rx(rx.remained, rx.queue + Encode(d)), got, all + [d], done, Queued(b, d));
  }

  lemma EventAccounts(rx: Rx, got: seq<Datagram>, all: seq<Datagram>, e: Event)
    requires Accounts(rx, got, all) && Framed(rx) && ValidEvent(e)
    ensures var (rx', now) := StepBytes(rx, e);
            && |now| <= 1 && Accounts(rx', Reassemble(got, now), all + Arrived([e]))
  {
    ArrivedOne(e);
    match e {
      case Call(len) =>
        assert all + [] == all;
        if rx.queue != [] {
          CallAccounts(rx, got, all, len);
          ReassembleOne(got, Take(rx, len).slice);
        }
      case Arrival(d) =>
        ArrivalAccounts(rx, got, all, d);
    }
  }

  lemma ArrivedOne(e: Event)
    ensures Arrived([e]) == if e.Arrival? then [e.datagram] else []
  {
    assert [e][1..] == [];
  }

  lemma ReassembleOne(got: seq<Datagram>, s: Slice)
    ensures Reassemble(got, [s]) == Absorb(got, s)
  {
    assert [s][1..] == [];
  }

  /** Main result: over any run of calls of any lengths with arrivals in between, what the receiver
      puts together is the datagrams that arrived, whole and in order, except for the part of the
      current one and the waiting ones that are still in the queue. */
  lemma {:induction false} RunAccounts(rx: Rx, got: seq<Datagram>, all: seq<Datagram>, es: seq<Event>)
    requires Accounts(rx, got, all) && Framed(rx)
    requires forall e :: e in es ==> ValidEvent(e)
    ensures var (rx', slices) := RunBytes(rx, es); Accounts(rx', Reassemble(got, slices), all + Arrived(es))
    decreases |es|
  {
    if es == [] {
      assert all + Arrived(es) == all;
    } else {
      assert es[0] in es;
      var (rx', now) := StepBytes(rx, es[0]);
      EventAccounts(rx, got, all, es[0]);
      RunAccounts(rx', Reassemble(got, now), all + Arrived([es[0]]), es[1..]);
      ReassembleStep(got, now, RunBytes(rx', es[1..]).1);
      ArrivedUnfolds(all, es);
    }
  }

  lemma ArrivedUnfolds(all: seq<Datagram>, es: seq<Event>)
    requires es != []
    ensures all + Arrived([es[0]]) + Arrived(es[1..]) == all + Arrived(es)
  {
    ArrivedOne(es[0]);
    Regroup(all, Arrived([es[0]]), Arrived(es[1..]));
  }

  lemma Regroup(a: seq<Datagram>, b: seq<Datagram>, c: seq<Datagram>)
    ensures a + b + c == a + (b + c)
  {
  }

  lemma ReassembleStep(got: seq<Datagram>, now: seq<Slice>, later: seq<Slice>)
    requires |now| <= 1
    ensures Reassemble(got, now + later) == Reassemble(Reassemble(got, now), later)
  {
    if now != [] {
      assert now[1..] == [] && (now + later)[1..] == later;
    } else {
      assert now + later == later;
    }
  }

  /** A drained run has delivered exactly what arrived. */
  lemma DrainedRunDelivers(es: seq<Event>)
    requires forall e :: e in es ==> ValidEvent(e)
    requires RunBytes(Rx(0, []), es).0.queue == []
    ensures Reassemble([], RunBytes(Rx(0, []), es).1) == Arrived(es)
  {
    var rx, got := RunBytes(Rx(0, []), es).0, Reassemble([], RunBytes(Rx(0, []), es).1);
    assert AccountsBy(Rx(0, []), [], [], [], Boundary([]));
    RunAccounts(Rx(0, []), [], [], es);
    assert [] + Arrived(es) == Arrived(es);
    var done, b :| AccountsBy(rx, got, Arrived(es), done, b);
    assert b.Boundary? && b.waiting == [];
  }

  // ---------------------------------------------------------------------------------------
  // A call of the driver as a stretch of such a run.

  function Arrivals(ds: seq<Datagram>): seq<Event> {
    if ds == [] then [] else [Arrival(ds[0])] + Arrivals(ds[1..])
  }

  lemma RunUnfolds(rx: Rx, e: Event, es: seq<Event>)
    requires Framed(rx) && ValidEvent(e) && forall e' :: e' in es ==> ValidEvent(e')
    ensures forall e' :: e' in [e] + es ==> ValidEvent(e')
    ensures var (rx', now) := StepBytes(rx, e);
            RunBytes(rx, [e] + es) == (RunBytes(rx', es).0, now + RunBytes(rx', es).1)
    ensures Arrived([e] + es) == (if e.Arrival? then [e.datagram] else []) + Arrived(es)
  {
    assert ([e] + es)[1..] == es;
  }

  lemma CallAlone(rx: Rx, len: u16)
    requires Framed(rx) && rx.queue != [] && len > 0
    ensures RunBytes(rx, [Call(len)]) == (Take(rx, len).rx, [Take(rx, len).slice]) && Arrived([Call(len)]) == []
  {
    RunUnfolds(rx, Call(len), []);
    assert [Call(len)] + [] == [Call(len)];
    assert [Take(rx, len).slice] + [] == [Take(rx, len).slice];
  }

  lemma ArrivalFirst(rx: Rx, d: Datagram, es: seq<Event>)
    requires Framed(rx) && ValidDatagram(d) && forall e :: e in es ==> ValidEvent(e)
    ensures Framed(Rx(rx.remained, rx.queue + Encode(d))) && forall e :: e in [Arrival(d)] + es ==> ValidEvent(e)
    ensures RunBytes(rx, [Arrival(d)] + es) == RunBytes(Rx(rx.remained, rx.queue + Encode(d)), es)
    ensures Arrived([Arrival(d)] + es) == [d] + Arrived(es)
  {
    ArrivalKeepsFraming(rx, d);
    RunUnfolds(rx, Arrival(d), es);
    var later := RunBytes(Rx(rx.remained, rx.queue + Encode(d)), es).1;
    assert [] + later == later;
  }

  lemma FirstArrival(queue: bytes, ds: seq<Datagram>)
    requires AllValid(ds) && ds != []
    ensures ValidDatagram(ds[0]) && AllValid(ds[1..])
    ensures queue + Encode(ds[0]) + EncodeAll(ds[1..]) == queue + EncodeAll(ds)
    ensures [ds[0]] + ds[1..] == ds
  {
    assert ds[0] in ds;
    BytesRegroup(queue, Encode(ds[0]), EncodeAll(ds[1..]));
  }

  lemma BytesRegroup(a: bytes, b: bytes, c: bytes)
    ensures a + b + c == a + (b + c)
  {
  }

  lemma ArrivalsUnfold(ds: seq<Datagram>, e: Event)
    requires ds != []
    ensures Arrivals(ds) + [e] == [Arrival(ds[0])] + (Arrivals(ds[1..]) + [e])
  {
  }

  lemma {:induction false} ArrivalsThenCall(rx: Rx, ds: seq<Datagram>, len: u16)
    requires Framed(rx) && AllValid(ds) && len > 0 && rx.queue + EncodeAll(ds) != []
    ensures var es, now := Arrivals(ds) + [Call(len)], Rx(rx.remained, rx.queue + EncodeAll(ds));
            && (forall e :: e in es ==> ValidEvent(e)) && Arrived(es) == ds
            && Framed(now) && RunBytes(rx, es) == (Take(now, len).rx, [Take(now, len).slice])
    decreases |ds|
  {
    if ds == [] {
      assert [] + [Call(len)] == [Call(len)] && rx.queue + [] == rx.queue;
      CallAlone(rx, len);
    } else {
      var d, later := ds[0], Arrivals(ds[1..]) + [Call(len)];
      assert d in ds;
      var rx' := Rx(rx.remained, rx.queue + Encode(d));
      FirstArrival(rx.queue, ds);
      ArrivalsUnfold(ds, Call(len));
      ArrivalKeepsFraming(rx, d);
      ArrivalsThenCall(rx', ds[1..], len);
      ArrivalFirst(rx, d, later);
    }
  }

  /** What a call of recvfrom() guarantees, one `Take` on its queue with whole records arrived
      behind it, is a stretch of such a run: the arrival of some datagrams, then the call. */
  lemma CallIsRun(rx: Rx, arrived: bytes, len: u16) returns (ds: seq<Datagram>)
    requires Framed(rx) && WholeRecords(arrived) && len > 0 && rx.queue + arrived != []
    ensures AllValid(ds) && EncodeAll(ds) == arrived
    ensures var es, now := Arrivals(ds) + [Call(len)], Rx(rx.remained, rx.queue + arrived);
            && (forall e :: e in es ==> ValidEvent(e)) && Arrived(es) == ds
            && Framed(now) && RunBytes(rx, es) == (Take(now, len).rx, [Take(now, len).slice])
  {
    ds := WholeRecordsDecode(arrived);
    ArrivalsThenCall(rx, ds, len);
  }
}
