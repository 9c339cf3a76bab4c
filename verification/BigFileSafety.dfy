/**
 What a run of receive_bigfile_from_packet keeps and delivers.
 */
module BigFileSafety {
  import opened Bytes
  import opened PacketCodec
  import opened BigFile
  import Framing

  /** A fragment as it came in, with its transfer id. */
  datatype Tagged = Tagged(id: byte, fragment: Fragment)

  /** What a receiver should hold responsible for what it delivers: the START that opened the
      transfer and the fragments accepted since. Read off events and replies only. */
  datatype History = History(start: Option<Announcement>, accepted: seq<Tagged>)

  const NOTHING := History(None, [])

  function Remember(h: History, ev: Event, r: Reply): History {
    if ev.Extract? then h
    else match ev.input
      case Start(a) => History(a, [])
      case Frag(id, Whole(f)) => if r.Receiving? then h.(accepted := h.accepted + [Tagged(id, f)]) else h
      case _ => h
  }

  function RunHistory(e: Edition, st: State, h: History, evs: seq<Event>): History
    decreases |evs|
  {
    if evs == [] then h
    else
      var (st', r) := Step(e, st, evs[0]);
      if r.Undefined? then h else RunHistory(e, st', Remember(h, evs[0], r), evs[1..])
  }

  function Payloads(fs: seq<Tagged>): (ps: seq<bytes>)
    ensures |ps| == |fs|
  {
    seq(|fs|, i requires 0 <= i < |fs| => fs[i].fragment.data)
  }

  /** The bytes accepted so far, in order. */
  function Written(h: History): bytes {
    Concat(Payloads(h.accepted))
  }

  /** Exactly the fragments 0, 1, ... of the transfer with this id. */
  ghost predicate InOrder(fs: seq<Tagged>, id: byte) {
    forall k :: 0 <= k < |fs| ==> fs[k].id == id && fs[k].fragment.number == k
  }

  /** An open transfer is the one its START announced; what has been accepted is fragments
      0..next-1 with its id, and their bytes, in order, are the front of a region otherwise zero. */
  ghost predicate TransferOk(b: Big, h: History) {
    && h.start == Some(Announcement(b.id, b.name, b.size, b.count))
    && |b.contents| == Capacity(|b.name|, b.size)
    && |h.accepted| == b.next <= b.count && InOrder(h.accepted, b.id)
    && |Written(h)| <= b.size && |Written(h)| <= |b.contents|
    && b.contents == Written(h) + Zeros(|b.contents| - |Written(h)|)
  }

  /** The counters account for the transfer so far: bytes written and bytes remaining make up the
      announced size, fragments accepted and remaining the announced count. */
  ghost predicate Exact(st: State, b: Big, h: History) {
    st.cursor == |Written(h)| && st.cursor + st.remainSize == b.size && b.next + st.remainCount == b.count
  }

  /** Conservation: the counters are exact once a fragment has been accepted. */
  ghost predicate Inv(st: State, h: History) {
    st.big.Some? ==>
      && TransferOk(st.big.value, h)
      && (st.big.value.next > 0 ==> Exact(st, st.big.value, h))
  }

  lemma WrittenSnoc(h: History, t: Tagged)
    ensures Written(h.(accepted := h.accepted + [t])) == Written(h) + t.fragment.data
  {
    assert Payloads(h.accepted + [t]) == Payloads(h.accepted) + [t.fragment.data];
    ConcatSnoc(Payloads(h.accepted), t.fragment.data);
  }

  lemma NothingWritten(h: History)
    requires h.accepted == []
    ensures Written(h) == []
  {
    assert Payloads(h.accepted) == [];
  }

  lemma SpliceFront(written: bytes, room: nat, data: bytes)
    requires |data| <= room
    ensures Splice(written + Zeros(room), |written|, data) == (written + data) + Zeros(room - |data|)
  {
  }

  lemma PreparedIsExact(st: State, h: History)
    requires Inv(st, h) && st.big.Some?
    ensures Exact(Prepared(st), st.big.value, h) && Inv(Prepared(st), h) && Prepared(st).big == st.big
  {
    if st.big.value.next == 0 {
      NothingWritten(h);
    }
  }

  /** Accepting a fragment extends the transfer by it. */
  lemma AcceptKeepsInv(s: State, b: Big, h: History, f: Fragment)
    requires TransferOk(b, h) && Exact(s, b, h) && s.remainCount > 0
    requires f.number == b.next && |f.data| <= s.remainSize && s.cursor + |f.data| <= |b.contents|
    ensures var b' := b.(contents := Splice(b.contents, s.cursor, f.data), next := b.next + 1);
            var s' := State(Some(b'), s.remainSize - |f.data|, s.remainCount - 1, s.cursor + |f.data|);
            Inv(s', h.(accepted := h.accepted + [Tagged(b.id, f)]))
  {
    WrittenSnoc(h, Tagged(b.id, f));
    SpliceFront(Written(h), |b.contents| - |Written(h)|, f.data);
  }

  lemma FragKeepsInv(e: Edition, st: State, h: History, body: FragBody)
    requires Inv(st, h) && st.big.Some?
    ensures var (st', r) := TakeFrag(e, st, body);
            if r.Receiving? then
              body.Whole? && Inv(st', h.(accepted := h.accepted + [Tagged(st.big.value.id, body.fragment)]))
            else Inv(st', h)
  {
    PreparedIsExact(st, h);
    if TakeFrag(e, st, body).1.Receiving? {
      AcceptKeepsInv(Prepared(st), st.big.value, h, body.fragment);
    }
  }

  lemma StepKeepsInv(e: Edition, st: State, h: History, ev: Event)
    requires Inv(st, h)
    ensures var (st', r) := Step(e, st, ev); Inv(st', Remember(h, ev, r))
  {
    if ev.Receive? && ev.input.Start? && ev.input.announced.Some? {
      NothingWritten(History(ev.input.announced, []));
      var region := NewBig(ev.input.announced.value).contents;
      assert region == [] + Zeros(|region|);
    } else if ev.Receive? && ev.input.Frag? && st.big.Some? && ev.input.id == st.big.value.id {
      FragKeepsInv(e, st, h, ev.input.body);
    }
  }

  /** Conservation in every reachable state. */
  lemma {:induction false} RunKeepsInv(e: Edition, st: State, h: History, evs: seq<Event>)
    requires Inv(st, h)
    requires forall r :: r in Run(e, st, evs).1 ==> !r.Undefined?
    ensures Inv(Run(e, st, evs).0, RunHistory(e, st, h, evs))
    decreases |evs|
  {
    if evs != [] {
      var (st', r) := Step(e, st, evs[0]);
      assert r in Run(e, st, evs).1;
      StepKeepsInv(e, st, h, evs[0]);
      RunKeepsInv(e, st', Remember(h, evs[0], r), evs[1..]);
    }
  }

  // ---------------------------------------------------------------------------------------
  // What is delivered.

  /** A delivery is of the announced transfer: all its fragments were accepted, numbered 0..count-1
      under its id since its START, and the contents are their bytes in order, padded with zeros to
      the announced size. */
  ghost predicate DeliveryOk(f: File, h: History) {
    && h.start.Some?
    && var a := h.start.value;
    && |h.accepted| == a.count && InOrder(h.accepted, a.id)
    && |Written(h)| <= a.size
    && (f.size.Some? ==> f.size.value == a.size)
    && (f.name.Some? ==> f.name.value == a.name)
    && (f.contents.Some? ==> f.contents.value == Written(h) + Zeros(a.size - |Written(h)|))
  }

  lemma TakeFileDelivers(st: State, h: History, want: Want)
    requires Inv(st, h) && st.big.Some? && TakeFile(st, want).1.Delivered?
    ensures DeliveryOk(TakeFile(st, want).1.file, h)
  {
    var b := st.big.value;
    if want.file {
      assert b.contents[..b.size] == Written(h) + Zeros(b.size - |Written(h)|);
    }
  }

  lemma StepDelivers(e: Edition, st: State, h: History, ev: Event)
    requires Inv(st, h) && Step(e, st, ev).1.Delivered?
    ensures DeliveryOk(Step(e, st, ev).1.file, h)
    ensures ev.Receive? && h.start.value.count > 0 ==> |Written(h)| == h.start.value.size
  {
    TakeFileDelivers(st, h, ev.want);
  }

  /** Main result: whenever a run from the initial state delivers a file, by END or by extraction,
      it is the in-order concatenation of exactly the announced number of fragments accepted since
      the last START, padded to the announced size. END delivers an announced count above zero
      without any padding; a transfer announced with no fragments it delivers as zeros, so there
      the contents are what was accepted exactly when the announced size is zero too. */
  lemma DeliveredIsWhatWasAccepted(e: Edition, evs: seq<Event>, ev: Event)
    requires forall r :: r in Run(e, INITIAL, evs).1 ==> !r.Undefined?
    requires Step(e, Run(e, INITIAL, evs).0, ev).1.Delivered?
    ensures var h, f := RunHistory(e, INITIAL, NOTHING, evs), Step(e, Run(e, INITIAL, evs).0, ev).1.file;
            && DeliveryOk(f, h)
            && (ev.Receive? && f.contents.Some? ==>
                  (f.contents.value == Written(h) <==> h.start.value.count > 0 || h.start.value.size == 0))
  {
    RunKeepsInv(e, INITIAL, NOTHING, evs);
    var st, h := Run(e, INITIAL, evs).0, RunHistory(e, INITIAL, NOTHING, evs);
    StepDelivers(e, st, h, ev);
    assert Written(h) + Zeros(0) == Written(h);
    if h.accepted == [] {
      NothingWritten(h);
    }
  }

  /** By extraction the contents are what was accepted exactly when that is as long as announced. */
  lemma ExtractedIsWhatWasAcceptedIff(e: Edition, evs: seq<Event>, want: Want)
    requires forall r :: r in Run(e, INITIAL, evs).1 ==> !r.Undefined?
    requires want.file && Step(e, Run(e, INITIAL, evs).0, Extract(want)).1.Delivered?
    ensures var h, f := RunHistory(e, INITIAL, NOTHING, evs), Step(e, Run(e, INITIAL, evs).0, Extract(want)).1.file;
            h.start.Some? && (f.contents == Some(Written(h)) <==> |Written(h)| == h.start.value.size)
  {
    DeliveredIsWhatWasAccepted(e, evs, Extract(want));
    var h := RunHistory(e, INITIAL, NOTHING, evs);
    assert Written(h) + Zeros(0) == Written(h);
  }

  function Starts(evs: seq<Event>): nat {
    if evs == [] then 0
    else (if evs[0].Receive? && evs[0].input.Start? then 1 else 0) + Starts(evs[1..])
  }

  function Deliveries(rs: seq<Reply>): nat {
    if rs == [] then 0 else (if rs[0].Delivered? then 1 else 0) + Deliveries(rs[1..])
  }

  /** A caller that takes everything gets each announced file at most once. */
  lemma {:induction false} DeliveredAtMostOnce(e: Edition, st: State, evs: seq<Event>)
    requires forall ev :: ev in evs ==> TakesAll(ev.want)
    ensures Deliveries(Run(e, st, evs).1) <= Starts(evs) + (if st.big.Some? then 1 else 0)
    decreases |evs|
  {
    if evs != [] {
      var (st', r) := Step(e, st, evs[0]);
      assert TakesAll(evs[0].want);
      if !r.Undefined? {
        DeliveredAtMostOnce(e, st', evs[1..]);
      }
    }
  }

  // ---------------------------------------------------------------------------------------
  // Rejected fragments.

  /** The counters are as if nothing of the open transfer had come in yet. */
  predicate CountersFresh(st: State)
    requires st.big.Some?
  {
    st.remainSize == st.big.value.size && st.remainCount == st.big.value.count && st.cursor == 0
  }

  /** A rejected fragment leaves every static as it was exactly when it is for another transfer, or a
      fragment of this one has been accepted before, or the counters already stand at its start. */
  lemma RejectedFragmentStutters(e: Edition, st: State, id: byte, body: FragBody, want: Want)
    requires Step(e, st, Receive(Frag(id, body), want)).1.Rejected?
    ensures var st' := Step(e, st, Receive(Frag(id, body), want)).0;
            && (st.big.None? || id != st.big.value.id ==> st' == st)
            && (st.big.Some? && id == st.big.value.id ==> (st' == st <==> st.big.value.next > 0 || CountersFresh(st)))
  {
  }

  /** A START of a transfer of one byte in one fragment, and an END for it. */
  const SOLE_START := Receive(Start(Some(Announcement(7, [], 1, 1))), ALL)
  const SOLE_END := Receive(End(7, 0), ALL)

  lemma RunStep(e: Edition, st: State, ev: Event, evs: seq<Event>)
    requires !Step(e, st, ev).1.Undefined?
    ensures var (st', r) := Step(e, st, ev);
            Run(e, st, [ev] + evs) == (Run(e, st', evs).0, [r] + Run(e, st', evs).1)
  {
    assert ([ev] + evs)[1..] == evs;
  }

  lemma RunOne(e: Edition, st: State, ev: Event)
    ensures Run(e, st, [ev]) == (Step(e, st, ev).0, [Step(e, st, ev).1])
  {
    assert [ev][1..] == [];
    var r := Step(e, st, ev).1;
    assert [r] + [] == [r];
  }

  /** A run goes on where its first part ended, unless that ended undefined. */
  lemma {:induction false} RunAppend(e: Edition, st: State, a: seq<Event>, b: seq<Event>)
    requires forall r :: r in Run(e, st, a).1 ==> !r.Undefined?
    ensures var (st', rs) := Run(e, st, a);
            Run(e, st, a + b) == (Run(e, st', b).0, rs + Run(e, st', b).1)
    decreases |a|
  {
    if a == [] {
      assert a + b == b && [] + Run(e, st, b).1 == Run(e, st, b).1;
    } else {
      var (st', r) := Step(e, st, a[0]);
      assert r in Run(e, st, a).1;
      RunAppend(e, st', a[1..], b);
      assert (a + b)[1..] == a[1..] + b;
      var (later, rest) := (Run(e, st', a[1..]), Run(e, Run(e, st', a[1..]).0, b));
      assert [r] + (later.1 + rest.1) == ([r] + later.1) + rest.1;
    }
  }

  /** The first part of a defined run is defined. */
  lemma {:induction false} FrontIsDefined(e: Edition, st: State, a: seq<Event>, b: seq<Event>)
    requires forall r :: r in Run(e, st, a + b).1 ==> !r.Undefined?
    ensures forall r :: r in Run(e, st, a).1 ==> !r.Undefined?
    decreases |a|
  {
    if a != [] {
      var (st', r) := Step(e, st, a[0]);
      assert (a + b)[1..] == a[1..] + b && (a + b)[0] == a[0];
      assert r in Run(e, st, a + b).1;
      FrontIsDefined(e, st', a[1..], b);
    }
  }

  /** If a run's first replies are defined, they are the replies of its first part alone. */
  lemma {:induction false} RunFront(e: Edition, st: State, a: seq<Event>, b: seq<Event>, ra: seq<Reply>, rb: seq<Reply>)
    requires Run(e, st, a + b).1 == ra + rb && |ra| == |a|
    requires forall r :: r in ra ==> !r.Undefined?
    ensures Run(e, st, a).1 == ra
    decreases |a|
  {
    if a != [] {
      var (st', r) := Step(e, st, a[0]);
      assert (a + b)[1..] == a[1..] + b && (a + b)[0] == a[0];
      assert (ra + rb)[0] == r == ra[0] && (ra + rb)[1..] == ra[1..] + rb;
      assert ra[0] in ra;
      assert Run(e, st', a[1..] + b).1 == (ra + rb)[1..];
      RunFront(e, st', a[1..], b, ra[1..], rb);
      assert ra == [r] + ra[1..];
    }
  }

  /** Before that it can matter, in two runs from the start: an END straight after a START is refused
      but keeps the transfer open; with a rejected fragment in between it drops it. */
  lemma FirstRejectionMatters(e: Edition)
    ensures var (st, rs) := Run(e, INITIAL, [SOLE_START, SOLE_END]);
            rs == [Receiving, Rejected] && st.big.Some?
    ensures var (st, rs) := Run(e, INITIAL, [SOLE_START, Receive(Frag(7, Malformed), ALL), SOLE_END]);
            rs == [Receiving, Rejected, Rejected] && st.big.None?
  {
    var frag := Receive(Frag(7, Malformed), ALL);
    var st1 := Step(e, INITIAL, SOLE_START).0;
    var st2 := Step(e, st1, frag).0;
    RunOne(e, st1, SOLE_END);
    RunStep(e, INITIAL, SOLE_START, [SOLE_END]);
    assert [SOLE_START] + [SOLE_END] == [SOLE_START, SOLE_END];
    RunOne(e, st2, SOLE_END);
    RunStep(e, st1, frag, [SOLE_END]);
    assert [frag] + [SOLE_END] == [frag, SOLE_END];
    RunStep(e, INITIAL, SOLE_START, [frag, SOLE_END]);
    assert [SOLE_START] + [frag, SOLE_END] == [SOLE_START, frag, SOLE_END];
  }

  /** A fragment for the open transfer. */
  predicate LooksAt(st: State, ev: Event) {
    ev.Receive? && ev.input.Frag? && st.big.Some? && ev.input.id == st.big.value.id
  }

  /** The transfer for which a run has last looked at a fragment, with what had been accepted of it by
      then, that fragment included. */
  function RunLooked(e: Edition, st: State, h: History, looked: Option<History>, evs: seq<Event>): Option<History>
    decreases |evs|
  {
    if evs == [] then looked
    else
      var (st', r) := Step(e, st, evs[0]);
      var h' := Remember(h, evs[0], r);
      if r.Undefined? then looked
      else RunLooked(e, st', h', if LooksAt(st, evs[0]) then Some(h') else looked, evs[1..])
  }

  /** The counters are what that transfer lacks, whatever has been announced since. */
  ghost predicate CountersAre(st: State, looked: Option<History>) {
    match looked
    case None => st.remainSize == 0 && st.remainCount == 0
    case Some(h) =>
      && h.start.Some?
      && |Written(h)| + st.remainSize == h.start.value.size && |h.accepted| + st.remainCount == h.start.value.count
  }

  lemma FragSetsCounters(e: Edition, st: State, h: History, body: FragBody)
    requires Inv(st, h) && st.big.Some? && !TakeFrag(e, st, body).1.Undefined?
    ensures var (st', r) := TakeFrag(e, st, body);
            CountersAre(st', Some(if r.Receiving? then h.(accepted := h.accepted + [Tagged(st.big.value.id, body.fragment)])
                                  else h))
  {
    hide Written, InOrder;
    PreparedIsExact(st, h);
    if TakeFrag(e, st, body).1.Receiving? {
      WrittenSnoc(h, Tagged(st.big.value.id, body.fragment));
    }
  }

  lemma StepKeepsCounters(e: Edition, st: State, h: History, looked: Option<History>, ev: Event)
    requires Inv(st, h) && CountersAre(st, looked) && !Step(e, st, ev).1.Undefined?
    ensures var (st', r) := Step(e, st, ev);
            CountersAre(st', if LooksAt(st, ev) then Some(Remember(h, ev, r)) else looked)
  {
    hide Written, Inv, TakeFrag;
    if LooksAt(st, ev) {
      FragSetsCounters(e, st, h, ev.input.body);
      FragKeepsInv(e, st, h, ev.input.body);
    }
  }

  lemma {:induction false} RunKeepsCounters(e: Edition, st: State, h: History, looked: Option<History>, evs: seq<Event>)
    requires Inv(st, h) && CountersAre(st, looked)
    requires forall r :: r in Run(e, st, evs).1 ==> !r.Undefined?
    ensures CountersAre(Run(e, st, evs).0, RunLooked(e, st, h, looked, evs))
    decreases |evs|
  {
    if evs != [] {
      var (st', r) := Step(e, st, evs[0]);
      assert r in Run(e, st, evs).1;
      StepKeepsInv(e, st, h, evs[0]);
      StepKeepsCounters(e, st, h, looked, evs[0]);
      var h' := Remember(h, evs[0], r);
      RunKeepsCounters(e, st', h', if LooksAt(st, evs[0]) then Some(h') else looked, evs[1..]);
    }
  }

  /** All of a transfer has been accepted. */
  predicate Finished(h: History) {
    h.start.Some? && |h.accepted| == h.start.value.count && |Written(h)| == h.start.value.size
  }

  /** What decides it, after any run: an END of the open transfer is judged by the transfer for which a
      fragment was last looked at, which may be an earlier one. It is refused exactly when that one is
      not finished, a checksum is asked for, the open one lacks a fragment or a copy finds no memory;
      and then it keeps the open one exactly when that one is finished and no checksum is asked for. */
  lemma RefusedEndKeepsIff(e: Edition, evs: seq<Event>, id: byte, checksumType: byte, want: Want)
    requires forall r :: r in Run(e, INITIAL, evs).1 ==> !r.Undefined?
    requires var st := Run(e, INITIAL, evs).0; st.big.Some? && id == st.big.value.id
    ensures var (st', r) := Step(e, Run(e, INITIAL, evs).0, Receive(End(id, checksumType), want));
            var h, looked := RunHistory(e, INITIAL, NOTHING, evs), RunLooked(e, INITIAL, NOTHING, None, evs);
            var passes := (looked.Some? ==> Finished(looked.value)) && checksumType == 0;
            var heap := (want.name ==> want.heapForName) && (want.file ==> want.heapForCopy);
            && h.start.Some?
            && (r.Rejected? <==> !passes || |h.accepted| != h.start.value.count || !heap)
            && (r.Rejected? ==> (st'.big.Some? <==> passes))
  {
    RunKeepsInv(e, INITIAL, NOTHING, evs);
    RunKeepsCounters(e, INITIAL, NOTHING, None, evs);
  }

  /** A transfer announced with no fragments but five bytes: an END straight after it delivers five
      bytes nobody sent. */
  lemma EmptyTransferDeliversZeros(e: Edition)
    ensures var start, end := Receive(Start(Some(Announcement(7, [], 5, 0))), ALL), Receive(End(7, 0), ALL);
            Run(e, INITIAL, [start, end]) ==
            (INITIAL, [Receiving, Delivered(File(Some(5), Some([]), Some(Zeros(5))))])
  {
    var start, end := Receive(Start(Some(Announcement(7, [], 5, 0))), ALL), Receive(End(7, 0), ALL);
    var st := Step(e, INITIAL, start).0;
    assert st.big.value.contents[..5] == Zeros(5);
    var file := Delivered(File(Some(5), Some([]), Some(Zeros(5))));
    assert Step(e, st, end) == (INITIAL, file);
    assert [Receiving] + [file] == [Receiving, file];
    RunOne(e, st, end);
    RunStep(e, INITIAL, start, [end]);
    assert [start] + [end] == [start, end];
  }

  /** A fragment message that is nothing but an id: behind its open transfer, and with no memory that
      says otherwise behind it, it is taken for number 0 and its length is read through a null
      pointer; as documented it is rejected. */
  lemma BareFragmentIsUndefined(e: Edition)
    ensures var frag := Receive(Read(Message(TYPE_BIGFILE_FRAG, [7], [], true, true)), ALL);
            Run(e, INITIAL, [SOLE_START, frag]).1 == [Receiving, if e == Framing.AsWritten then Undefined else Rejected]
  {
    var frag := Receive(Read(Message(TYPE_BIGFILE_FRAG, [7], [], true, true)), ALL);
    assert [7] + [] == [7] && [7][1..] == [];
    var st := Step(e, INITIAL, SOLE_START).0;
    RunOne(e, st, frag);
    RunStep(e, INITIAL, SOLE_START, [frag]);
    assert [SOLE_START] + [frag] == [SOLE_START, frag];
  }

  /** A packet that is none of the open transfer's business: not a message, or a fragment or an END with
      another id, or when none is open. */
  predicate Foreign(st: State, ev: Event) {
    && ev.Receive?
    && (|| ev.input.Other?
        || (ev.input.Frag? && (st.big.None? || ev.input.id != st.big.value.id))
        || (ev.input.End? && (st.big.None? || ev.input.id != st.big.value.id)))
  }

  lemma ForeignIsPassedOver(e: Edition, st: State, ev: Event)
    requires Foreign(st, ev)
    ensures Step(e, st, ev) == (st, Rejected)
  {
  }

  /** That, or a fragment rejected although one has been accepted before. */
  predicate Idle(e: Edition, st: State, ev: Event) {
    || Foreign(st, ev)
    || (ev.Receive? && ev.input.Frag? && Step(e, st, ev).1.Rejected? && st.big.Some? && st.big.value.next > 0)
  }

  /** The events of a run without those. */
  function WithoutIdle(e: Edition, st: State, evs: seq<Event>): seq<Event>
    decreases |evs|
  {
    if evs == [] then []
    else
      var (st', r) := Step(e, st, evs[0]);
      if r.Undefined? then evs
      else (if Idle(e, st, evs[0]) then [] else [evs[0]]) + WithoutIdle(e, st', evs[1..])
  }

  /** The replies of a run without the replies to those. */
  function RepliesWithoutIdle(e: Edition, st: State, evs: seq<Event>): seq<Reply>
    decreases |evs|
  {
    if evs == [] then []
    else
      var (st', r) := Step(e, st, evs[0]);
      if r.Undefined? then [r]
      else (if Idle(e, st, evs[0]) then [] else [r]) + RepliesWithoutIdle(e, st', evs[1..])
  }

  /** Deleting them from a run changes neither where it ends nor the reply to any other event. */
  lemma {:induction false} IdlePacketsCanBeDeleted(e: Edition, st: State, evs: seq<Event>)
    ensures Run(e, st, WithoutIdle(e, st, evs)) == (Run(e, st, evs).0, RepliesWithoutIdle(e, st, evs))
    decreases |evs|
  {
    if evs != [] && !Step(e, st, evs[0]).1.Undefined? {
      var (st', r) := Step(e, st, evs[0]);
      var later := WithoutIdle(e, st', evs[1..]);
      IdlePacketsCanBeDeleted(e, st', evs[1..]);
      if Idle(e, st, evs[0]) {
        IdleIsPassedOver(e, st, evs[0]);
        assert [] + later == later && [] + RepliesWithoutIdle(e, st', evs[1..]) == RepliesWithoutIdle(e, st', evs[1..]);
      } else {
        RunStep(e, st, evs[0], later);
      }
    }
  }

  lemma IdleIsPassedOver(e: Edition, st: State, ev: Event)
    requires Idle(e, st, ev)
    ensures Step(e, st, ev) == (st, Rejected)
  {
    if Foreign(st, ev) {
      ForeignIsPassedOver(e, st, ev);
    } else {
      RejectedFragmentStutters(e, st, ev.input.id, ev.input.body, ev.want);
    }
  }

  /** What opens a transfer, and what ends one: a START that can be read opens the one it announces; one
      that cannot, or a message lost for lack of heap, leaves none open; an END ends the open one unless it
      is refused for lack of a fragment or of heap, or the caller does not take everything. An extraction
      ends it when all of it is taken. */
  lemma OpensAndEnds(e: Edition, st: State, ev: Event)
    ensures var (st', r) := Step(e, st, ev);
            var open := st.big.Some?;
            && (ev.Receive? && ev.input.Start? ==>
                  (st'.big.Some? <==> ev.input.announced.Some? && r.Receiving?) && !r.Delivered?)
            && (ev.Receive? && ev.input.Lost? ==> st'.big.None? && r.Rejected?)
            && (ev.Receive? && ev.input.Frag? ==> (st'.big.Some? <==> open) && !r.Delivered?)
            && (ev.Receive? && ev.input.Other? ==> st' == st && r.Rejected?)
            && (ev.Extract? ==> (st'.big.Some? <==> open && !(r.Delivered? && TakesAll(ev.want))))
            && (r.Delivered? ==> open && (st'.big.Some? <==> !TakesAll(ev.want)))
            && (r.Delivered? ==> r.file.size.Some? == ev.want.size && r.file.name.Some? == ev.want.name
                                 && r.file.contents.Some? == ev.want.file)
  {
  }

  // ---------------------------------------------------------------------------------------
  // Where the run can leave the C semantics.

  /** The contents region holds the announced size exactly when the size of the record did not wrap
      in 32 bits. */
  lemma RegionHoldsFileIff(nameLen: nat, size: u32)
    requires nameLen < 0x1_0000
    ensures Capacity(nameLen, size) >= size <==> RECORD_SIZE + nameLen + size + 4 < 0x1_0000_0000
  {
  }

  /** How much room a record has for contents, and when it does not even hold its name: for the sizes just
      short of 2^32 that make its own size wrap to less. */
  lemma RoomIs(nameLen: nat, size: u32)
    requires nameLen < 0x1_0000
    ensures HoldsName(nameLen, size) <==> size < 0x1_0000_0000 - 28 - nameLen || size >= 0x1_0000_0000 - 6
    ensures Capacity(nameLen, size) ==
            if size < 0x1_0000_0000 - 28 - nameLen then size + 6
            else if size >= 0x1_0000_0000 - 6 then size + 6 - 0x1_0000_0000 else 0
  {
  }

  ghost predicate Unwrapped(ev: Event) {
    ev.Receive? && ev.input.Start? && ev.input.announced.Some? ==>
      var a := ev.input.announced.value;
      RECORD_SIZE + |a.name| + a.size + 4 < 0x1_0000_0000
  }

  ghost predicate RegionOk(st: State) {
    st.big.Some? ==> st.big.value.size <= |st.big.value.contents|
  }

  /** With regions large enough, a step is undefined only as written and for the expected fragment
      number without a terminator, or for a START whose record wraps to less than its name takes. */
  lemma UndefinedIff(e: Edition, st: State, h: History, ev: Event)
    requires Inv(st, h) && RegionOk(st)
    ensures Step(e, st, ev).1.Undefined? <==>
              || (&& e.AsWritten? && ev.Receive? && st.big.Some? && Prepared(st).remainCount > 0
                  && ev.input == Frag(st.big.value.id, Unterminated(st.big.value.next)))
              || (&& ev.Receive? && ev.input.Start? && ev.input.announced.Some?
                  && !HoldsName(|ev.input.announced.value.name|, ev.input.announced.value.size))
    ensures Unwrapped(ev) ==> RegionOk(Step(e, st, ev).0)
  {
    if st.big.Some? {
      PreparedIsExact(st, h);
    }
  }

  /** As documented, every fragment copy of every run lands inside its region, and nothing else
      leaves the C semantics either, as long as no announced record size wraps. */
  lemma {:induction false} DocumentedRunIsDefined(st: State, h: History, evs: seq<Event>)
    requires Inv(st, h) && RegionOk(st)
    requires forall ev :: ev in evs ==> Unwrapped(ev)
    ensures forall r :: r in Run(Framing.AsDocumented, st, evs).1 ==> !r.Undefined?
    decreases |evs|
  {
    if evs != [] {
      var (st', r) := Step(Framing.AsDocumented, st, evs[0]);
      assert Unwrapped(evs[0]);
      UndefinedIff(Framing.AsDocumented, st, h, evs[0]);
      StepKeepsInv(Framing.AsDocumented, st, h, evs[0]);
      DocumentedRunIsDefined(st', Remember(h, evs[0], r), evs[1..]);
    }
  }
}
