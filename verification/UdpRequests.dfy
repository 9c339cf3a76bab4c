/**
 Whose connect request comm_udp_server takes a datagram for. It receives into forty bytes, so a longer
 datagram comes in several slices, each looked at as if it were a datagram; and recvfrom writes the
 sender's address with the first slice only. For any other slice the stored address is whatever stood
 in that place on the stack.
 */
module UdpRequests {
  import opened Bytes
  import opened Datagrams
  import opened Decimal
  import opened UdpCommand

  const MAX_EW_DGRAM: u16 := 40

  /** The address stored for a slice. */
  function StoredAddress(s: Slice, stack: bytes): bytes {
    if s.first then s.addr else stack
  }

  /** The datagram the next slice is of. */
  function Source(b: Inbox): Datagram
    requires b.Boundary? ==> b.waiting != []
  {
    if b.Boundary? then b.waiting[0] else b.current
  }

  /** An address other than this one. */
  function Other(addr: bytes): (other: bytes)
    requires |addr| == 4
    ensures |other| == 4 && other != addr
  {
    if addr == [0, 0, 0, 0] then [1, 0, 0, 0] else [0, 0, 0, 0]
  }

  /** The address stored for a slice is the one in its datagram's head, whatever the stack holds,
      exactly when the call starts the datagram. */
  lemma StoredAddressIff(b: Inbox, len: u16)
    requires ValidInbox(b) && (b.Boundary? ==> b.waiting != [])
    ensures var slice := TakeFrom(b, len).1;
            (forall stack: bytes :: |stack| == 4 ==> StoredAddress(slice, stack) == Source(b).addr) <==> b.Boundary?
  {
    if b.Inside? {
      assert StoredAddress(TakeFrom(b, len).1, Other(b.current.addr)) != b.current.addr;
    } else {
      assert b.waiting[0] in b.waiting;
    }
  }

  // ---------------------------------------------------------------------------------------
  // A whole datagram.

  /** What is left of a datagram to hand out from an offset. */
  function Rest(d: Datagram, off: nat): Inbox {
    if off == 0 then Boundary([d]) else if off < |d.payload| then Inside(d, off, []) else Boundary([])
  }

  function SliceAt(d: Datagram, off: nat): Slice
    requires off == 0 || off < |d.payload|
  {
    var data := d.payload[off..Min(off + 40, |d.payload|)];
    if off == 0 then Slice(true, d.addr, d.port, data) else Slice(false, [], 0, data)
  }

  /** The slices comm_udp_server receives of a datagram from an offset on. */
  function Slices(d: Datagram, off: nat): seq<Slice>
    requires off == 0 || off < |d.payload|
    decreases |d.payload| - off
  {
    [SliceAt(d, off)] + if off + 40 < |d.payload| then Slices(d, off + 40) else []
  }

  function Calls(n: nat): seq<Event> {
    if n == 0 then [] else [Call(MAX_EW_DGRAM)] + Calls(n - 1)
  }

  lemma SliceIsTaken(d: Datagram, off: nat)
    requires ValidDatagram(d) && (off == 0 || off < |d.payload|)
    ensures ValidInbox(Rest(d, off)) && Framed(Bytewise(Rest(d, off)))
    ensures ValidInbox(Rest(d, off + 40))
    ensures StepBytes(Bytewise(Rest(d, off)), Call(MAX_EW_DGRAM)) ==
            (Bytewise(Rest(d, off + 40)), [SliceAt(d, off)])
  {
    TakeRefines(Rest(d, off), MAX_EW_DGRAM);
    assert TakeFrom(Rest(d, off), MAX_EW_DGRAM) == (Rest(d, off + 40), SliceAt(d, off));
  }

  /** They are what as many calls of recvfrom hand out. */
  lemma {:induction false} SlicesAreTaken(d: Datagram, off: nat)
    requires ValidDatagram(d) && (off == 0 || off < |d.payload|)
    ensures var n := |Slices(d, off)|;
            && ValidInbox(Rest(d, off)) && Framed(Bytewise(Rest(d, off)))
            && (forall e :: e in Calls(n) ==> ValidEvent(e))
            && RunBytes(Bytewise(Rest(d, off)), Calls(n)) == (Rx(0, []), Slices(d, off))
    decreases |d.payload| - off
  {
    var n := |Slices(d, off)|;
    SliceIsTaken(d, off);
    if off + 40 < |d.payload| {
      SlicesAreTaken(d, off + 40);
    } else {
      assert Bytewise(Rest(d, off + 40)) == Rx(0, []) && Calls(0) == [];
    }
    assert Calls(n) == [Call(MAX_EW_DGRAM)] + Calls(n - 1);
    RunUnfolds(Bytewise(Rest(d, off)), Call(MAX_EW_DGRAM), Calls(n - 1));
  }

  /** Whether a slice behind the first is taken for a request: one begins forty bytes, or a multiple of
      forty, into the payload. */
  predicate RequestBehind(p: bytes, off: nat)
    decreases |p| - off
  {
    off < |p| && (ConnectPort(p[off..Min(off + 40, |p|)]).Some? || RequestBehind(p, off + 40))
  }

  /** Every slice that is taken for a request is stored with the datagram's own address. */
  ghost predicate StoredRight(d: Datagram, slices: seq<Slice>) {
    forall s, stack: bytes ::
      s in slices && |stack| == 4 && ConnectPort(s.data).Some? ==> StoredAddress(s, stack) == d.addr
  }

  lemma StoredRightUnfolds(d: Datagram, s: Slice, later: seq<Slice>)
    ensures StoredRight(d, [s] + later) <==> StoredRight(d, [s]) && StoredRight(d, later)
  {
    assert forall t :: t in [s] + later <==> t in [s] || t in later;
  }

  lemma OneStoredRightIff(d: Datagram, s: Slice)
    requires ValidDatagram(d) && (s.first ==> s.addr == d.addr)
    ensures StoredRight(d, [s]) <==> s.first || ConnectPort(s.data).None?
  {
    assert s in [s];
    assert !s.first ==> StoredAddress(s, Other(d.addr)) != d.addr;
  }

  lemma {:induction false} LaterSlicesIff(d: Datagram, off: nat)
    requires ValidDatagram(d) && 0 < off < |d.payload|
    ensures StoredRight(d, Slices(d, off)) <==> !RequestBehind(d.payload, off)
    decreases |d.payload| - off
  {
    var later := if off + 40 < |d.payload| then Slices(d, off + 40) else [];
    if off + 40 < |d.payload| {
      LaterSlicesIff(d, off + 40);
    }
    OneStoredRightIff(d, SliceAt(d, off));
    StoredRightUnfolds(d, SliceAt(d, off), later);
  }

  /** Main result: all requests taken from a datagram are stored with its own address, whatever the
      stack holds, exactly when none begins forty bytes, or a multiple of forty, into its payload. */
  lemma RequestsAreStoredRightIff(d: Datagram)
    requires ValidDatagram(d)
    ensures StoredRight(d, Slices(d, 0)) <==> !RequestBehind(d.payload, 40)
  {
    var later := if 40 < |d.payload| then Slices(d, 40) else [];
    if 40 < |d.payload| {
      LaterSlicesIff(d, 40);
    }
    OneStoredRightIff(d, SliceAt(d, 0));
    StoredRightUnfolds(d, SliceAt(d, 0), later);
  }

  lemma RequestOf80()
    ensures |Request(80)| == |PREFIX| + 8 && ConnectPort(Request(80)) == Some(80)
  {
    RequestIsRead(80);
    assert |Text(80)| == 2 by { assert Text(8) == [0x38]; }
  }

  lemma RequestInSecondSlice(d: Datagram, fill: bytes, request: bytes)
    requires ValidDatagram(d) && d.payload == fill + request
    requires |fill| == 40 && 0 < |request| <= 40 && ConnectPort(request).Some?
    ensures Slices(d, 0) == [Slice(true, d.addr, d.port, fill), Slice(false, [], 0, request)]
    ensures !StoredRight(d, Slices(d, 0))
  {
    hide ConnectPort, StoredRight;
    assert d.payload[0..40] == fill && d.payload[40..|d.payload|] == request;
    assert Slices(d, 40) == [SliceAt(d, 40)];
    assert RequestBehind(d.payload, 40);
    RequestsAreStoredRightIff(d);
  }

  /** Such a datagram: forty spaces, then a request. Its first slice is no request; its second is taken
      for one, from whatever address the stack holds. */
  lemma HiddenRequestIsStoredWrong(addr: bytes, port: u16)
    requires |addr| == 4
    ensures var fill := seq(40, _ => SPACE); var d := Datagram(addr, port, fill + Request(80));
            && |Request(80)| == 15 && ValidDatagram(d) && !StoredRight(d, Slices(d, 0))
            && Slices(d, 0) == [Slice(true, addr, port, fill), Slice(false, [], 0, Request(80))]
            && ConnectPort(fill).None? && ConnectPort(Request(80)) == Some(80)
  {
    hide Request, StoredRight, Slices;
    var fill := seq(40, _ => SPACE);
    RequestOf80();
    assert fill[..|PREFIX|][0] != PREFIX[0];
    RequestInSecondSlice(Datagram(addr, port, fill + Request(80)), fill, Request(80));
  }
}
