/**
 The socket layer in its W5500 configuration: socket.c's statics and the calls the application uses.
 `done` is false when a call was still in one of its polling loops after `patience` rounds; whatever
 such a call guarantees so far is stated too.
 */
module SocketDriver {
  import opened Bytes
  import opened SocketBits
  import opened Chip
  import opened Datagrams

  const SOCK_OK := 1
  const SOCK_BUSY := 0
  const SOCKERR_SOCKNUM := -1
  const SOCKERR_SOCKINIT := -3
  const SOCKERR_SOCKCLOSED := -4
  const SOCKERR_SOCKMODE := -5
  const SOCKERR_SOCKFLAG := -6
  const SOCKERR_SOCKSTATUS := -7
  const SOCKERR_ARG := -10
  const SOCKERR_PORTZERO := -11
  const SOCKERR_IPINVALID := -12
  const SOCKERR_TIMEOUT := -13
  const SOCKERR_DATALEN := -14
  const SOCKFATAL_PACKLEN := -1001

  const SOCK_IO_BLOCK := 0
  const SOCK_IO_NONBLOCK := 1
  const SIK_ALL := 0x1F

  const PACK_COMPLETED: byte := 0x00
  const PACK_REMAINED: byte := 0x01
  const PACK_FIRST: byte := 0x80
  const MACRAW_LIMIT := 1514

  const ANY_PORT_FIRST: u16 := 0xC000
  const ANY_PORT_END: u16 := 0xFFF0

  /** One socket's share of the driver's statics. */
  datatype SockView = SockView(nonblock: bool, sending: bool, remained: u16, packInfo: byte)

  /** What the calls on one socket have answered, in order: recv, send and connect, the slices recvfrom
      has handed out while the socket was a UDP socket, and what the application has read off the
      status register. A call still in a polling loop has not answered. */
  datatype CallLog = CallLog(
    recvs: seq<int>, sends: seq<int>, connects: seq<int>, slices: seq<Slice>, states: seq<byte>)

  const NO_CALLS := CallLog([], [], [], [], [])

  /** The log after some more answers of recv or send, or a slice, on one socket. */
  function Received(log: seq<CallLog>, sn: nat, rets: seq<int>): (r: seq<CallLog>)
    requires sn < |log|
    ensures |r| == |log|
  {
    log[sn := log[sn].(recvs := log[sn].recvs + rets)]
  }

  function Sent(log: seq<CallLog>, sn: nat, rets: seq<int>): (r: seq<CallLog>)
    requires sn < |log|
    ensures |r| == |log|
  {
    log[sn := log[sn].(sends := log[sn].sends + rets)]
  }

  function HandedOut(log: seq<CallLog>, sn: nat, slice: Slice): (r: seq<CallLog>)
    requires sn < |log|
    ensures |r| == |log|
  {
    log[sn := log[sn].(slices := log[sn].slices + [slice])]
  }

  function Connected(log: seq<CallLog>, sn: nat, ret: int): (r: seq<CallLog>)
    requires sn < |log|
    ensures |r| == |log|
  {
    log[sn := log[sn].(connects := log[sn].connects + [ret])]
  }

  function StatusRead(log: seq<CallLog>, sn: nat, state: byte): (r: seq<CallLog>)
    requires sn < |log|
    ensures |r| == |log|
  {
    log[sn := log[sn].(states := log[sn].states + [state])]
  }

  lemma LogsChain(log: seq<CallLog>, sn: nat, a: seq<int>, b: seq<int>)
    requires sn < |log|
    ensures Received(log, sn, []) == log && Sent(log, sn, []) == log
    ensures Received(Received(log, sn, a), sn, b) == Received(log, sn, a + b)
    ensures Sent(Sent(log, sn, a), sn, b) == Sent(log, sn, a + b)
  {
    assert log[sn].recvs + [] == log[sn].recvs && log[sn].sends + [] == log[sn].sends;
    assert log[sn].recvs + a + b == log[sn].recvs + (a + b);
    assert log[sn].sends + a + b == log[sn].sends + (a + b);
  }

  const RELEASED := SockView(false, false, 0, PACK_COMPLETED)

  // ---------------------------------------------------------------------------------------
  // The transmit discipline, on the trace a socket leaves.

  ghost predicate Outstanding(t: seq<TxEvent>) {
    t != [] && t[|t| - 1] == SendIssued
  }

  /** No SEND is issued while the one before it is outstanding. */
  ghost predicate Disciplined(t: seq<TxEvent>) {
    forall i :: 0 < i < |t| && t[i] == SendIssued ==> t[i - 1] != SendIssued
  }

  predicate SameConnection(t: seq<TxEvent>, i: nat, j: nat)
    requires i <= j <= |t|
  {
    forall k :: i <= k < j ==> t[k] == SendIssued || t[k] == SendOkCleared
  }

  /** Between two SENDs of one connection the completion of the first was seen and cleared. */
  lemma SendsAreAcknowledged(t: seq<TxEvent>, i: nat, j: nat)
    requires Disciplined(t) && i < j < |t|
    requires t[i] == SendIssued && t[j] == SendIssued && SameConnection(t, i, j)
    ensures exists k :: i < k < j && t[k] == SendOkCleared
  {
    assert t[j - 1] != SendIssued;
    assert i < j - 1 && t[j - 1] == SendOkCleared;
  }

  // ---------------------------------------------------------------------------------------
  // Ephemeral ports.

  predicate AnyPort(p: int) {
    ANY_PORT_FIRST <= p < ANY_PORT_END
  }

  /** The port handed out next after `p`. */
  function NextPort(p: u16): (q: u16)
    requires AnyPort(p)
    ensures AnyPort(q)
  {
    if p + 1 == ANY_PORT_END then ANY_PORT_FIRST else p + 1
  }

  /** The port handed out after `k` others. */
  function NthPort(p: u16, k: nat): (q: u16)
    requires AnyPort(p)
    ensures AnyPort(q)
    decreases k
  {
    if k == 0 then p else NthPort(NextPort(p), k - 1)
  }

  lemma {:induction false} NthPortValue(p: u16, k: nat)
    requires AnyPort(p)
    ensures NthPort(p, k) == 0xC000 + (p - 0xC000 + k) % 0x3FF0
    decreases k
  {
    if k > 0 {
      NthPortValue(NextPort(p), k - 1);
    }
  }

  /** Any 0x3FF0 consecutive ephemeral ports are pairwise distinct, and the next one repeats the
      first: the cycle is exactly that long. */
  lemma EphemeralPortsDistinct(p: u16, i: nat, j: nat)
    requires AnyPort(p) && i <= j <= i + 0x3FF0
    ensures NthPort(p, i) == NthPort(p, j) <==> i == j || j == i + 0x3FF0
  {
    NthPortValue(p, i);
    NthPortValue(p, j);
    OneCycle(p - 0xC000 + i, j - i);
  }

  lemma OneCycle(a: nat, d: nat)
    requires d <= 0x3FF0
    ensures a % 0x3FF0 == (a + d) % 0x3FF0 <==> d == 0 || d == 0x3FF0
  {
    var q, r := a / 0x3FF0, a % 0x3FF0;
    assert a + d == 0x3FF0 * q + (r + d);
    if r + d < 0x3FF0 {
      assert (a + d) % 0x3FF0 == r + d;
    } else if r + d < 0x7FE0 {
      assert a + d == 0x3FF0 * (q + 1) + (r + d - 0x3FF0);
      assert (a + d) % 0x3FF0 == r + d - 0x3FF0;
    }
  }

  // ---------------------------------------------------------------------------------------

  /** sock_pack_info between calls. */
  function PackInfoFor(remained: u16): byte {
    if remained == 0 then PACK_COMPLETED else PACK_FIRST + PACK_REMAINED
  }

  /** What every call keeps for every socket: the packet flag says whether a datagram is half
      read; on a UDP socket that is open or in the middle of a
      datagram the queue is framed; SENDs are acknowledged one by one, and an
      outstanding one is remembered; what has been read is committed. */
  ghost predicate SocketOk(v: SockView, r: Regs) {
    && v.packInfo == PackInfoFor(v.remained) && !r.reading
    && (UdpMode(r.mr) && (r.sr != SOCK_CLOSED || v.remained > 0) ==> Framed(Rx(v.remained, r.rx)))
    && Disciplined(r.trace)
    && (Outstanding(r.trace) ==> v.sending)
  }

  lemma EvolutionKeepsOk(v: SockView, a: Regs, b: Regs)
    requires SocketOk(v, a) && Evolves(a, b)
    ensures SocketOk(v, b)
  {
    if UdpMode(b.mr) && (b.sr != SOCK_CLOSED || v.remained > 0) {
      ArrivalsKeepFraming(v.remained, a.rx, b.rx);
    }
  }

  lemma ClosedIsOk(v: SockView, r: Regs)
    requires SocketOk(v, r)
    ensures SocketOk(RELEASED, AfterClear(AfterCommand(r, Close), 0xFF))
  {
  }

  class Driver {
    const chip: W5500
    var anyPort: u16
    var ioMode: u16
    var isSending: u16
    var remained: seq<u16>
    var packInfo: seq<byte>
    ghost var calls: seq<CallLog>

    ghost predicate Valid()
      reads this, chip
    {
      && chip.Valid()
      && AnyPort(anyPort)
      && |remained| == SOCK_NUM && |packInfo| == SOCK_NUM && |calls| == SOCK_NUM
      && forall i :: 0 <= i < SOCK_NUM ==> SocketOk(View(i), chip.socks[i])
    }

    function View(i: nat): SockView
      requires i < SOCK_NUM && |remained| == SOCK_NUM && |packInfo| == SOCK_NUM
      reads this
    {
      SockView(Bit(ioMode, i), Bit(isSending, i), remained[i], packInfo[i])
    }

    /** Between the two reads of recvfrom(): all is in order but the packet flag of `sn`. */
    ghost predicate Halfway(sn: nat)
      reads this, chip
    {
      && chip.Valid() && AnyPort(anyPort)
      && |remained| == SOCK_NUM && |packInfo| == SOCK_NUM && |calls| == SOCK_NUM && sn < SOCK_NUM
      && SocketOk(View(sn).(packInfo := PackInfoFor(remained[sn])), chip.socks[sn])
      && forall i :: 0 <= i < SOCK_NUM && i != sn ==> SocketOk(View(i), chip.socks[i])
    }

    /** Every socket but `sn` is as it was, in the statics, in the log and on the chip. */
    twostate predicate OthersKept(sn: nat)
      requires old(|chip.socks|) == SOCK_NUM && |chip.socks| == SOCK_NUM
      requires old(|remained|) == SOCK_NUM && |remained| == SOCK_NUM
      requires old(|packInfo|) == SOCK_NUM && |packInfo| == SOCK_NUM
      requires old(|calls|) == SOCK_NUM && |calls| == SOCK_NUM
      reads this, chip
    {
      && chip.sipr == old(chip.sipr)
      && forall m :: 0 <= m < SOCK_NUM && m != sn ==>
           View(m) == old(View(m)) && chip.socks[m] == old(chip.socks[m]) && calls[m] == old(calls[m])
    }

    /** The socket's mode is as it was; if it is not closed it was not closed before and has kept its
        I/O mode. */
    twostate predicate ModeKept(sn: nat)
      requires sn < old(|chip.socks|) && sn < |chip.socks|
      reads this, chip
    {
      && chip.socks[sn].mr == old(chip.socks[sn].mr)
      && (chip.socks[sn].sr != SOCK_CLOSED ==>
            old(chip.socks[sn].sr) != SOCK_CLOSED && Bit(ioMode, sn) == old(Bit(ioMode, sn)))
    }

    /** Nor has it been told to connect. */
    twostate predicate Quiet(sn: nat)
      requires sn < old(|chip.socks|) && sn < |chip.socks|
      reads this, chip
    {
      && ModeKept(sn) && chip.socks[sn].dialed == old(chip.socks[sn].dialed)
      && StreamKept(old(chip.socks[sn]), chip.socks[sn])
    }

    constructor (c: W5500)
      requires c.Valid()
      requires forall i :: 0 <= i < SOCK_NUM ==>
                 c.socks[i].trace == [] && c.socks[i].sr == SOCK_CLOSED && !c.socks[i].reading
      ensures Valid() && chip == c && anyPort == ANY_PORT_FIRST
      ensures forall i :: 0 <= i < SOCK_NUM ==> View(i) == RELEASED && calls[i] == NO_CALLS
    {
      chip := c;
      anyPort := ANY_PORT_FIRST;
      ioMode, isSending := 0, 0;
      remained := seq(SOCK_NUM, _ => 0);
      packInfo := seq(SOCK_NUM, _ => PACK_COMPLETED);
      calls := seq(SOCK_NUM, _ => NO_CALLS);
      new;
      forall i: nat ensures !Bit(0, i) { NoBits(i); }
    }

    // -------------------------------------------------------------------------------------
    // Pieces the calls are made of.

    /** Notes what a call on a socket has answered. */
    ghost method Note(log: seq<CallLog>)
      requires Valid() && |log| == SOCK_NUM
      modifies this`calls
      ensures Valid() && calls == log
    {
      calls := log;
    }

    /** The chip moves before the host reads one of the socket's registers. */
    method Poll(sn: nat)
      requires Valid() && sn < SOCK_NUM
      modifies chip`socks
      ensures Valid() && Evolves(old(chip.socks[sn]), chip.socks[sn])
      ensures chip.socks == old(chip.socks)[sn := chip.socks[sn]] && Quiet(sn)
      ensures chip.socks[sn].seen == old(chip.socks[sn]).seen + [SightOf(chip.socks[sn])]
      ensures var a, b := old(chip.socks[sn]), chip.socks[sn];
              && SameStreams(a, b) && b.trace == a.trace && b.mr == a.mr && b.txMax == a.txMax
              && a.rx <= b.rx && a.txFree <= b.txFree && (a.sr == SOCK_CLOSED ==> b.sr == SOCK_CLOSED)
    {
      ghost var before := chip.socks[sn];
      chip.Tick(sn);
      EvolutionKeepsOk(View(sn), before, chip.socks[sn]);
    }

    /** getSn_SR() by the application. */
    method ReadStatus(sn: nat) returns (state: byte)
      requires Valid() && sn < SOCK_NUM
      modifies this`calls, chip`socks
      ensures Valid() && Evolves(old(chip.socks[sn]), chip.socks[sn]) && Quiet(sn)
      ensures chip.socks == old(chip.socks)[sn := chip.socks[sn]]
      ensures state == chip.socks[sn].sr && calls == StatusRead(old(calls), sn, state)
    {
      hide SocketOk, Evolves;
      Poll(sn);
      state := chip.socks[sn].sr;
      Note(StatusRead(calls, sn, state));
    }

    /** Gives up a socket's share of the statics. */
    method Release(sn: nat)
      requires sn < SOCK_NUM && |remained| == SOCK_NUM && |packInfo| == SOCK_NUM
      modifies this`ioMode, this`isSending, this`remained, this`packInfo
      ensures |remained| == SOCK_NUM && |packInfo| == SOCK_NUM && View(sn) == RELEASED
      ensures forall m :: 0 <= m < SOCK_NUM && m != sn ==> View(m) == old(View(m))
    {
      forall m: nat
        ensures Bit(Clear(ioMode, sn), m) <==> m != sn && Bit(ioMode, m)
        ensures Bit(Clear(isSending, sn), m) <==> m != sn && Bit(isSending, m)
      {
        ClearBit(ioMode, sn, m);
        ClearBit(isSending, sn, m);
      }
      ioMode := Clear(ioMode, sn);
      isSending := Clear(isSending, sn);
      remained := remained[sn := 0];
      packInfo := packInfo[sn := PACK_COMPLETED];
    }

    method MarkSending(sn: nat, on: bool)
      requires sn < SOCK_NUM && |remained| == SOCK_NUM && |packInfo| == SOCK_NUM
      modifies this`isSending
      ensures View(sn) == old(View(sn)).(sending := on)
      ensures forall m :: 0 <= m < SOCK_NUM && m != sn ==> View(m) == old(View(m))
    {
      forall m: nat
        ensures Bit(Set(isSending, sn), m) <==> m == sn || Bit(isSending, m)
        ensures Bit(Clear(isSending, sn), m) <==> m != sn && Bit(isSending, m)
      {
        SetBit(isSending, sn, m);
        ClearBit(isSending, sn, m);
      }
      SetFits16(isSending, sn);
      isSending := if on then Set(isSending, sn) else Clear(isSending, sn);
    }

    method MarkNonblock(sn: nat, on: bool)
      requires sn < SOCK_NUM && |remained| == SOCK_NUM && |packInfo| == SOCK_NUM
      modifies this`ioMode
      ensures View(sn) == old(View(sn)).(nonblock := on)
      ensures forall m :: 0 <= m < SOCK_NUM && m != sn ==> View(m) == old(View(m))
    {
      forall m: nat
        ensures Bit(Set(ioMode, sn), m) <==> m == sn || Bit(ioMode, m)
        ensures Bit(Clear(ioMode, sn), m) <==> m != sn && Bit(ioMode, m)
      {
        SetBit(ioMode, sn, m);
        ClearBit(ioMode, sn, m);
      }
      SetFits16(ioMode, sn);
      ioMode := if on then Set(ioMode, sn) else Clear(ioMode, sn);
    }

    /** A command that changes neither the queues nor the socket's framing. */
    method Issue(sn: nat, c: Command)
      requires Valid() && sn < SOCK_NUM && (c.Connect? || c.Discon? || c.Recv?)
      requires UdpMode(chip.socks[sn].mr) ==> c.Recv?
      modifies chip`socks
      ensures Valid()
      ensures chip.socks == old(chip.socks)[sn := AfterCommand(old(chip.socks[sn]), c)]
    {
      chip.Apply(sn, c);
    }

    /** Forgets an outstanding SEND that the trace shows is none. */
    method DropSending(sn: nat)
      requires Valid() && sn < SOCK_NUM && !Outstanding(chip.socks[sn].trace)
      modifies this`isSending
      ensures Valid() && View(sn) == old(View(sn)).(sending := false)
      ensures forall m :: 0 <= m < SOCK_NUM && m != sn ==> View(m) == old(View(m))
    {
      MarkSending(sn, false);
    }

    /** Opens a closed socket in a mode. */
    method OpenOn(sn: nat, mr: byte, port: u16)
      requires Valid() && sn < SOCK_NUM && View(sn) == RELEASED && chip.socks[sn].sr == SOCK_CLOSED
      modifies chip`socks
      ensures Valid()
      ensures chip.socks == old(chip.socks)[sn := AfterCommand(old(chip.socks[sn]).(mr := mr, port := port), Open)]
    {
      chip.SetMode(sn, mr);
      chip.SetPort(sn, port);
      chip.Apply(sn, Open);
      assert [][0..] == chip.socks[sn].rx;
    }

    /** The next ephemeral port. */
    method TakePort() returns (p: u16)
      requires Valid()
      modifies this`anyPort
      ensures Valid() && p == old(anyPort) && anyPort == NextPort(old(anyPort))
    {
      p := anyPort;
      anyPort := anyPort + 1;
      if anyPort == ANY_PORT_END {
        anyPort := ANY_PORT_FIRST;
      }
    }

    /** The end of a successful socket(). */
    method Reset(sn: nat, nonblock: bool)
      requires Valid() && sn < SOCK_NUM && View(sn) == RELEASED
      modifies this`ioMode, this`isSending, this`remained, this`packInfo
      ensures Valid() && View(sn) == RELEASED.(nonblock := nonblock)
      ensures forall m :: 0 <= m < SOCK_NUM && m != sn ==> View(m) == old(View(m))
    {
      MarkNonblock(sn, false);
      if nonblock {
        MarkNonblock(sn, true);
      }
      MarkSending(sn, false);
      remained := remained[sn := 0];
      packInfo := packInfo[sn := PACK_COMPLETED];
    }

    /** Takes bytes that are there off a TCP socket's receive queue. */
    method ReadStream(sn: nat, n: u16) returns (data: bytes)
      requires Valid() && sn < SOCK_NUM && !UdpMode(chip.socks[sn].mr)
      requires n <= |chip.socks[sn].rx|
      modifies chip`socks
      ensures Valid() && data == old(chip.socks[sn].rx[..n])
      ensures var r := old(chip.socks[sn]);
              chip.socks == old(chip.socks)[sn := r.(rx := r.rx[n..], taken := r.taken + data)]
    {
      data := chip.RecvData(sn, n);
      chip.Apply(sn, Recv);
    }

    /** Acknowledges a completed SEND. */
    method ClearSendOk(sn: nat)
      requires Valid() && sn < SOCK_NUM && chip.socks[sn].sendOk
      modifies chip`socks
      ensures Valid()
      ensures chip.socks == old(chip.socks)[sn :=
                old(chip.socks[sn]).(sendOk := false, trace := old(chip.socks[sn].trace) + [SendOkCleared])]
    {
      chip.ClearIr(sn, 0x10);
    }

    /** Writes data to the transmit buffer and issues SEND. */
    method Transmit(sn: nat, data: bytes)
      requires Valid() && sn < SOCK_NUM && !Outstanding(chip.socks[sn].trace)
      requires |data| <= chip.socks[sn].txFree
      modifies this`isSending, chip`socks
      ensures Valid() && View(sn) == old(View(sn)).(sending := true) && OthersKept(sn)
      ensures var r := old(chip.socks[sn]);
              chip.socks[sn] == r.(txFree := r.txFree - |data|, sent := r.sent + data, trace := r.trace + [SendIssued])
    {
      chip.SendData(sn, data);
      chip.Apply(sn, Send);
      MarkSending(sn, true);
    }

    method ClearTimeout(sn: nat)
      requires Valid() && sn < SOCK_NUM
      modifies chip`socks
      ensures Valid()
      ensures chip.socks == old(chip.socks)[sn := old(chip.socks[sn]).(timeout := false)]
    {
      chip.ClearIr(sn, 0x08);
    }

    // -------------------------------------------------------------------------------------
    // The calls.

    method CloseSocket(sn: nat) returns (ret: int)
      requires Valid()
      modifies this`ioMode, this`isSending, this`remained, this`packInfo, chip`socks
      ensures Valid() && anyPort == old(anyPort)
      ensures sn >= SOCK_NUM ==> ret == SOCKERR_SOCKNUM && unchanged(this) && unchanged(chip)
      ensures sn < SOCK_NUM ==>
                && ret == SOCK_OK && OthersKept(sn) && View(sn) == RELEASED
                && chip.socks[sn] == AfterClear(AfterCommand(old(chip.socks[sn]), Close), 0xFF)
    {
      if sn >= SOCK_NUM {
        return SOCKERR_SOCKNUM;
      }
      hide SocketOk, AfterCommand, AfterClear;
      ClosedIsOk(View(sn), chip.socks[sn]);
      chip.Apply(sn, Close);
      chip.ClearIr(sn, 0xFF);
      Release(sn);
      return SOCK_OK;
    }

    /** close() where a call gives the socket up. */
    method GiveUp(sn: nat)
      requires Valid() && sn < SOCK_NUM
      modifies this`ioMode, this`isSending, this`remained, this`packInfo, chip`socks
      ensures Valid() && anyPort == old(anyPort) && OthersKept(sn) && Quiet(sn) && View(sn) == RELEASED
      ensures var a, b := old(chip.socks[sn]), chip.socks[sn];
              && SameStreams(a, b) && b.sr == SOCK_CLOSED && b.seen == a.seen && b.mr == a.mr
              && b.rx == a.rx && b.txMax == a.txMax && b.rxMax == a.rxMax && b.txFree == a.txFree
              && b.trace == a.trace + [Closed] + if a.sendOk then [SendOkCleared] else []
    {
      var _ := CloseSocket(sn);
    }

    /** socket()'s checks of its arguments, in its order. */
    method CheckSocket(protocol: byte, flag: byte) returns (refusal: int)
      ensures refusal == SocketRefusal(protocol, flag, chip.sipr)
    {
      if protocol == MR_TCP {
        if chip.sipr == 0 {
          return SOCKERR_SOCKINIT;
        }
      } else if protocol != MR_UDP && protocol != MR_MACRAW && protocol != MR_IPRAW {
        return SOCKERR_SOCKMODE;
      }
      if flag / 0x04 % 2 != 0 {
        return SOCKERR_SOCKFLAG;
      }
      if flag != 0 {
        if protocol == MR_TCP {
          if flag / 0x20 % 2 == 0 && flag % 2 == 0 {
            return SOCKERR_SOCKFLAG;
          }
        } else if protocol == MR_UDP {
          if flag / 0x20 % 2 != 0 && flag / 0x80 % 2 == 0 {
            return SOCKERR_SOCKFLAG;
          }
          if flag / 0x10 % 2 != 0 && flag / 0x80 % 2 == 0 {
            return SOCKERR_SOCKFLAG;
          }
        }
      }
      return 0;
    }

    /** socket() once its arguments are accepted. */
    method Reopen(sn: nat, protocol: byte, port: u16, flag: byte)
      requires Valid() && sn < SOCK_NUM && protocol in {MR_TCP, MR_UDP, MR_IPRAW, MR_MACRAW}
      modifies this`anyPort, this`ioMode, this`isSending, this`remained, this`packInfo, chip`socks
      ensures Valid() && OthersKept(sn)
      ensures View(sn) == SockView(flag % 2 == SOCK_IO_NONBLOCK, false, 0, PACK_COMPLETED)
      ensures anyPort == if port == 0 then NextPort(old(anyPort)) else old(anyPort)
      ensures JustOpened(old(chip.socks[sn]), chip.socks[sn], protocol, flag, if port == 0 then old(anyPort) else port)
    {
      var _ := CloseSocket(sn);
      var p := port;
      if p == 0 {
        p := TakePort();
      }
      OpenOn(sn, protocol + (flag - flag % 0x10), p);
      Reset(sn, flag % 2 == SOCK_IO_NONBLOCK);
    }

    /** socket(): a port of 0 takes the next ephemeral one. */
    method Socket(sn: nat, protocol: byte, port: u16, flag: byte) returns (ret: int)
      requires Valid()
      modifies this`anyPort, this`ioMode, this`isSending, this`remained, this`packInfo, chip`socks
      ensures Valid()
      ensures ret == if sn >= SOCK_NUM then SOCKERR_SOCKNUM
                     else if SocketRefusal(protocol, flag, chip.sipr) != 0
                     then SocketRefusal(protocol, flag, chip.sipr) else sn
      ensures ret < 0 ==> unchanged(this) && unchanged(chip)
      ensures ret >= 0 ==>
                && OthersKept(sn) && View(sn) == SockView(flag % 2 == SOCK_IO_NONBLOCK, false, 0, PACK_COMPLETED)
                && anyPort == (if port == 0 then NextPort(old(anyPort)) else old(anyPort))
                && JustOpened(old(chip.socks[sn]), chip.socks[sn], protocol, flag, if port == 0 then old(anyPort) else port)
    {
      if sn >= SOCK_NUM {
        return SOCKERR_SOCKNUM;
      }
      var refusal := CheckSocket(protocol, flag);
      if refusal != 0 {
        return refusal;
      }
      Reopen(sn, protocol, port, flag);
      return sn;
    }

    /** One round of connect()'s polling loop. */
    method LookForConnection(sn: nat) returns (done: bool, ret: int)
      requires Valid() && sn < SOCK_NUM
      modifies chip`socks
      ensures Valid() && OthersKept(sn) && Quiet(sn) && SameStreams(old(chip.socks[sn]), chip.socks[sn])
      ensures done ==> ConnectionAnswer(ret, chip.socks[sn])
      ensures Looks(old(chip.socks[sn]), chip.socks[sn]) > 0
    {
      hide Evolves, SocketOk;
      Poll(sn);
      if chip.socks[sn].sr == SOCK_ESTABLISHED {
        return true, SOCK_OK;
      }
      Poll(sn);
      if chip.socks[sn].timeout {
        ClearTimeout(sn);
        return true, SOCKERR_TIMEOUT;
      }
      Poll(sn);
      done, ret := chip.socks[sn].sr == SOCK_CLOSED, SOCKERR_SOCKCLOSED;
    }

    /** connect()'s polling loop. */
    method AwaitConnection(sn: nat, patience: nat) returns (done: bool, ret: int)
      requires Valid() && sn < SOCK_NUM
      modifies chip`socks
      ensures Valid() && OthersKept(sn) && Quiet(sn) && SameStreams(old(chip.socks[sn]), chip.socks[sn])
      ensures done ==> ConnectionAnswer(ret, chip.socks[sn]) && Looks(old(chip.socks[sn]), chip.socks[sn]) > 0
    {
      hide SocketOk, ConnectionAnswer;
      done, ret := false, 0;
      for polls := 0 to patience
        invariant Valid() && OthersKept(sn) && Quiet(sn) && SameStreams(old(chip.socks[sn]), chip.socks[sn])
      {
        done, ret := LookForConnection(sn);
        if done {
          return;
        }
      }
      return false, 0;
    }

    /** connect(). */
    method ConnectTo(sn: nat, addr: bytes, port: u16, patience: nat) returns (done: bool, ret: int)
      requires Valid() && |addr| == 4
      modifies this`calls, chip`socks
      ensures Valid()
      ensures sn >= SOCK_NUM ==> done && ret == SOCKERR_SOCKNUM && unchanged(this) && unchanged(chip)
      ensures sn < SOCK_NUM ==>
                && OthersKept(sn) && ModeKept(sn) && SameStreams(old(chip.socks[sn]), chip.socks[sn])
                && StreamKept(old(chip.socks[sn]), chip.socks[sn])
                && (done ==> ConnectAnswer(ret, addr, port, View(sn).nonblock, old(chip.socks[sn]), chip.socks[sn]))
                && (Dials(done, ret) ==> Shown(old(chip.socks[sn]), chip.socks[sn], 1).sr == SOCK_INIT)
                && chip.socks[sn].dialed == old(chip.socks[sn].dialed) + (if Dials(done, ret) then [Host(addr, port)] else [])
                && (View(sn).nonblock ==> done)
                && calls == if done then Connected(old(calls), sn, ret) else old(calls)
    {
      hide SocketOk, StreamKept, ConnectAnswer;
      if sn >= SOCK_NUM {
        return true, SOCKERR_SOCKNUM;
      }
      done, ret := ConnectNow(sn, addr, port, patience);
      if done {
        Note(Connected(calls, sn, ret));
      }
    }

    /** connect(), but for the log. */
    method ConnectNow(sn: nat, addr: bytes, port: u16, patience: nat) returns (done: bool, ret: int)
      requires Valid() && |addr| == 4 && sn < SOCK_NUM
      modifies chip`socks
      ensures Valid() && OthersKept(sn) && ModeKept(sn) && SameStreams(old(chip.socks[sn]), chip.socks[sn])
      ensures StreamKept(old(chip.socks[sn]), chip.socks[sn])
      ensures done ==> ConnectAnswer(ret, addr, port, View(sn).nonblock, old(chip.socks[sn]), chip.socks[sn])
      ensures Dials(done, ret) ==> Shown(old(chip.socks[sn]), chip.socks[sn], 1).sr == SOCK_INIT
      ensures chip.socks[sn].dialed == old(chip.socks[sn].dialed) + (if Dials(done, ret) then [Host(addr, port)] else [])
      ensures View(sn).nonblock ==> done
    {
      hide Evolves, SocketOk;
      Poll(sn);
      if Protocol(chip.socks[sn].mr) != MR_TCP {
        return true, SOCKERR_SOCKMODE;
      }
      Poll(sn);
      if chip.socks[sn].sr != SOCK_INIT {
        return true, SOCKERR_SOCKINIT;
      }
      if BadAddress(addr) {
        return true, SOCKERR_IPINVALID;
      }
      if port == 0 {
        return true, SOCKERR_PORTZERO;
      }
      Issue(sn, Connect(Host(addr, port)));
      if Bit(ioMode, sn) {
        return true, SOCK_BUSY;
      }
      done, ret := AwaitConnection(sn, patience);
    }

    /** disconnect()'s polling loop. */
    method AwaitClosing(sn: nat, patience: nat) returns (done: bool, ret: int)
      requires Valid() && sn < SOCK_NUM
      modifies this`ioMode, this`isSending, this`remained, this`packInfo, chip`socks
      ensures Valid() && anyPort == old(anyPort) && OthersKept(sn) && Quiet(sn)
      ensures SameStreams(old(chip.socks[sn]), chip.socks[sn]) && chip.socks[sn].mr == old(chip.socks[sn].mr)
      ensures View(sn) == if done && ret == SOCKERR_TIMEOUT then RELEASED else old(View(sn))
      ensures done ==> chip.socks[sn].sr == SOCK_CLOSED && Looks(old(chip.socks[sn]), chip.socks[sn]) > 0
      ensures done ==> (ret == SOCK_OK && ShownLast(chip.socks[sn], 0).sr == SOCK_CLOSED)
                       || (ret == SOCKERR_TIMEOUT && ShownLast(chip.socks[sn], 0).timeout)
      ensures old(chip.socks[sn].trace) <= chip.socks[sn].trace
    {
      hide Evolves, Disciplined, SocketOk, Outstanding;
      for polls := 0 to patience
        invariant Valid() && OthersKept(sn) && anyPort == old(anyPort) && Quiet(sn) && View(sn) == old(View(sn))
        invariant SameStreams(old(chip.socks[sn]), chip.socks[sn]) && chip.socks[sn].mr == old(chip.socks[sn].mr)
        invariant chip.socks[sn].trace == old(chip.socks[sn].trace)
      {
        Poll(sn);
        if chip.socks[sn].sr == SOCK_CLOSED {
          return true, SOCK_OK;
        }
        Poll(sn);
        if chip.socks[sn].timeout {
          GiveUp(sn);
          return true, SOCKERR_TIMEOUT;
        }
      }
      return false, 0;
    }

    /** disconnect(). */
    method Disconnect(sn: nat, patience: nat) returns (done: bool, ret: int)
      requires Valid()
      modifies this`ioMode, this`isSending, this`remained, this`packInfo, chip`socks
      ensures Valid() && anyPort == old(anyPort)
      ensures sn >= SOCK_NUM ==> done && ret == SOCKERR_SOCKNUM && unchanged(this) && unchanged(chip)
      ensures sn < SOCK_NUM ==>
                && OthersKept(sn) && Quiet(sn)
                && (old(View(sn)).nonblock ==> done)
                && (done ==> DisconnectAnswer(ret, old(View(sn)).nonblock, old(chip.socks[sn]), chip.socks[sn]))
                && View(sn) == (if done && ret == SOCKERR_TIMEOUT then RELEASED
                                else if done && ret == SOCKERR_SOCKMODE then old(View(sn))
                                else old(View(sn)).(sending := false))
                && SameStreams(old(chip.socks[sn]), chip.socks[sn])
                && (Protocol(old(chip.socks[sn]).mr) == MR_TCP ==>
                      old(chip.socks[sn].trace) + [Disconnected] <= chip.socks[sn].trace)
                && (done && ret == SOCK_BUSY ==> chip.socks[sn].trace == old(chip.socks[sn].trace) + [Disconnected])
    {
      hide SocketOk;
      if sn >= SOCK_NUM {
        return true, SOCKERR_SOCKNUM;
      }
      Poll(sn);
      if Protocol(chip.socks[sn].mr) != MR_TCP {
        return true, SOCKERR_SOCKMODE;
      }
      Issue(sn, Discon);
      DropSending(sn);
      if Bit(ioMode, sn) {
        return true, SOCK_BUSY;
      }
      done, ret := AwaitClosing(sn, patience);
    }

    /** The part of send() that deals with an earlier SEND: go on only once it is acknowledged. */
    method AwaitSend(sn: nat) returns (stop: bool, ret: int)
      requires Valid() && sn < SOCK_NUM
      modifies this`ioMode, this`isSending, this`remained, this`packInfo, chip`socks
      ensures Valid() && anyPort == old(anyPort) && OthersKept(sn) && Quiet(sn)
      ensures SameStreams(old(chip.socks[sn]), chip.socks[sn])
      ensures !stop ==> View(sn) == old(View(sn)).(sending := false) && !Outstanding(chip.socks[sn].trace)
      ensures stop ==> ret <= 0 && (View(sn) == old(View(sn)) || View(sn) == RELEASED)
      ensures chip.socks[sn].mr == old(chip.socks[sn].mr) && chip.socks[sn].txMax == old(chip.socks[sn].txMax)
      ensures old(chip.socks[sn].txFree) <= chip.socks[sn].txFree
      ensures Acknowledged(stop, ret, old(View(sn).sending), old(chip.socks[sn]), chip.socks[sn])
    {
      if !Bit(isSending, sn) {
        return false, 0;
      }
      Poll(sn);
      if chip.socks[sn].sendOk {
        ClearSendOk(sn);
        DropSending(sn);
        return false, 0;
      } else if chip.socks[sn].timeout {
        GiveUp(sn);
        return true, SOCKERR_TIMEOUT;
      } else {
        return true, SOCK_BUSY;
      }
    }

    /** send() up to its polling loop. */
    method BeforeSend(sn: nat, len: u16) returns (stop: bool, ret: int)
      requires Valid() && sn < SOCK_NUM
      modifies this`ioMode, this`isSending, this`remained, this`packInfo, chip`socks
      ensures Valid() && anyPort == old(anyPort) && OthersKept(sn) && Quiet(sn)
      ensures SameStreams(old(chip.socks[sn]), chip.socks[sn])
      ensures chip.socks[sn].mr == old(chip.socks[sn].mr) && chip.socks[sn].txMax == old(chip.socks[sn].txMax)
      ensures !stop ==> View(sn) == old(View(sn)).(sending := false) && !Outstanding(chip.socks[sn].trace)
      ensures stop ==> ret <= 0 && (View(sn) == old(View(sn)) || View(sn) == RELEASED)
      ensures !stop ==> Protocol(chip.socks[sn].mr) == MR_TCP && len > 0
      ensures stop ==> SendAnswer(ret, len, old(View(sn)), old(chip.socks[sn]), chip.socks[sn])
      ensures stop ==> SendTrace(ret, old(View(sn)), old(chip.socks[sn]), chip.socks[sn])
      ensures !stop ==> GoesOn(old(View(sn).sending), old(chip.socks[sn]), chip.socks[sn])
      ensures old(chip.socks[sn].sr) == SOCK_CLOSED ==> stop
      ensures old(chip.socks[sn].txFree) <= chip.socks[sn].txFree
    {
      hide Evolves, SocketOk, Outstanding, Disciplined;
      Poll(sn);
      if Protocol(chip.socks[sn].mr) != MR_TCP {
        return true, SOCKERR_SOCKMODE;
      }
      if len == 0 {
        return true, SOCKERR_DATALEN;
      }
      Poll(sn);
      if chip.socks[sn].sr != SOCK_ESTABLISHED && chip.socks[sn].sr != SOCK_CLOSE_WAIT {
        return true, SOCKERR_SOCKSTATUS;
      }
      stop, ret := AwaitSend(sn);
    }

    /** One round of send()'s polling loop. */
    method LookForSpace(sn: nat, n: u16) returns (done: bool, ret: int)
      requires Valid() && sn < SOCK_NUM
      modifies this`ioMode, this`isSending, this`remained, this`packInfo, chip`socks
      ensures Valid() && anyPort == old(anyPort) && OthersKept(sn) && Quiet(sn)
      ensures SameStreams(old(chip.socks[sn]), chip.socks[sn])
      ensures View(sn) == if done && ret < 0 then RELEASED else old(View(sn))
      ensures SpaceFound(done, ret, n, old(View(sn).nonblock), old(chip.socks[sn]), chip.socks[sn])
      ensures old(View(sn).nonblock) ==> done
    {
      hide Evolves, SocketOk;
      Poll(sn);
      var freesize := chip.socks[sn].txFree;
      Poll(sn);
      if chip.socks[sn].sr != SOCK_ESTABLISHED && chip.socks[sn].sr != SOCK_CLOSE_WAIT {
        GiveUp(sn);
        return true, SOCKERR_SOCKSTATUS;
      }
      if Bit(ioMode, sn) && n > freesize {
        return true, SOCK_BUSY;
      }
      return n <= freesize, SOCK_OK;
    }

    /** send()'s polling loop: positive once `n` bytes fit. */
    method AwaitSpace(sn: nat, n: u16, patience: nat) returns (done: bool, ret: int)
      requires Valid() && sn < SOCK_NUM
      modifies this`ioMode, this`isSending, this`remained, this`packInfo, chip`socks
      ensures Valid() && anyPort == old(anyPort) && OthersKept(sn) && Quiet(sn)
      ensures SameStreams(old(chip.socks[sn]), chip.socks[sn])
      ensures View(sn) == if done && ret < 0 then RELEASED else old(View(sn))
      ensures SpaceFound(done, ret, n, old(View(sn).nonblock), old(chip.socks[sn]), chip.socks[sn])
      ensures old(View(sn).nonblock) && patience > 0 ==> done
    {
      hide SocketOk, SpaceFound;
      ghost var r := chip.socks[sn];
      NoSpaceYet(r, n, View(sn).nonblock);
      for polls := 0 to patience
        invariant Valid() && OthersKept(sn) && anyPort == old(anyPort) && View(sn) == old(View(sn)) && Quiet(sn)
        invariant SameStreams(old(chip.socks[sn]), chip.socks[sn])
        invariant SpaceFound(false, 0, n, View(sn).nonblock, r, chip.socks[sn])
        invariant old(View(sn).nonblock) ==> polls == 0
      {
        ghost var r1 := chip.socks[sn];
        done, ret := LookForSpace(sn, n);
        SpaceFoundLater(done, ret, n, old(View(sn).nonblock), r, r1, chip.socks[sn]);
        if done {
          return;
        }
      }
      return false, 0;
    }

    /** send() on a TCP socket, but for the log. */
    method SendNow(sn: nat, buf: array<byte>, at: nat, len: u16, patience: nat) returns (done: bool, ret: int)
      requires Valid() && sn < SOCK_NUM && at + len <= buf.Length
      modifies this`ioMode, this`isSending, this`remained, this`packInfo, chip`socks
      ensures Valid() && anyPort == old(anyPort) && OthersKept(sn) && Quiet(sn)
      ensures View(sn) == RELEASED || View(sn) == old(View(sn)).(sending := View(sn).sending)
      ensures chip.socks[sn].taken == old(chip.socks[sn].taken)
      ensures HandedOver(if done then ret else 0, len, buf[at..at + len], old(chip.socks[sn]), chip.socks[sn])
      ensures done ==> SendAnswer(ret, len, old(View(sn)), old(chip.socks[sn]), chip.socks[sn])
      ensures SendTrace(if done then ret else 0, old(View(sn)), old(chip.socks[sn]), chip.socks[sn])
      ensures done && ret > 0 ==> View(sn).sending
      ensures old(View(sn).nonblock || chip.socks[sn].sr == SOCK_CLOSED) && patience > 0 ==> done
    {
      hide Evolves, SpaceAnswer, SendAnswer, SendTrace, SocketOk, Disciplined, GoesOn;
      ghost var v, r := View(sn), chip.socks[sn];
      var stop, why := BeforeSend(sn, len);
      if stop {
        return true, why;
      }
      ghost var r1 := chip.socks[sn];
      var n := if len > chip.socks[sn].txMax then chip.socks[sn].txMax else len;
      done, ret := AwaitSpace(sn, n, patience);
      ghost var r2 := chip.socks[sn];
      if done && ret > SOCK_BUSY {
        assert buf[at..at + len][..n] == buf[at..at + n];
        Transmit(sn, buf[at..at + n]);
        ret := n;
      }
      SentWhenSpace(v, r, r1, r2, chip.socks[sn], len, done, if done then ret else 0);
    }

    /** send() on a TCP socket. What is handed over is a prefix of the request, never more than the
        chip has room for, and only while no earlier SEND is outstanding. */
    method SendBytes(sn: nat, buf: array<byte>, at: nat, len: u16, patience: nat) returns (done: bool, ret: int)
      requires Valid() && at + len <= buf.Length
      modifies this`ioMode, this`isSending, this`remained, this`packInfo, this`calls, chip`socks
      ensures Valid() && anyPort == old(anyPort)
      ensures sn >= SOCK_NUM ==> done && ret == SOCKERR_SOCKNUM && unchanged(this) && unchanged(chip)
      ensures sn < SOCK_NUM ==>
                && OthersKept(sn) && Quiet(sn)
                && (View(sn) == RELEASED || View(sn) == old(View(sn)).(sending := View(sn).sending))
                && chip.socks[sn].taken == old(chip.socks[sn].taken)
                && HandedOver(if done then ret else 0, len, buf[at..at + len], old(chip.socks[sn]), chip.socks[sn])
                && (done ==> SendAnswer(ret, len, old(View(sn)), old(chip.socks[sn]), chip.socks[sn]))
                && SendTrace(if done then ret else 0, old(View(sn)), old(chip.socks[sn]), chip.socks[sn])
                && (done && ret > 0 ==> View(sn).sending)
                && (old(View(sn).nonblock || chip.socks[sn].sr == SOCK_CLOSED) && patience > 0 ==> done)
                && calls == if done then Sent(old(calls), sn, [ret]) else old(calls)
    {
      hide SocketOk, SendAnswer, SendTrace, HandedOver, StreamKept;
      if sn >= SOCK_NUM {
        return true, SOCKERR_SOCKNUM;
      }
      done, ret := SendNow(sn, buf, at, len, patience);
      if done {
        Note(Sent(calls, sn, [ret]));
      }
    }

    /** One round of recv()'s polling loop. */
    method LookForData(sn: nat) returns (done: bool, ret: int)
      requires Valid() && sn < SOCK_NUM && Protocol(chip.socks[sn].mr) == MR_TCP
      modifies this`ioMode, this`isSending, this`remained, this`packInfo, chip`socks
      ensures Valid() && anyPort == old(anyPort) && OthersKept(sn) && Quiet(sn)
      ensures SameStreams(old(chip.socks[sn]), chip.socks[sn]) && old(chip.socks[sn].rx) <= chip.socks[sn].rx
      ensures View(sn) == if done && ret < 0 then RELEASED else old(View(sn))
      ensures chip.socks[sn].txMax == old(chip.socks[sn].txMax)
      ensures done ==> DataAnswer(ret, old(View(sn).nonblock), 0, old(chip.socks[sn]), chip.socks[sn])
      ensures done && ret > 0 ==> ret == |chip.socks[sn].rx|
      ensures done && ret < 0 ==> chip.socks[sn].sr == SOCK_CLOSED
      ensures Looks(old(chip.socks[sn]), chip.socks[sn]) > 0
      ensures old(View(sn).nonblock) ==> done
    {
      hide Evolves, SocketOk, Protocol;
      Poll(sn);
      var recvsize, status := |chip.socks[sn].rx|, chip.socks[sn].sr;
      if status == SOCK_CLOSE_WAIT && recvsize == 0 {
        Poll(sn);
        if chip.socks[sn].txFree == chip.socks[sn].txMax {
          GiveUp(sn);
          return true, SOCKERR_SOCKSTATUS;
        }
      } else if status != SOCK_ESTABLISHED && status != SOCK_CLOSE_WAIT {
        GiveUp(sn);
        return true, SOCKERR_SOCKSTATUS;
      }
      if Bit(ioMode, sn) && recvsize == 0 {
        return true, SOCK_BUSY;
      }
      return recvsize != 0, recvsize;
    }

    /** recv()'s polling loop: the number of bytes waiting, once there are any. */
    method AwaitData(sn: nat, patience: nat) returns (done: bool, ret: int)
      requires Valid() && sn < SOCK_NUM && Protocol(chip.socks[sn].mr) == MR_TCP
      modifies this`ioMode, this`isSending, this`remained, this`packInfo, chip`socks
      ensures Valid() && anyPort == old(anyPort) && OthersKept(sn) && Quiet(sn)
      ensures SameStreams(old(chip.socks[sn]), chip.socks[sn])
      ensures View(sn) == if done && ret < 0 then RELEASED else old(View(sn))
      ensures done && ret > 0 ==> ret == |chip.socks[sn].rx|
      ensures done && ret < 0 ==> chip.socks[sn].sr == SOCK_CLOSED
      ensures done ==> Looks(old(chip.socks[sn]), chip.socks[sn]) >= 1
      ensures done ==> DataAnswer(ret, old(View(sn).nonblock), 0, old(chip.socks[sn]), chip.socks[sn])
      ensures old(View(sn).nonblock) && patience > 0 ==> done
    {
      hide SocketOk, Protocol;
      for polls := 0 to patience
        invariant Valid() && OthersKept(sn) && anyPort == old(anyPort) && View(sn) == old(View(sn)) && Quiet(sn)
        invariant Protocol(chip.socks[sn].mr) == MR_TCP && chip.socks[sn].txMax == old(chip.socks[sn].txMax)
        invariant old(chip.socks[sn].rx) <= chip.socks[sn].rx
        invariant SameStreams(old(chip.socks[sn]), chip.socks[sn])
        invariant old(View(sn).nonblock) ==> polls == 0
      {
        done, ret := LookForData(sn);
        if done {
          return;
        }
      }
      return false, 0;
    }

    /** The end of recv(): as many bytes as asked for, of those there are, into the buffer. */
    method ReadInto(sn: nat, buf: array<byte>, at: nat, n: u16)
      requires Valid() && sn < SOCK_NUM && !UdpMode(chip.socks[sn].mr)
      requires at + n <= buf.Length && n <= |chip.socks[sn].rx|
      modifies chip`socks, buf
      ensures Valid() && SplicedIn(old(buf[..]), buf[..], at, n)
      ensures var r := old(chip.socks[sn]);
              && buf[at..at + n] == r.rx[..n]
              && chip.socks == old(chip.socks)[sn := r.(rx := r.rx[n..], taken := r.taken + buf[at..at + n])]
    {
      hide SocketOk;
      var data := ReadStream(sn, n);
      forall i | 0 <= i < n {
        buf[at + i] := data[i];
      }
      assert buf[at..at + n] == data;
    }

    /** recv() on a TCP socket, but for the log. */
    method RecvNow(sn: nat, buf: array<byte>, at: nat, len: u16, patience: nat) returns (done: bool, ret: int)
      requires Valid() && sn < SOCK_NUM && at + len <= buf.Length
      modifies this`ioMode, this`isSending, this`remained, this`packInfo, chip`socks, buf
      ensures Valid() && anyPort == old(anyPort) && OthersKept(sn) && Quiet(sn)
      ensures View(sn) == old(View(sn)) || View(sn) == RELEASED
      ensures chip.socks[sn].sent == old(chip.socks[sn].sent)
      ensures var n := if done && ret > 0 then ret else 0;
              && n <= len && chip.socks[sn].taken == old(chip.socks[sn].taken) + buf[at..at + n]
              && SplicedIn(old(buf[..]), buf[..], at, n)
      ensures done ==> RecvAnswer(ret, len, old(View(sn).nonblock), old(chip.socks[sn]), chip.socks[sn])
      ensures old(View(sn).nonblock) && patience > 0 ==> done
    {
      hide Evolves, SocketOk, DataAnswer, SplicedIn;
      ghost var r, nonblock := chip.socks[sn], View(sn).nonblock;
      NothingSpliced(buf[..], at);
      Poll(sn);
      if Protocol(chip.socks[sn].mr) != MR_TCP {
        return true, SOCKERR_SOCKMODE;
      }
      if len == 0 {
        return true, SOCKERR_DATALEN;
      }
      hide RecvAnswer;
      ghost var r1, found := chip.socks[sn], 0;
      done, ret, found := RecvWaiting(sn, buf, at, len, patience);
      if done {
        FoundIsAnswer(found, ret, len, nonblock, r, r1, chip.socks[sn]);
      }
    }

    /** recv() once its arguments are accepted. */
    method RecvWaiting(sn: nat, buf: array<byte>, at: nat, len: u16, patience: nat)
        returns (done: bool, ret: int, ghost found: int)
      requires Valid() && sn < SOCK_NUM && at + len <= buf.Length && Protocol(chip.socks[sn].mr) == MR_TCP
      modifies this`ioMode, this`isSending, this`remained, this`packInfo, chip`socks, buf
      ensures Valid() && anyPort == old(anyPort) && OthersKept(sn) && Quiet(sn)
      ensures View(sn) == old(View(sn)) || View(sn) == RELEASED
      ensures chip.socks[sn].sent == old(chip.socks[sn].sent)
      ensures var n := if done && ret > 0 then ret else 0;
              && n <= len && chip.socks[sn].taken == old(chip.socks[sn].taken) + buf[at..at + n]
              && SplicedIn(old(buf[..]), buf[..], at, n)
      ensures done ==>
                && Looks(old(chip.socks[sn]), chip.socks[sn]) > 0
                && DataAnswer(found, old(View(sn).nonblock), 0, old(chip.socks[sn]), chip.socks[sn])
                && ret == (if found > 0 then Min(Min(len, old(chip.socks[sn].rxMax)), found) else found)
                && (ret < 0 ==> chip.socks[sn].sr == SOCK_CLOSED)
      ensures old(View(sn).nonblock) && patience > 0 ==> done
    {
      hide Evolves, SocketOk, SplicedIn;
      ghost var r := chip.socks[sn];
      NothingSpliced(buf[..], at);
      var n := if chip.socks[sn].rxMax < len then chip.socks[sn].rxMax else len;
      done, ret := AwaitData(sn, patience);
      found := ret;
      if done && ret > SOCK_BUSY {
        ghost var r2 := chip.socks[sn];
        n := Min(n, ret);
        ReadInto(sn, buf, at, n);
        TakenOffFront(r, r2, chip.socks[sn], n);
        ret := n;
      }
    }

    /** recv() on a TCP socket: the next bytes of the stream, as many as asked for, or as the receive
        buffer holds, or all there are. */
    method RecvBytes(sn: nat, buf: array<byte>, at: nat, len: u16, patience: nat) returns (done: bool, ret: int)
      requires Valid() && at + len <= buf.Length
      modifies this`ioMode, this`isSending, this`remained, this`packInfo, this`calls, chip`socks, buf
      ensures Valid() && anyPort == old(anyPort)
      ensures SplicedIn(old(buf[..]), buf[..], at, if done && ret > 0 then ret else 0)
      ensures sn >= SOCK_NUM ==> done && ret == SOCKERR_SOCKNUM && unchanged(this) && unchanged(chip)
      ensures sn < SOCK_NUM ==>
                && OthersKept(sn) && Quiet(sn)
                && (View(sn) == old(View(sn)) || View(sn) == RELEASED)
                && chip.socks[sn].sent == old(chip.socks[sn].sent)
                && (var n := if done && ret > 0 then ret else 0;
                    n <= len && chip.socks[sn].taken == old(chip.socks[sn].taken) + buf[at..at + n])
                && (done ==> RecvAnswer(ret, len, old(View(sn).nonblock), old(chip.socks[sn]), chip.socks[sn]))
                && (old(View(sn).nonblock) && patience > 0 ==> done)
                && calls == if done then Received(old(calls), sn, [ret]) else old(calls)
    {
      hide SocketOk, RecvAnswer, SplicedIn, StreamKept;
      if sn >= SOCK_NUM {
        NothingSpliced(buf[..], at);
        return true, SOCKERR_SOCKNUM;
      }
      done, ret := RecvNow(sn, buf, at, len, patience);
      if done {
        Note(Received(calls, sn, [ret]));
      }
    }

    /** The end of recvfrom(): account for the bytes handed out. */
    method Finish(sn: nat, taken: u16)
      requires sn < SOCK_NUM && |remained| == SOCK_NUM && |packInfo| == SOCK_NUM
      requires taken <= remained[sn] && packInfo[sn] in {PACK_FIRST, PackInfoFor(remained[sn])}
      modifies this`remained, this`packInfo
      ensures |remained| == SOCK_NUM && |packInfo| == SOCK_NUM
      ensures View(sn) == old(View(sn)).(remained := old(remained[sn]) - taken,
                                         packInfo := PackInfoFor(old(remained[sn]) - taken))
      ensures forall m :: 0 <= m < SOCK_NUM && m != sn ==> View(m) == old(View(m))
    {
      remained := remained[sn := remained[sn] - taken];
      if remained[sn] != 0 {
        if packInfo[sn] % 2 == 0 {
          packInfo := packInfo[sn := packInfo[sn] + PACK_REMAINED];
        }
      } else {
        packInfo := packInfo[sn := PACK_COMPLETED];
      }
    }

    /** recvfrom()'s polling loop at the start of a datagram. */
    method AwaitDatagram(sn: nat, patience: nat) returns (done: bool, ret: int)
      requires Valid() && sn < SOCK_NUM
      modifies chip`socks
      ensures Valid() && OthersKept(sn) && View(sn) == old(View(sn))
      ensures Evolves(old(chip.socks[sn]), chip.socks[sn])
      ensures done && ret > 0 ==> chip.socks[sn].rx != [] && chip.socks[sn].sr != SOCK_CLOSED
      ensures done && ret <= 0 ==>
                && Looks(old(chip.socks[sn]), chip.socks[sn]) >= 2
                && WaitAnswer(ret, View(sn).nonblock, old(chip.socks[sn]), chip.socks[sn])
      ensures View(sn).nonblock && patience > 0 ==> done
    {
      hide SocketOk;
      for polls := 0 to patience
        invariant Valid() && OthersKept(sn) && View(sn) == old(View(sn))
        invariant polls > 0 ==> Evolves(old(chip.socks[sn]), chip.socks[sn])
        invariant polls == 0 ==> chip.socks[sn] == old(chip.socks[sn])
        invariant View(sn).nonblock ==> polls == 0
      {
        ghost var r0 := chip.socks[sn];
        Poll(sn);
        ghost var r1 := chip.socks[sn];
        var size := |chip.socks[sn].rx|;
        Poll(sn);
        EvolvesChain(r0, r1, chip.socks[sn]);
        if polls > 0 { EvolvesChain(old(chip.socks[sn]), r0, chip.socks[sn]); }
        if chip.socks[sn].sr == SOCK_CLOSED {
          return true, SOCKERR_SOCKCLOSED;
        }
        if Bit(ioMode, sn) && size == 0 {
          return true, SOCK_BUSY;
        }
        if size != 0 {
          return true, SOCK_OK;
        }
      }
      EvolvesRefl(chip.socks[sn]);
      return false, 0;
    }

    /** The first read of recvfrom() on a UDP socket at the start of a datagram. */
    method ReadHead(sn: nat, addr: array<byte>, port: array<u16>)
      requires Valid() && sn < SOCK_NUM && UdpMode(chip.socks[sn].mr) && remained[sn] == 0
      requires Framed(Rx(0, chip.socks[sn].rx)) && chip.socks[sn].rx != []
      requires addr.Length == 4 && port.Length == 1
      modifies this`remained, this`packInfo, chip`socks, addr, port
      ensures Halfway(sn) && packInfo[sn] == PACK_FIRST && OthersKept(sn)
      ensures Rx(remained[sn], chip.socks[sn].rx) == HeadRead(Rx(0, old(chip.socks[sn].rx)))
      ensures View(sn) == old(View(sn)).(remained := remained[sn], packInfo := PACK_FIRST)
      ensures SameButQueue(old(chip.socks[sn]), chip.socks[sn])
      ensures addr[..] == old(chip.socks[sn].rx[..4])
      ensures port[0] == old(BigEndian(chip.socks[sn].rx[4], chip.socks[sn].rx[5]))
    {
      ghost var queue := chip.socks[sn].rx;
      assert queue[0..] == queue;
      var head := chip.RecvData(sn, HEAD_SIZE);
      assert head == queue[..HEAD_SIZE];
      chip.Apply(sn, Recv);
      addr[0], addr[1], addr[2], addr[3] := head[0], head[1], head[2], head[3];
      port[0] := BigEndian(head[4], head[5]);
      remained := remained[sn := BigEndian(head[6], head[7])];
      packInfo := packInfo[sn := PACK_FIRST];
      assert addr[..] == queue[..4];
    }

    /** wiz_recv_data into a buffer and the command that commits it. */
    method Pull(sn: nat, buf: array<byte>, n: u16)
      requires chip.Valid() && sn < SOCK_NUM && n <= buf.Length
      modifies chip`socks, buf
      ensures chip.Valid() && buf[n..] == old(buf[n..])
      ensures chip.socks == old(chip.socks)[sn := chip.socks[sn]]
      ensures SameButQueue(old(chip.socks[sn]), chip.socks[sn])
      ensures n <= old(|chip.socks[sn].rx|) ==>
                buf[..n] == old(chip.socks[sn].rx[..n]) && chip.socks[sn].rx == old(chip.socks[sn].rx[n..])
    {
      var data := chip.RecvData(sn, n);
      forall i | 0 <= i < n {
        buf[i] := data[i];
      }
      chip.Apply(sn, Recv);
      assert buf[..n] == data;
    }

    /** Its second read: a slice of the payload, and the account. */
    method ReadSlice(sn: nat, buf: array<byte>, len: u16) returns (n: u16)
      requires Halfway(sn) && UdpMode(chip.socks[sn].mr)
      requires packInfo[sn] in {PACK_FIRST, PackInfoFor(remained[sn])}
      requires Framed(Rx(remained[sn], chip.socks[sn].rx)) && len <= buf.Length
      modifies this`remained, this`packInfo, chip`socks, buf
      ensures Valid() && OthersKept(sn) && SameButQueue(old(chip.socks[sn]), chip.socks[sn])
      ensures n == Min(len, old(remained[sn]))
      ensures chip.socks[sn].rx == old(chip.socks[sn].rx[n..])
      ensures View(sn) == old(View(sn)).(remained := old(remained[sn]) - n, packInfo := PackInfoFor(old(remained[sn]) - n))
      ensures buf[..n] == old(chip.socks[sn].rx[..n]) && buf[n..] == old(buf[n..])
    {
      ghost var v, r := View(sn), chip.socks[sn];
      n := if len < remained[sn] then len else remained[sn];
      Pull(sn, buf, n);
      Finish(sn, n);
      SliceKeepsOk(v, r, n, chip.socks[sn].taken);
    }

    /** Both reads: the head if a datagram starts, then a slice. */
    method ReadBoth(sn: nat, buf: array<byte>, len: u16, addr: array<byte>, port: array<u16>) returns (n: u16)
      requires Valid() && sn < SOCK_NUM && UdpMode(chip.socks[sn].mr)
      requires Framed(Rx(remained[sn], chip.socks[sn].rx)) && chip.socks[sn].rx != []
      requires len <= buf.Length && addr.Length == 4 && port.Length == 1 && buf != addr
      modifies this`remained, this`packInfo, chip`socks, buf, addr, port
      ensures Valid() && OthersKept(sn) && SameButQueue(old(chip.socks[sn]), chip.socks[sn])
      ensures var rx := Rx(old(remained[sn]), old(chip.socks[sn].rx)); var mid := HeadRead(rx);
              && n == Min(len, mid.remained)
              && chip.socks[sn].rx == mid.queue[n..] && buf[..n] == mid.queue[..n]
              && View(sn) == old(View(sn)).(remained := mid.remained - n, packInfo := PackInfoFor(mid.remained - n))
              && addr[..] == (if rx.remained == 0 then rx.queue[..4] else old(addr[..]))
              && port[0] == (if rx.remained == 0 then BigEndian(rx.queue[4], rx.queue[5]) else old(port[0]))
      ensures buf[n..] == old(buf[n..])
    {
      if remained[sn] == 0 {
        ReadHead(sn, addr, port);
      }
      n := ReadSlice(sn, buf, len);
    }

    /** recvfrom() on a UDP socket with bytes waiting. */
    method TakeUdp(sn: nat, buf: array<byte>, len: u16, addr: array<byte>, port: array<u16>) returns (n: u16)
      requires Valid() && sn < SOCK_NUM && UdpMode(chip.socks[sn].mr)
      requires Framed(Rx(remained[sn], chip.socks[sn].rx)) && chip.socks[sn].rx != []
      requires len <= buf.Length && addr.Length == 4 && port.Length == 1 && buf != addr
      modifies this`remained, this`packInfo, this`calls, chip`socks, buf, addr, port
      ensures Valid() && OthersKept(sn) && SameButQueue(old(chip.socks[sn]), chip.socks[sn])
      ensures var t := Take(Rx(old(remained[sn]), old(chip.socks[sn].rx)), len);
              && n == |t.slice.data| && n <= len
              && calls == HandedOut(old(calls), sn, t.slice)
              && Rx(remained[sn], chip.socks[sn].rx) == t.rx
              && View(sn) == old(View(sn)).(remained := t.rx.remained, packInfo := PackInfoFor(t.rx.remained))
              && buf[..n] == t.slice.data && buf[n..] == old(buf[n..])
              && addr[..] == (if t.slice.first then t.slice.addr else old(addr[..]))
              && port[0] == (if t.slice.first then t.slice.port else old(port[0]))
    {
      TakeInTwoReads(Rx(remained[sn], chip.socks[sn].rx), len);
      ghost var t := Take(Rx(remained[sn], chip.socks[sn].rx), len);
      n := ReadBoth(sn, buf, len, addr, port);
      Note(HandedOut(calls, sn, t.slice));
    }

    /** The head of a raw datagram: six bytes with an address, or the two bytes of a MAC frame's
        length, which counts itself. The size is negative when the frame is too long. */
    method ReadRawHead(sn: nat, addr: array<byte>) returns (size: int)
      requires chip.Valid() && sn < SOCK_NUM && addr.Length == 4
      modifies chip`socks, addr
      ensures chip.Valid() && size < 0x1_0000
      ensures chip.socks == old(chip.socks)[sn := chip.socks[sn]]
      ensures SameButQueue(old(chip.socks[sn]), chip.socks[sn])
      ensures size < 0 ==> Protocol(chip.socks[sn].mr) == MR_MACRAW
      ensures Protocol(chip.socks[sn].mr) == MR_MACRAW ==> addr[..] == old(addr[..])
      ensures var r := old(chip.socks[sn]); var head := RawHead(r.mr);
              |r.rx| >= head ==>
                && size == (if RawTooLong(r.mr, r.rx) then -1 else RawSize(r.mr, r.rx))
                && chip.socks[sn].rx == r.rx[head..]
                && (head == 6 ==> addr[..] == r.rx[..4])
    {
      if Protocol(chip.socks[sn].mr) == MR_MACRAW {
        var head := chip.RecvData(sn, 2);
        chip.Apply(sn, Recv);
        size := Trunc16(BigEndian(head[0], head[1]) - 2);
        if size > MACRAW_LIMIT {
          size := -1;
        }
      } else {
        var head := chip.RecvData(sn, 6);
        chip.Apply(sn, Recv);
        addr[0], addr[1], addr[2], addr[3] := head[0], head[1], head[2], head[3];
        size := BigEndian(head[4], head[5]);
        assert addr[..] == head[..4];
      }
    }

    /** recvfrom() on the two raw socket kinds: a head when a datagram starts, then a slice of what
        remains, both off the front of the queue as far as that reaches. */
    method TakeRaw(sn: nat, buf: array<byte>, len: u16, addr: array<byte>) returns (ret: int)
      requires Valid() && sn < SOCK_NUM && Protocol(chip.socks[sn].mr) in {MR_IPRAW, MR_MACRAW}
      requires len <= buf.Length && addr.Length == 4 && buf != addr
      modifies this`ioMode, this`isSending, this`remained, this`packInfo, chip`socks, buf, addr
      ensures Valid() && anyPort == old(anyPort) && OthersKept(sn)
      ensures chip.socks[sn].sent == old(chip.socks[sn].sent) && chip.socks[sn].mr == old(chip.socks[sn].mr)
      ensures ret == SOCKFATAL_PACKLEN ==> View(sn) == RELEASED && buf[..] == old(buf[..]) && old(remained[sn]) == 0
      ensures ret != SOCKFATAL_PACKLEN ==>
                && 0 <= ret <= len && buf[ret..] == old(buf[ret..])
                && View(sn) == old(View(sn)).(remained := remained[sn], packInfo := packInfo[sn])
      ensures RawTaken(old(chip.socks[sn]).mr, old(remained[sn]), old(chip.socks[sn].rx), old(addr[..]), len,
                       ret, remained[sn], chip.socks[sn].rx, addr[..], buf[..])
    {
      hide SocketOk, RawStarted, RawTaken;
      ghost var mr, remained0, queue, addr0 := chip.socks[sn].mr, remained[sn], chip.socks[sn].rx, addr[..];
      var fatal := ReadRawStart(sn, addr);
      ghost var remained1, queue1 := remained[sn], chip.socks[sn].rx;
      if fatal {
        StartIsFatal(mr, remained0, queue, addr0, len, remained1, queue1, addr[..], buf[..]);
        return SOCKFATAL_PACKLEN;
      }
      ret := RawSlice(sn, buf, len);
      StartThenSlice(mr, remained0, queue, addr0, len, remained1, queue1, remained[sn], chip.socks[sn].rx, addr[..], buf[..]);
    }

    /** Its first read, if a datagram starts. */
    method ReadRawStart(sn: nat, addr: array<byte>) returns (fatal: bool)
      requires Valid() && sn < SOCK_NUM && Protocol(chip.socks[sn].mr) in {MR_IPRAW, MR_MACRAW} && addr.Length == 4
      modifies this`ioMode, this`isSending, this`remained, this`packInfo, chip`socks, addr
      ensures fatal ==> Valid() && View(sn) == RELEASED && old(remained[sn]) == 0
      ensures !fatal ==>
                && Halfway(sn) && packInfo[sn] in {PACK_FIRST, PackInfoFor(remained[sn])}
                && View(sn) == old(View(sn)).(remained := remained[sn], packInfo := packInfo[sn])
      ensures OthersKept(sn) && chip.socks[sn].sent == old(chip.socks[sn].sent) && chip.socks[sn].mr == old(chip.socks[sn].mr)
      ensures RawStarted(old(chip.socks[sn]).mr, old(remained[sn]), old(chip.socks[sn].rx), old(addr[..]),
                         fatal, remained[sn], chip.socks[sn].rx, addr[..])
    {
      hide RawTooLong, RawSize, Disciplined, Outstanding;
      if remained[sn] != 0 {
        return false;
      }
      var size := ReadRawHead(sn, addr);
      if size < 0 {
        var _ := CloseSocket(sn);
        return true;
      }
      remained := remained[sn := size];
      packInfo := packInfo[sn := PACK_FIRST];
      return false;
    }

    /** Its second read. */
    method RawSlice(sn: nat, buf: array<byte>, len: u16) returns (n: u16)
      requires Halfway(sn) && !UdpMode(chip.socks[sn].mr) && packInfo[sn] in {PACK_FIRST, PackInfoFor(remained[sn])}
      requires len <= buf.Length
      modifies this`remained, this`packInfo, chip`socks, buf
      ensures Valid() && OthersKept(sn) && SameButQueue(old(chip.socks[sn]), chip.socks[sn])
      ensures n == Min(len, old(remained[sn])) && buf[n..] == old(buf[n..])
      ensures View(sn) == old(View(sn)).(remained := old(remained[sn]) - n, packInfo := PackInfoFor(old(remained[sn]) - n))
      ensures |old(chip.socks[sn].rx)| >= n ==>
                buf[..n] == old(chip.socks[sn].rx[..n]) && chip.socks[sn].rx == old(chip.socks[sn].rx[n..])
    {
      n := if len < remained[sn] then len else remained[sn];
      Pull(sn, buf, n);
      Finish(sn, n);
    }

    /** recvfrom() up to the point where it reads from the queue. */
    method BeforeTake(sn: nat, len: u16, patience: nat) returns (done: bool, ret: int)
      requires Valid() && sn < SOCK_NUM
      modifies chip`socks
      ensures Valid() && OthersKept(sn) && View(sn) == old(View(sn))
      ensures Evolves(old(chip.socks[sn]), chip.socks[sn])
      ensures done && ret > 0 ==> len > 0 && Protocol(chip.socks[sn].mr) in {MR_UDP, MR_IPRAW, MR_MACRAW}
      ensures done && ret > 0 && UdpMode(chip.socks[sn].mr) ==>
                Framed(Rx(remained[sn], chip.socks[sn].rx)) && chip.socks[sn].rx != []
      ensures done && ret <= 0 ==> NothingTaken(ret, len, View(sn).nonblock, old(chip.socks[sn]), chip.socks[sn])
      ensures View(sn).nonblock && patience > 0 ==> done
    {
      ghost var r0 := chip.socks[sn];
      Poll(sn);
      ghost var r1 := chip.socks[sn];
      var protocol := Protocol(chip.socks[sn].mr);
      if protocol != MR_UDP && protocol != MR_IPRAW && protocol != MR_MACRAW {
        return true, SOCKERR_SOCKMODE;
      }
      if len == 0 {
        return true, SOCKERR_DATALEN;
      }
      done, ret := true, SOCK_OK;
      if remained[sn] == 0 {
        done, ret := AwaitDatagram(sn, patience);
        EvolvesChain(r0, r1, chip.socks[sn]);
      }
    }

    /** recvfrom(). On a UDP socket a call either changes nothing or is one `Take` on the queue it
        found, which is what was there before with `arrived` behind it. */
    method RecvFrom(sn: nat, buf: array<byte>, len: u16, addr: array<byte>, port: array<u16>, patience: nat)
        returns (done: bool, ret: int, took: bool, ghost arrived: bytes)
      requires Valid() && len <= buf.Length && addr.Length == 4 && port.Length == 1 && buf != addr
      modifies this`ioMode, this`isSending, this`remained, this`packInfo, this`calls, chip`socks, buf, addr, port
      ensures Valid() && anyPort == old(anyPort)
      ensures sn < SOCK_NUM ==> OthersKept(sn) && chip.socks[sn].sent == old(chip.socks[sn].sent)
      ensures sn < SOCK_NUM ==> chip.socks[sn].mr == old(chip.socks[sn].mr)
      ensures !took ==> buf[..] == old(buf[..]) && addr[..] == old(addr[..]) && port[0] == old(port[0])
      ensures sn >= SOCK_NUM ==> done && ret == SOCKERR_SOCKNUM && unchanged(this) && unchanged(chip)
      ensures !took && sn < SOCK_NUM ==>
                && View(sn) == old(View(sn)) && chip.socks[sn].taken == old(chip.socks[sn].taken)
                && (done ==> ret <= 0 && NothingTaken(ret, len, View(sn).nonblock, old(chip.socks[sn]), chip.socks[sn]))
      ensures !(took && sn < SOCK_NUM && UdpMode(old(chip.socks[sn].mr))) ==> calls == old(calls)
      ensures took ==> done && sn < SOCK_NUM
      ensures took && UdpMode(old(chip.socks[sn].mr)) ==>
                && var rx := Rx(old(remained[sn]), old(chip.socks[sn].rx) + arrived);
                && WholeRecords(arrived) && Framed(rx) && rx.queue != [] && 0 < len
                && var t := Take(rx, len);
                && ret == |t.slice.data| && ret <= len
                && calls == HandedOut(old(calls), sn, t.slice)
                && Rx(remained[sn], chip.socks[sn].rx) == t.rx
                && View(sn) == old(View(sn)).(remained := t.rx.remained, packInfo := PackInfoFor(t.rx.remained))
                && buf[..ret] == t.slice.data && buf[ret..] == old(buf[ret..])
                && addr[..] == (if t.slice.first then t.slice.addr else old(addr[..]))
                && port[0] == (if t.slice.first then t.slice.port else old(port[0]))
      ensures took && !UdpMode(old(chip.socks[sn].mr)) ==>
                RawTaken(old(chip.socks[sn]).mr, old(remained[sn]), old(chip.socks[sn].rx) + arrived, old(addr[..]), len,
                         ret, remained[sn], chip.socks[sn].rx, addr[..], buf[..])
      ensures sn < SOCK_NUM && old(View(sn).nonblock) && patience > 0 ==> done
    {
      hide Take, RawTaken;
      took, arrived := false, [];
      if sn >= SOCK_NUM {
        return true, SOCKERR_SOCKNUM, false, [];
      }
      ghost var r0 := chip.socks[sn];
      done, ret := BeforeTake(sn, len, patience);
      if !done || ret <= 0 {
        return done, ret, false, [];
      }
      arrived := chip.socks[sn].rx[|r0.rx|..];
      assert chip.socks[sn].rx == r0.rx + arrived;
      if Protocol(chip.socks[sn].mr) == MR_UDP {
        ret := TakeUdp(sn, buf, len, addr, port);
      } else {
        ret := TakeRaw(sn, buf, len, addr);
      }
      return true, ret, true, arrived;
    }

    /** ctlsocket() for the requests that touch the driver's statics or the interrupt bits it
        relies on. */
    method CtlSocket(sn: nat, request: CtlRequest) returns (ret: int, answer: int)
      requires Valid()
      modifies this`ioMode, chip`socks
      ensures Valid()
      ensures sn >= SOCK_NUM ==> ret == SOCKERR_SOCKNUM && unchanged(this) && unchanged(chip)
      ensures sn < SOCK_NUM ==>
                && OthersKept(sn)
                && chip.socks[sn] == (if request.ClearInterrupt? && CtlAccepts(request)
                                      then AfterClear(old(chip.socks[sn]), request.bits) else old(chip.socks[sn]))
      ensures sn < SOCK_NUM ==> (ret == SOCK_OK <==> CtlAccepts(request)) && (ret == SOCK_OK || ret == SOCKERR_ARG)
      ensures sn < SOCK_NUM ==>
                View(sn) == (if request.SetIoMode? && CtlAccepts(request)
                             then old(View(sn)).(nonblock := request.mode == SOCK_IO_NONBLOCK) else old(View(sn)))
      ensures sn < SOCK_NUM && request.GetIoMode? ==> answer == if View(sn).nonblock then 1 else 0
    {
      answer := 0;
      if sn >= SOCK_NUM {
        return SOCKERR_SOCKNUM, 0;
      }
      match request {
        case SetIoMode(mode) =>
          if mode == SOCK_IO_NONBLOCK {
            MarkNonblock(sn, true);
          } else if mode == SOCK_IO_BLOCK {
            MarkNonblock(sn, false);
          } else {
            return SOCKERR_ARG, 0;
          }
        case GetIoMode =>
          answer := if Bit(ioMode, sn) then 1 else 0;
        case ClearInterrupt(bits) =>
          if bits > SIK_ALL {
            return SOCKERR_ARG, 0;
          }
          chip.ClearIr(sn, bits);
      }
      return SOCK_OK, answer;
    }
  }

  /** The host has read and written nothing in between. */
  predicate SameStreams(a: Regs, b: Regs) {
    a.taken == b.taken && a.sent == b.sent
  }

  /** Nothing waiting has been lost in between: what has been taken since comes off the front of what
      was queued then or has come in behind it. */
  predicate StreamKept(a: Regs, b: Regs) {
    && b.rxMax == a.rxMax && a.seen <= b.seen
    && a.taken <= b.taken && a.rx <= b.taken[|a.taken|..] + b.rx
  }

  lemma StreamStays(a: Regs)
    ensures StreamKept(a, a)
  {
  }

  lemma StreamChain(a: Regs, b: Regs, c: Regs)
    requires StreamKept(a, b) && StreamKept(b, c)
    ensures StreamKept(a, c)
  {
    var ab, bc := b.taken[|a.taken|..], c.taken[|b.taken|..];
    assert c.taken[|a.taken|..] == ab + bc;
    assert ab + b.rx <= ab + (bc + c.rx) == (ab + bc) + c.rx;
  }

  /** A socket reopened in a protocol with the upper flag bits, on a port, with an empty queue. */
  predicate JustOpened(a: Regs, b: Regs, protocol: byte, flag: byte, port: u16) {
    && Protocol(b.mr) == protocol && b.mr / 0x10 == flag / 0x10
    && b.sr == OpenStatus(b.mr) && b.rx == [] && b.txFree == b.txMax && b.port == port
    && !b.sendOk && !b.timeout && SameStreams(a, b) && a.dialed == b.dialed
  }

  predicate BadAddress(addr: bytes) {
    addr == [0xFF, 0xFF, 0xFF, 0xFF] || addr == [0, 0, 0, 0]
  }

  /** The address of nobody and the address of everybody, and no other. */
  lemma AddressIsRefusedIff(addr: bytes)
    requires |addr| == 4
    ensures BadAddress(addr) <==> forall i :: 0 < i < 4 ==> addr[i] == addr[0] && (addr[0] == 0 || addr[0] == 0xFF)
  {
    assert addr[1] == addr[0] && addr[2] == addr[0] && addr[3] == addr[0] ==> addr == [addr[0], addr[0], addr[0], addr[0]];
  }

  /** What connect() answers, in the order of its checks, and what the socket has shown for it. */
  predicate ConnectAnswer(ret: int, addr: bytes, port: u16, nonblock: bool, r: Regs, r': Regs) {
    if Protocol(r.mr) != MR_TCP then ret == SOCKERR_SOCKMODE
    else
      && Looks(r, r') >= 2
      && if Shown(r, r', 1).sr != SOCK_INIT then ret == SOCKERR_SOCKINIT
         else if BadAddress(addr) then ret == SOCKERR_IPINVALID
         else if port == 0 then ret == SOCKERR_PORTZERO
         else if nonblock then ret == SOCK_BUSY && r'.sr == SOCK_SYNSENT
         else Looks(r, r') >= 3 && ConnectionAnswer(ret, r')
  }

  predicate ConnectionAnswer(ret: int, r': Regs) {
    || (ret == SOCK_OK && ShownLast(r', 0).sr == SOCK_ESTABLISHED)
    || (ret == SOCKERR_TIMEOUT && ShownLast(r', 0).timeout && !r'.timeout)
    || (ret == SOCKERR_SOCKCLOSED && ShownLast(r', 0).sr == SOCK_CLOSED)
  }

  /** Whether connect() got as far as its command. */
  predicate Dials(done: bool, ret: int) {
    !done || ret !in {SOCKERR_SOCKMODE, SOCKERR_SOCKINIT, SOCKERR_IPINVALID, SOCKERR_PORTZERO}
  }

  /** What disconnect() answers. */
  predicate DisconnectAnswer(ret: int, nonblock: bool, r: Regs, r': Regs) {
    if Protocol(r.mr) != MR_TCP then ret == SOCKERR_SOCKMODE
    else if nonblock then ret == SOCK_BUSY
    else
      && Looks(r, r') >= 2 && r'.sr == SOCK_CLOSED
      && (|| (ret == SOCK_OK && ShownLast(r', 0).sr == SOCK_CLOSED)
          || (ret == SOCKERR_TIMEOUT && ShownLast(r', 0).timeout))
  }

  /** A buffer of which only `n` places from `at` on may have changed. */
  predicate SplicedIn(a: bytes, b: bytes, at: nat, n: nat) {
    |b| == |a| && at + n <= |a| && b[..at] == a[..at] && b[at + n..] == a[at + n..]
  }

  lemma NothingSpliced(a: bytes, at: nat)
    requires at <= |a|
    ensures SplicedIn(a, a, at, 0)
  {
  }

  /** recv() once it has been through its polling loop, from `r1` on, and has read or not. */
  lemma FoundIsAnswer(found: int, ret: int, len: u16, nonblock: bool, r: Regs, r1: Regs, r2: Regs)
    requires Protocol(r.mr) == MR_TCP && 0 < len
    requires r1.seen == r.seen + [SightOf(r1)] && r1.seen <= r2.seen
    requires r.rx <= r1.rx && r1.txMax == r.txMax && r1.rxMax == r.rxMax
    requires Looks(r1, r2) > 0 && DataAnswer(found, nonblock, 0, r1, r2)
    requires ret == (if found > 0 then Min(Min(len, r.rxMax), found) else found) && (ret < 0 ==> r2.sr == SOCK_CLOSED)
    ensures RecvAnswer(ret, len, nonblock, r, r2)
  {
    hide Protocol;
  }

  lemma TakenOffFront(r: Regs, r': Regs, r'': Regs, n: nat)
    requires StreamKept(r, r') && r'.taken == r.taken && n <= |r'.rx| && r''.seen == r'.seen
    requires r''.rxMax == r'.rxMax && r''.taken == r'.taken + r'.rx[..n] && r''.rx == r'.rx[n..]
    ensures StreamKept(r, r'')
  {
    assert r''.taken[|r'.taken|..] == r'.rx[..n];
    assert r'.rx == r''.taken[|r'.taken|..] + r''.rx;
    StreamChain(r, r', r'');
  }

  predicate HasConnection(sr: byte) {
    sr == SOCK_ESTABLISHED || sr == SOCK_CLOSE_WAIT
  }

  /** No call of send waits: the socket is closed or non-blocking. */
  predicate NeverWaits(v: SockView, r: Regs) {
    v.nonblock || r.sr == SOCK_CLOSED
  }

  /** The chip has shown a status without a connection in between. */
  predicate ChipLeft(r: Regs, r': Regs) {
    exists i :: |r.seen| <= i < |r'.seen| && !HasConnection(r'.seen[i].sr)
  }

  /** What send() answers on a TCP socket, decided by what the socket has shown: first its status; then,
      if an earlier SEND is not acknowledged yet, whether it is now; then, the last time, the free space
      and the status again. It is all of the request that the transmit buffer could ever hold, or
      nothing. */
  predicate SendAnswer(ret: int, len: u16, v: SockView, r: Regs, r': Regs) {
    if Protocol(r.mr) != MR_TCP then ret == SOCKERR_SOCKMODE
    else if len == 0 then ret == SOCKERR_DATALEN
    else
      && Looks(r, r') >= 2
      && if !HasConnection(Shown(r, r', 1).sr) then ret == SOCKERR_SOCKSTATUS
         else if v.sending && Looks(r, r') == 3 then
           !Shown(r, r', 2).sendOk && ret == if Shown(r, r', 2).timeout then SOCKERR_TIMEOUT else SOCK_BUSY
         else
           && Looks(r, r') >= 4 && (v.sending ==> Looks(r, r') >= 5 && Shown(r, r', 2).sendOk)
           && SpaceAnswer(ret, Min(len, r.txMax), v.nonblock, r, r')
  }

  /** An earlier SEND is looked after: send() goes on exactly when there is none or it is done. */
  predicate Acknowledged(stop: bool, ret: int, sending: bool, r: Regs, r': Regs) {
    if !sending then !stop && r'.seen == r.seen && r'.trace == r.trace
    else
      && Looks(r, r') == 1
      && var s := Shown(r, r', 0);
      && (stop <==> !s.sendOk)
      && if !stop then r'.trace == r.trace + [SendOkCleared]
         else if s.timeout then ret == SOCKERR_TIMEOUT && r'.trace == r.trace + [Closed]
         else ret == SOCK_BUSY && r'.trace == r.trace
  }

  /** send() gets as far as its polling loop. */
  predicate GoesOn(sending: bool, r: Regs, r': Regs) {
    && Looks(r, r') == (if sending then 3 else 2) && HasConnection(Shown(r, r', 1).sr)
    && (sending ==> Shown(r, r', 2).sendOk)
    && r'.trace == r.trace + if sending then [SendOkCleared] else []
  }

  predicate SpaceAnswer(ret: int, n: u16, nonblock: bool, r: Regs, r': Regs) {
    var free := ShownLast(r', 1).txFree;
    && r.txFree <= free
    && if !HasConnection(ShownLast(r', 0).sr) then ret == SOCKERR_SOCKSTATUS
       else if n <= free then ret == n
       else nonblock && ret == SOCK_BUSY
  }

  /** The commands send() has given: SEND exactly for what it has handed over. */
  predicate SendTrace(ret: int, v: SockView, r: Regs, r': Regs) {
    if ret > 0 then r'.trace == r.trace + (if v.sending then [SendOkCleared] else []) + [SendIssued]
    else r.trace <= r'.trace && (r.txMax > 0 ==> SendIssued !in r'.trace[|r.trace|..])
  }

  /** What send()'s polling loop finds, and that it gives no SEND. */
  predicate SpaceFound(done: bool, ret: int, n: u16, nonblock: bool, r: Regs, r': Regs) {
    && ret in {SOCK_OK, SOCK_BUSY, SOCKERR_SOCKSTATUS}
    && r'.txMax == r.txMax && r.txFree <= r'.txFree && r.trace <= r'.trace && r.seen <= r'.seen
    && (!done || ret >= 0 ==> r'.trace == r.trace)
    && SendIssued !in r'.trace[|r.trace|..]
    && (done ==> Looks(r, r') >= 2 && SpaceAnswer(if ret == SOCK_OK then n else ret, n, nonblock, r, r'))
    && (done && ret == SOCK_OK ==> n <= r'.txFree)
    && (done && ret == SOCK_BUSY ==> n > 0)
  }

  lemma NoSpaceYet(r: Regs, n: u16, nonblock: bool)
    ensures SpaceFound(false, 0, n, nonblock, r, r)
  {
  }

  lemma SpaceFoundLater(done: bool, ret: int, n: u16, nonblock: bool, r: Regs, r1: Regs, r2: Regs)
    requires SpaceFound(false, 0, n, nonblock, r, r1) && SpaceFound(done, ret, n, nonblock, r1, r2)
    ensures SpaceFound(done, ret, n, nonblock, r, r2)
    ensures !done ==> SpaceFound(false, 0, n, nonblock, r, r2)
  {
  }

  /** send() once it has been through its polling loop, from `r1` to `r2`, and has sent or not. */
  lemma SentWhenSpace(v: SockView, r: Regs, r1: Regs, r2: Regs, r3: Regs, len: u16, done: bool, ret: int)
    requires Protocol(r.mr) == MR_TCP && 0 < len && GoesOn(v.sending, r, r1)
    requires r.seen <= r1.seen <= r2.seen && r1.txMax == r.txMax && r.txFree <= r1.txFree
    requires done ==> Looks(r1, r2) >= 2 && SpaceAnswer(ret, Min(len, r.txMax), v.nonblock, r1, r2)
    requires r3.seen == r2.seen && (!done ==> ret <= 0)
    requires if done && ret >= 0 && ret == Min(len, r.txMax) then r3.trace == r1.trace + [SendIssued]
             else r1.trace <= r3.trace && SendIssued !in r3.trace[|r1.trace|..]
    ensures done ==> SendAnswer(ret, len, v, r, r3)
    ensures SendTrace(ret, v, r, r3)
  {
    hide Protocol;
    var more := if v.sending then [SendOkCleared] else [];
    assert Shown(r, r3, 1) == Shown(r, r1, 1) && (v.sending ==> Shown(r, r3, 2) == Shown(r, r1, 2));
    assert r1.trace + [SendIssued] == r.trace + more + [SendIssued];
    if r1.trace <= r3.trace {
      assert r3.trace[|r.trace|..] == more + r3.trace[|r1.trace|..];
    }
  }

  /** What send() has written to the transmit buffer when it answers. */
  predicate HandedOver(ret: int, len: u16, request: bytes, r: Regs, r': Regs)
    requires |request| == len
  {
    if ret > 0 then ret <= len && r'.sent == r.sent + request[..ret] else r'.sent == r.sent
  }

  /** What recv() answers on a TCP socket, decided by what the socket has shown last: its status and how
      many bytes wait; on a half-closed socket without any, then also its free space. Such a socket is
      given up once everything sent has gone out, any other in a status without a connection. */
  predicate RecvAnswer(ret: int, len: u16, nonblock: bool, r: Regs, r': Regs) {
    if Protocol(r.mr) != MR_TCP then ret == SOCKERR_SOCKMODE
    else if len == 0 then ret == SOCKERR_DATALEN
    else
      var waiting := ShownLast(r', 0).waiting;
      && Looks(r, r') >= 2
      && (|| (waiting > 0 && DataAnswer(waiting, nonblock, 1, r, r') && ret == Min(Min(len, r.rxMax), waiting))
          || (ret <= 0 && DataAnswer(ret, nonblock, 1, r, r') && (ret < 0 ==> r'.sr == SOCK_CLOSED)))
  }

  /** The end of recv()'s polling loop, after `k` looks before it: how many bytes wait, or why it gives
      up. */
  predicate DataAnswer(ret: int, nonblock: bool, k: nat, r: Regs, r': Regs) {
    var before, last := ShownLast(r', 1), ShownLast(r', 0);
    || (ret > 0 && HasConnection(last.sr) && ret == last.waiting)
    || (ret == SOCK_BUSY && nonblock && r.rx == [] && last.sr == SOCK_ESTABLISHED && last.waiting == 0)
    || (&& Looks(r, r') >= k + 2 && r.rx == [] && before.sr == SOCK_CLOSE_WAIT && before.waiting == 0
        && if last.txFree == r.txMax then ret == SOCKERR_SOCKSTATUS else nonblock && ret == SOCK_BUSY)
    || (ret == SOCKERR_SOCKSTATUS && !HasConnection(last.sr))
  }

  /** What recvfrom() answers when it does not get as far as reading. */
  predicate NothingTaken(ret: int, len: u16, nonblock: bool, r: Regs, r': Regs) {
    if Protocol(r.mr) !in {MR_UDP, MR_IPRAW, MR_MACRAW} then ret == SOCKERR_SOCKMODE
    else if len == 0 then ret == SOCKERR_DATALEN
    else
      Looks(r, r') >= 3 && WaitAnswer(ret, nonblock, r, r')
  }

  /** recvfrom()'s polling loop when no datagram comes. */
  predicate WaitAnswer(ret: int, nonblock: bool, r: Regs, r': Regs) {
    if ShownLast(r', 0).sr == SOCK_CLOSED then ret == SOCKERR_SOCKCLOSED
    else ret == SOCK_BUSY && nonblock && ShownLast(r', 1).waiting == 0 && r.rx == []
  }

  /** The head of a raw datagram, and the size of the payload behind it. */
  function RawHead(mr: byte): (n: nat)
    ensures n > 0
  {
    if Protocol(mr) == MR_MACRAW then 2 else 6
  }

  function RawSize(mr: byte, queue: bytes): u16
    requires |queue| >= RawHead(mr)
  {
    if Protocol(mr) == MR_MACRAW then Trunc16(BigEndian(queue[0], queue[1]) - 2) else BigEndian(queue[4], queue[5])
  }

  predicate RawTooLong(mr: byte, queue: bytes)
    requires |queue| >= RawHead(mr)
  {
    Protocol(mr) == MR_MACRAW && RawSize(mr, queue) > MACRAW_LIMIT
  }

  /** What recvfrom() makes of the bytes queued on a raw socket with `remained` bytes of a datagram still
      to come: the head first, if a datagram starts, and then as much of the datagram as fits. */
  predicate RawTaken(mr: byte, remained: u16, queue: bytes, addr: bytes, len: u16,
                     ret: int, remained': u16, queue': bytes, addr': bytes, buf: bytes) {
    var first := remained == 0;
    var head := if first then RawHead(mr) else 0;
    |queue| >= head ==>
      && (ret == SOCKFATAL_PACKLEN <==> first && RawTooLong(mr, queue))
      && (ret != SOCKFATAL_PACKLEN ==>
            && var size := if first then RawSize(mr, queue) else remained;
            && ret == Min(len, size) <= |buf| && remained' == size - ret
            && addr' == (if head == 6 then queue[..4] else addr)
            && (|queue| >= head + ret ==> buf[..ret] == queue[head..head + ret] && queue' == queue[head + ret..]))
  }

  /** Its first read. */
  predicate RawStarted(mr: byte, remained: u16, queue: bytes, addr: bytes,
                       fatal: bool, remained': u16, queue': bytes, addr': bytes) {
    var first := remained == 0;
    var head := if first then RawHead(mr) else 0;
    |queue| >= head ==>
      && (fatal <==> first && RawTooLong(mr, queue))
      && (!fatal ==>
            && remained' == (if first then RawSize(mr, queue) else remained)
            && addr' == (if head == 6 then queue[..4] else addr) && queue' == queue[head..])
  }

  lemma StartIsFatal(mr: byte, remained: u16, queue: bytes, addr: bytes, len: u16,
                     remained': u16, queue': bytes, addr': bytes, buf: bytes)
    requires RawStarted(mr, remained, queue, addr, true, remained', queue', addr')
    ensures RawTaken(mr, remained, queue, addr, len, SOCKFATAL_PACKLEN, remained', queue', addr', buf)
  {
    hide RawTooLong, RawSize;
  }

  lemma StartThenSlice(mr: byte, remained: u16, queue: bytes, addr: bytes, len: u16, remained1: u16, queue1: bytes,
                       remained': u16, queue': bytes, addr': bytes, buf: bytes)
    requires RawStarted(mr, remained, queue, addr, false, remained1, queue1, addr')
    requires var n := Min(len, remained1);
             && n <= |buf| && remained' == remained1 - n && (|queue1| >= n ==> buf[..n] == queue1[..n] && queue' == queue1[n..])
    ensures RawTaken(mr, remained, queue, addr, len, Min(len, remained1), remained', queue', addr', buf)
  {
    hide RawTooLong, RawSize;
    var head, n := if remained == 0 then RawHead(mr) else 0, Min(len, remained1);
    if |queue| >= head + n {
      assert queue[head..][..n] == queue[head..head + n] && queue[head..][n..] == queue[head + n..];
    }
  }

  /** A datagram as a raw socket queues it: a frame behind its length, which counts itself, or a payload
      behind its sender and length. */
  function RawRecord(mr: byte, addr: bytes, payload: bytes): bytes
    requires |addr| == 4 && |payload| < 0xFFFE
  {
    var n := if Protocol(mr) == MR_MACRAW then |payload| + 2 else |payload|;
    (if Protocol(mr) == MR_MACRAW then [] else addr) + [n / 0x100, n % 0x100] + payload
  }

  /** It is read back, whatever is queued behind it, unless it is a frame of more than 1514 bytes. */
  lemma RawRecordIsRead(mr: byte, addr: bytes, payload: bytes, later: bytes)
    requires |addr| == 4 && |payload| < 0xFFFE
    ensures var q := RawRecord(mr, addr, payload) + later; var head := RawHead(mr);
            && |q| >= head + |payload|
            && (RawTooLong(mr, q) <==> Protocol(mr) == MR_MACRAW && |payload| > 1514)
            && RawSize(mr, q) == |payload| && q[head..head + |payload|] == payload && q[head + |payload|..] == later
            && (Protocol(mr) != MR_MACRAW ==> q[..4] == addr)
  {
    var q, head, n := RawRecord(mr, addr, payload) + later, RawHead(mr),
                      if Protocol(mr) == MR_MACRAW then |payload| + 2 else |payload|;
    assert q[head - 2] == n / 0x100 && q[head - 1] == n % 0x100;
    assert q[head..] == payload + later;
  }

  /** A frame's announced length is refused when it does not even cover itself, or covers too much. */
  lemma FrameIsRefusedIff(mr: byte, queue: bytes)
    requires Protocol(mr) == MR_MACRAW && |queue| >= 2
    ensures RawTooLong(mr, queue) <==> !(2 <= 0x100 * (queue[0] as int) + queue[1] <= 1516)
  {
  }

  /** Only the receive queue has been read from. */
  predicate SameButQueue(a: Regs, b: Regs) {
    b == a.(rx := b.rx, taken := b.taken, reading := false)
  }

  datatype CtlRequest = SetIoMode(mode: byte) | GetIoMode | ClearInterrupt(bits: byte)

  predicate CtlAccepts(request: CtlRequest) {
    match request
    case SetIoMode(mode) => mode == SOCK_IO_NONBLOCK || mode == SOCK_IO_BLOCK
    case GetIoMode => true
    case ClearInterrupt(bits) => bits <= SIK_ALL
  }

  /** The checks socket() makes before it touches anything: 0 when it goes ahead. */
  function SocketRefusal(protocol: byte, flag: byte, sipr: u32): int {
    if protocol == MR_TCP && sipr == 0 then SOCKERR_SOCKINIT
    else if protocol !in {MR_TCP, MR_UDP, MR_IPRAW, MR_MACRAW} then SOCKERR_SOCKMODE
    else if flag / 0x04 % 2 == 1 then SOCKERR_SOCKFLAG
    else if protocol == MR_TCP && flag != 0 && flag / 0x20 % 2 == 0 && flag % 2 == 0 then SOCKERR_SOCKFLAG
    else if protocol == MR_UDP && (flag / 0x20 % 2 == 1 || flag / 0x10 % 2 == 1) && flag / 0x80 % 2 == 0 then SOCKERR_SOCKFLAG
    else 0
  }

  /** Some bits of a byte. */
  lemma FlagBits(flag: byte)
    ensures Bit(flag, 0) <==> flag % 2 == 1
    ensures Bit(flag, 2) <==> flag / 0x04 % 2 == 1
    ensures Bit(flag, 4) <==> flag / 0x10 % 2 == 1
    ensures Bit(flag, 5) <==> flag / 0x20 % 2 == 1
    ensures Bit(flag, 7) <==> flag / 0x80 % 2 == 1
  {
    hide Bit;
    assert Pow2(2) == 4 && Pow2(4) == 16 && Pow2(0) == 1;
    assert Pow2(5) == 2 * Pow2(4) && Pow2(7) == 4 * Pow2(5);
    BitIs(flag, 0);
    BitIs(flag, 2);
    BitIs(flag, 4);
    BitIs(flag, 5);
    BitIs(flag, 7);
  }

  /** Which arguments socket() refuses, and with which error: TCP without an address of the board's own; any
      but the four protocols; and flags with bit 2, on TCP without both bit 0 and bit 5, on UDP with bit
      4 or 5 but without bit 7. */
  lemma SocketIsRefusedIff(protocol: byte, flag: byte, sipr: u32)
    ensures var refusal := SocketRefusal(protocol, flag, sipr);
            && (refusal == -3 <==> protocol == 1 && sipr == 0)
            && (refusal == -5 <==> !(1 <= protocol <= 4))
            && (refusal == -6 <==>
                  && 1 <= protocol <= 4 && !(protocol == 1 && sipr == 0)
                  && (|| Bit(flag, 2)
                      || (protocol == 1 && flag != 0 && !Bit(flag, 0) && !Bit(flag, 5))
                      || (protocol == 2 && (Bit(flag, 4) || Bit(flag, 5)) && !Bit(flag, 7))))
            && (refusal == 0 || refusal == -3 || refusal == -5 || refusal == -6)
  {
    FlagBits(flag);
  }

  lemma SliceKeepsOk(v: SockView, r: Regs, n: u16, taken: bytes)
    requires SocketOk(v.(packInfo := PackInfoFor(v.remained)), r)
    requires Framed(Rx(v.remained, r.rx)) && n <= v.remained
    ensures SocketOk(v.(remained := v.remained - n, packInfo := PackInfoFor(v.remained - n)),
                     r.(rx := r.rx[n..], taken := taken))
  {
    assert r.rx[n..][v.remained - n..] == r.rx[v.remained..];
  }

  lemma EvolvesChain(a: Regs, b: Regs, c: Regs)
    requires Evolves(a, b) && Evolves(b, c)
    ensures Evolves(a, c)
  {
    assert c.rx[|a.rx|..] == b.rx[|a.rx|..] + c.rx[|b.rx|..];
    if UdpMode(a.mr) {
      WholeRecordsAppend(b.rx[|a.rx|..], c.rx[|b.rx|..]);
    }
  }

  lemma EvolvesRefl(a: Regs)
    requires ValidRegs(a)
    ensures Evolves(a, a)
  {
    assert a.rx[|a.rx|..] == [];
  }

  lemma NoBits(i: nat)
    ensures !Bit(0, i)
  {
  }

  /** More whole datagrams behind a framed queue leave it framed. */
  lemma ArrivalsKeepFraming(remained: u16, before: bytes, after: bytes)
    requires Framed(Rx(remained, before))
    requires before <= after && WholeRecords(after[|before|..])
    ensures Framed(Rx(remained, after))
  {
    var arrived := after[|before|..];
    WholeRecordsAppend(before[remained..], arrived);
    assert after == before + arrived;
    assert after[remained..] == before[remained..] + arrived;
  }
}
