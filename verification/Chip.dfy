/**
 The W5500 as its driver sees it: eight sockets with a status, interrupt bits, a receive queue and
 transmit space, moving on their own between any two registers the host reads. A command written
 to the command register has taken effect when the busy-wait on that register ends.
 */
module Chip {
  import opened Bytes
  import opened SocketBits

  const MR_TCP := 0x01
  const MR_UDP := 0x02
  const MR_IPRAW := 0x03
  const MR_MACRAW := 0x04

  const SOCK_CLOSED: byte := 0x00
  const SOCK_INIT: byte := 0x13
  const SOCK_SYNSENT: byte := 0x15
  const SOCK_ESTABLISHED: byte := 0x17
  const SOCK_CLOSE_WAIT: byte := 0x1C
  const SOCK_UDP: byte := 0x22
  const SOCK_IPRAW: byte := 0x32
  const SOCK_MACRAW: byte := 0x42

  datatype Host = Host(ip: bytes, port: u16)

  datatype Command = Open | Connect(to: Host) | Discon | Close | Send | Recv

  /** The host's doings on a socket that matter to its transmit side, in order. */
  datatype TxEvent = Opened | Closed | Disconnected | SendIssued | SendOkCleared

  /** What a socket shows the host at one moment. */
  datatype Sight = Sight(sr: byte, sendOk: bool, timeout: bool, waiting: nat, txFree: u16)

  /** One socket's registers and queues: of the interrupt register, the SENDOK and
      TIMEOUT bits; `taken` and `sent` are all bytes the host ever read from
      the receive queue and wrote to the transmit buffer, `trace` its transmit events, `dialed` the
      hosts it was told to connect to, `seen` what it has shown the host whenever that looked.
      `reading` is up between a read of received bytes and the command that commits it. */
  datatype Regs = Regs(
    mr: byte, sr: byte, sendOk: bool, timeout: bool, port: u16,
    rx: bytes, txFree: u16, rxMax: u16, txMax: u16,
    taken: bytes, sent: bytes, trace: seq<TxEvent>, dialed: seq<Host>, seen: seq<Sight>, reading: bool)

  function SightOf(r: Regs): Sight {
    Sight(r.sr, r.sendOk, r.timeout, |r.rx|, r.txFree)
  }

  /** How often the host has looked in between, what it was shown the `i`-th time, counted from 0, and
      what `k` times before the last. */
  function Looks(a: Regs, b: Regs): int {
    |b.seen| - |a.seen|
  }

  function Shown(a: Regs, b: Regs, i: nat): Sight {
    if |a.seen| + i < |b.seen| then b.seen[|a.seen| + i] else SightOf(b)
  }

  function ShownLast(b: Regs, k: nat): Sight {
    if k < |b.seen| then b.seen[|b.seen| - 1 - k] else SightOf(b)
  }

  /** What it was shown last is a closed socket. */
  predicate ShownClosed(a: Regs, b: Regs) {
    Looks(a, b) > 0 && ShownLast(b, 0).sr == SOCK_CLOSED
  }

  predicate ValidRegs(r: Regs) {
    r.txFree <= r.txMax && |r.rx| < 0x1_0000
  }

  /** `mr & 0x0F`. */
  function Protocol(mr: byte): byte {
    mr % 0x10
  }

  predicate UdpMode(mr: byte) {
    Protocol(mr) == MR_UDP
  }

  /** A run of complete datagram records: address, port, big-endian length, payload. */
  predicate WholeRecords(s: bytes)
    decreases |s|
  {
    s == [] || (|s| >= 8 && |s| >= RecordSize(s) && WholeRecords(s[RecordSize(s)..]))
  }

  function RecordSize(s: bytes): (n: nat)
    requires |s| >= 8
    ensures n >= 8
  {
    8 + (0x100 * (s[6] as int) + s[7])
  }

  lemma {:induction false} WholeRecordsAppend(a: bytes, b: bytes)
    requires WholeRecords(a) && WholeRecords(b)
    ensures WholeRecords(a + b)
    decreases |a|
  {
    if a == [] {
      assert a + b == b;
    } else {
      WholeRecordsAppend(a[RecordSize(a)..], b);
      assert (a + b)[RecordSize(a)..] == a[RecordSize(a)..] + b;
    }
  }

  /** What a socket may do by itself: data arrives behind what is queued (whole datagrams on a UDP
      socket), transmit space is freed, interrupt bits come up, the status changes; only the host
      reopens a closed socket. */
  predicate Evolves(a: Regs, b: Regs) {
    && b == a.(sr := b.sr, sendOk := b.sendOk, timeout := b.timeout, rx := b.rx, txFree := b.txFree, seen := b.seen)
    && ValidRegs(b) && a.seen <= b.seen
    && a.rx <= b.rx && (UdpMode(a.mr) ==> WholeRecords(b.rx[|a.rx|..]))
    && a.txFree <= b.txFree
    && (a.sendOk ==> b.sendOk) && (a.timeout ==> b.timeout)
    && (a.sr == SOCK_CLOSED ==> b.sr == SOCK_CLOSED)
  }

  function OpenStatus(mr: byte): byte {
    if Protocol(mr) == MR_TCP then SOCK_INIT
    else if Protocol(mr) == MR_UDP then SOCK_UDP
    else if Protocol(mr) == MR_IPRAW then SOCK_IPRAW
    else SOCK_MACRAW
  }

  function AfterCommand(r: Regs, c: Command): Regs {
    match c
    case Open => r.(sr := OpenStatus(r.mr), rx := [], txFree := r.txMax, trace := r.trace + [Opened])
    case Connect(to) => r.(sr := SOCK_SYNSENT, dialed := r.dialed + [to])
    case Discon => r.(trace := r.trace + [Disconnected])
    case Close => r.(sr := SOCK_CLOSED, trace := r.trace + [Closed])
    case Send => r.(trace := r.trace + [SendIssued])
    case Recv => r.(reading := false)
  }

  /** Writing ones to interrupt bits clears them. */
  function AfterClear(r: Regs, bits: byte): Regs {
    r.(sendOk := r.sendOk && bits / 0x10 % 2 == 0,
       timeout := r.timeout && bits / 0x08 % 2 == 0,
       trace := if r.sendOk && bits / 0x10 % 2 == 1 then r.trace + [SendOkCleared] else r.trace)
  }

  class W5500 {
    var socks: seq<Regs>
    var sipr: u32

    ghost predicate Valid()
      reads this
    {
      |socks| == SOCK_NUM && forall i :: 0 <= i < SOCK_NUM ==> ValidRegs(socks[i])
    }

    constructor (rxMax: u16, txMax: u16, ip: u32)
      ensures Valid() && sipr == ip
      ensures forall i :: 0 <= i < SOCK_NUM ==>
                socks[i] == Regs(0, SOCK_CLOSED, false, false, 0, [], txMax, rxMax, txMax, [], [], [], [], [], false)
    {
      socks := seq(SOCK_NUM, _ => Regs(0, SOCK_CLOSED, false, false, 0, [], txMax, rxMax, txMax, [], [], [], [], [], false));
      sipr := ip;
    }

    /** Any evolution of one socket, which then shows its state. */
    method Tick(sn: nat)
      requires Valid() && sn < SOCK_NUM
      modifies this`socks
      ensures Valid() && Evolves(old(socks[sn]), socks[sn])
      ensures socks == old(socks)[sn := socks[sn]]
      ensures socks[sn].seen == old(socks[sn]).seen + [SightOf(socks[sn])]
    {
      var r, next: Regs := socks[sn], *;
      if !Evolves(r, next) {
        next := r;
        assert WholeRecords(r.rx[|r.rx|..]);
      }
      socks := socks[sn := next.(seen := r.seen + [SightOf(next)])];
    }

    method Apply(sn: nat, c: Command)
      requires Valid() && sn < SOCK_NUM
      modifies this`socks
      ensures Valid() && socks == old(socks)[sn := AfterCommand(old(socks[sn]), c)]
    {
      socks := socks[sn := AfterCommand(socks[sn], c)];
    }

    method ClearIr(sn: nat, bits: byte)
      requires Valid() && sn < SOCK_NUM
      modifies this`socks
      ensures Valid() && socks == old(socks)[sn := AfterClear(old(socks[sn]), bits)]
    {
      socks := socks[sn := AfterClear(socks[sn], bits)];
    }

    method SetMode(sn: nat, mr: byte)
      requires Valid() && sn < SOCK_NUM
      modifies this`socks
      ensures Valid() && socks == old(socks)[sn := old(socks[sn]).(mr := mr)]
    {
      socks := socks[sn := socks[sn].(mr := mr)];
    }

    method SetPort(sn: nat, port: u16)
      requires Valid() && sn < SOCK_NUM
      modifies this`socks
      ensures Valid() && socks == old(socks)[sn := old(socks[sn]).(port := port)]
    {
      socks := socks[sn := socks[sn].(port := port)];
    }

    /** wiz_send_data: what is written must fit the free transmit space. */
    method SendData(sn: nat, data: bytes)
      requires Valid() && sn < SOCK_NUM
      requires |data| <= socks[sn].txFree
      modifies this`socks
      ensures Valid()
      ensures socks == old(socks)[sn := old(socks[sn]).(txFree := old(socks[sn]).txFree - |data|,
                                                        sent := old(socks[sn]).sent + data)]
    {
      var r := socks[sn];
      socks := socks[sn := r.(txFree := r.txFree - |data|, sent := r.sent + data)];
    }

    /** wiz_recv_data: bytes off the receive queue; past its end the buffer holds anything. */
    method RecvData(sn: nat, n: u16) returns (data: bytes)
      requires Valid() && sn < SOCK_NUM
      modifies this`socks
      ensures Valid() && |data| == n
      ensures var r := old(socks[sn]);
              && data[..Min(n, |r.rx|)] == r.rx[..Min(n, |r.rx|)]
              && socks == old(socks)[sn := r.(rx := r.rx[Min(n, |r.rx|)..], taken := r.taken + data, reading := true)]
    {
      var r := socks[sn];
      var k := Min(n, |r.rx|);
      var stale: bytes := *;
      if |stale| != n - k {
        stale := Zeros(n - k);
      }
      data := r.rx[..k] + stale;
      socks := socks[sn := r.(rx := r.rx[k..], taken := r.taken + data, reading := true)];
    }
  }
}
