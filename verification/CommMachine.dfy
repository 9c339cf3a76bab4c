/**
 The whole machine: comm_handler's step over the UDP server, the TCP client, the frame parser, the
 packet queue and the file reassembly, on a chip whose sockets change status at any moment. What goes
 over the two sockets is accounted for: every request comes from a slice received, every connection
 from a request, every packet from the bytes received, and everything sent back from a packet.
 */
module CommMachine {
  import opened Bytes
  import opened PacketCodec
  import opened TcpPacket
  import opened Chip
  import opened SocketBits
  import opened SocketDriver
  import opened Datagrams
  import opened Receiver
  import opened BigFileReceiver
  import opened WizAppl
  import opened PacketLog
  import opened UdpRequests
  import opened Rounds
  import BigFile
  import Framing
  import EndToEnd
  import Resync
  import Transfer
  import UdpCommand

  const SOCKET_NO_TCP_8K := 0
  const SOCKET_NO_UDP := 1
  class CommHandler {
    const driver: Driver
    const receiver: PacketReceiver
    const files: FileReceiver
    const algos: Algos
    var operation: Operation
    var host: Host
    var packetList: seq<PacketRec>
    ghost var verified: seq<Host>
    ghost var attempts: seq<Attempt>
    ghost var handled: seq<Handled>

    ghost predicate Valid()
      reads this`operation, this`host, this`verified, this`attempts, this`handled
      reads driver, driver.chip, receiver, receiver.Footprint(), files, files.Footprint()
    {
      DriverOk() && ConnectionOk(Conn(), Seen()) && ParserOk() && LogOk(Seen(), [])
    }

    /** The traffic on the two sockets so far. */
    ghost function Seen(): Traffic
      requires driver.chip.Valid() && |driver.calls| == SOCK_NUM
      reads driver, driver.chip
    {
      var r, c := driver.chip.socks[SOCKET_NO_TCP_8K], driver.calls;
      Traffic(r.dialed, c[SOCKET_NO_TCP_8K].connects, r.taken, r.sent, c[SOCKET_NO_TCP_8K].sends, c[SOCKET_NO_UDP].slices)
    }

    ghost function Tcp(): Side
      requires driver.chip.Valid() && |driver.calls| == SOCK_NUM
      reads driver, driver.chip
    {
      Side(driver.chip.socks[SOCKET_NO_TCP_8K], driver.calls[SOCKET_NO_TCP_8K])
    }

    ghost function Udp(): Side
      requires driver.chip.Valid() && |driver.calls| == SOCK_NUM
      reads driver, driver.chip
    {
      Side(driver.chip.socks[SOCKET_NO_UDP], driver.calls[SOCKET_NO_UDP])
    }

    ghost function Now(): Moment
      requires driver.chip.Valid() && |driver.calls| == SOCK_NUM
      reads this`operation, this`host, this`verified, this`attempts, driver, driver.chip
    {
      Moment(Conn(), driver.chip.sipr, Udp(), Tcp())
    }

    /** The server's socket is as it was, and so is the board's address. */
    twostate predicate UdpKept()
      requires old(driver.chip.Valid() && |driver.calls| == SOCK_NUM) && driver.chip.Valid() && |driver.calls| == SOCK_NUM
      reads driver, driver.chip
    {
      Udp() == old(Udp()) && driver.chip.sipr == old(driver.chip.sipr)
    }

    twostate predicate TcpKept()
      requires old(driver.chip.Valid() && |driver.calls| == SOCK_NUM) && driver.chip.Valid() && |driver.calls| == SOCK_NUM
      reads driver, driver.chip
    {
      Tcp() == old(Tcp()) && driver.chip.sipr == old(driver.chip.sipr)
    }

    /** The driver's part of the state. */
    ghost predicate DriverOk()
      reads driver, driver.chip
    {
      driver.Valid() && ModesOk()
    }

    /** Both sockets are in non-blocking mode whenever they are not closed, the client's in TCP and the
        server's in UDP. */
    ghost predicate ModesOk()
      requires driver.Valid()
      reads driver, driver.chip
    {
      && (driver.chip.socks[SOCKET_NO_TCP_8K].sr != SOCK_CLOSED ==>
            driver.View(SOCKET_NO_TCP_8K).nonblock && Protocol(driver.chip.socks[SOCKET_NO_TCP_8K].mr) == MR_TCP)
      && (driver.chip.socks[SOCKET_NO_UDP].sr != SOCK_CLOSED ==>
            driver.View(SOCKET_NO_UDP).nonblock && UdpMode(driver.chip.socks[SOCKET_NO_UDP].mr))
    }

    /** The parser's statics are in order, in memory of its own, and with the packets handed out they
        are what the whole-stream parser makes of everything received. */
    ghost predicate ParserOk()
      reads receiver, receiver.Footprint(), files
    {
      receiver.Valid() && receiver.Consistent() && Apart() && receiver.edition == files.edition
    }

    /** The reassembly region and the parser's buffers are different memory. */
    ghost predicate Apart()
      reads receiver, files
    {
      files.big != null ==> files.big.contents !in receiver.Footprint()
    }

    ghost function Conn(): Connection
      reads this`operation, this`host, this`verified, this`attempts
    {
      Connection(operation, host, verified, attempts)
    }

    /** Everything received and sent on the TCP socket is accounted for, but for these packets. */
    ghost predicate LogOk(t: Traffic, queue: seq<Packet>)
      reads this`handled, receiver`read, receiver`emitted, files, files.Footprint()
    {
      Accounted(algos, files.edition, t, receiver.read, receiver.emitted, queue, handled, files.State())
    }

    constructor (d: Driver, e: Framing.Edition, a: Algos)
      requires d.Valid() && forall i :: 0 <= i < SOCK_NUM ==> d.chip.socks[i].sr == SOCK_CLOSED
      requires var r := d.chip.socks[SOCKET_NO_TCP_8K]; r.dialed == [] && r.taken == [] && r.sent == []
      requires var c := d.calls[SOCKET_NO_TCP_8K]; c.connects == [] && c.sends == []
      requires d.calls[SOCKET_NO_UDP].slices == []
      ensures Valid() && driver == d && algos == a
      ensures operation == Dhcp && packetList == [] && verified == [] && attempts == [] && handled == []
      ensures fresh(receiver) && fresh(receiver.header) && fresh(files)
    {
      hide SocketOk, Take, Framing.Parse;
      driver := d;
      algos := a;
      receiver := new PacketReceiver(e);
      files := new FileReceiver(e);
      operation := Dhcp;
      host := Host([0, 0, 0, 0], 0);
      packetList := [];
      verified, attempts, handled := [], [], [];
    }

    // -------------------------------------------------------------------------------------
    // On the sockets.

    /** getSn_SR on one of the two sockets. */
    method AskStatus(sn: nat) returns (state: byte)
      requires DriverOk() && sn in {SOCKET_NO_TCP_8K, SOCKET_NO_UDP}
      modifies driver`calls, driver.chip`socks
      ensures DriverOk() && Seen() == old(Seen())
      ensures if sn == SOCKET_NO_UDP then TcpKept() && StatusAsked(old(Udp()), Udp()) && state == Udp().regs.sr
              else UdpKept() && StatusAsked(old(Tcp()), Tcp()) && state == Tcp().regs.sr
    {
      hide SocketOk, StreamKept;
      state := driver.ReadStatus(sn);
    }

    method OpenUdp()
      requires DriverOk() && Udp().regs.sr == SOCK_CLOSED
      modifies driver, driver.chip`socks
      ensures DriverOk() && Seen() == old(Seen()) && TcpKept() && Udp().log == old(Udp().log)
      ensures JustOpened(old(Udp().regs), Udp().regs, MR_UDP, SOCK_IO_NONBLOCK, UDP_SERVER_PORT)
    {
      hide SocketOk;
      var _ := driver.Socket(SOCKET_NO_UDP, MR_UDP, UDP_SERVER_PORT, SOCK_IO_NONBLOCK);
    }

    /** One recvfrom into a local buffer: a slice, or nothing when there is none. The sender's address
        is the datagram's for its first slice; for another it is whatever was in memory. */
    method ReceiveDatagram(patience: nat) returns (dgram: bytes, sender: bytes, ghost slices: seq<Slice>)
      requires DriverOk() && Udp().regs.sr != SOCK_CLOSED && patience > 0
      modifies driver, driver.chip`socks
      ensures DriverOk() && Seen() == old(Seen()).(slices := old(Seen()).slices + slices) && TcpKept()
      ensures |slices| <= 1 && |sender| == 4
      ensures if slices == [] then dgram == []
              else dgram == slices[0].data && (slices[0].first ==> sender == slices[0].addr)
      ensures Udp().log == old(Udp().log).(slices := old(Udp().log).slices + slices)
      ensures slices == [] ==> ShownClosed(old(Udp().regs), Udp().regs) || old(Udp().regs).rx == []
    {
      hide SocketOk, Take, Framed, WholeRecords;
      var buf := new byte[MAX_EW_DGRAM + 1];
      var ip := new byte[4];
      var port := new u16[1];
      ghost var before := driver.calls[SOCKET_NO_UDP].slices;
      var done, ret, took, arrived := driver.RecvFrom(SOCKET_NO_UDP, buf, MAX_EW_DGRAM, ip, port, patience);
      assert done;
      slices := driver.calls[SOCKET_NO_UDP].slices[|before|..];
      dgram, sender := if ret > 0 then buf[..ret] else [], ip[..];
    }

    /** The TCP client's socket opened again on a random port; false without an address. */
    method ReopenSocket() returns (addressed: bool)
      requires DriverOk()
      modifies driver, driver.chip`socks
      ensures DriverOk() && Seen() == old(Seen()) && UdpKept() && Tcp().log == old(Tcp().log)
      ensures addressed <==> driver.chip.sipr != 0
      ensures if addressed
              then JustOpened(old(Tcp().regs), Tcp().regs, MR_TCP, SOCK_IO_NONBLOCK, Tcp().regs.port)
                   && 2000 <= Tcp().regs.port < 32000
              else Tcp().regs.sr == SOCK_CLOSED && Tcp().regs.dialed == old(Tcp().regs.dialed)
    {
      hide SocketOk;
      var _ := driver.CloseSocket(SOCKET_NO_TCP_8K);
      var random: nat := *;
      var ret := driver.Socket(SOCKET_NO_TCP_8K, MR_TCP, random % 30000 + 2000, SOCK_IO_NONBLOCK);
      return ret != SOCKERR_SOCKINIT;
    }

    /** connect to the stored host. */
    method Dial(patience: nat) returns (ghost answer: int)
      requires DriverOk() && |host.ip| == 4 && Tcp().regs.sr != SOCK_CLOSED
      modifies driver`calls, driver.chip`socks
      ensures DriverOk() && UdpKept()
      ensures Seen() == old(Seen()).(dialed := old(Seen()).dialed + if Dials(true, answer) then [host] else [],
                                     connects := old(Seen()).connects + [answer])
      ensures Tcp().log == old(Tcp().log).(connects := old(Tcp().log).connects + [answer])
      ensures SameStreams(old(Tcp().regs), Tcp().regs) && StreamKept(old(Tcp().regs), Tcp().regs)
      ensures ConnectAnswer(answer, host.ip, host.port, true, old(Tcp().regs), Tcp().regs)
    {
      hide SocketOk, StreamKept, ConnectAnswer;
      var done, ret := driver.ConnectTo(SOCKET_NO_TCP_8K, host.ip, host.port, patience);
      answer := ret;
    }

    method HangUp(patience: nat)
      requires DriverOk() && Tcp().regs.sr != SOCK_CLOSED
      modifies driver, driver.chip`socks
      ensures DriverOk() && Seen() == old(Seen()) && UdpKept() && HungUp(old(Tcp()), Tcp())
    {
      hide SocketOk, StreamKept;
      var done, _ := driver.Disconnect(SOCKET_NO_TCP_8K, patience);
      assert done;
    }

    /** A packet sent on the TCP socket, or the front of it. */
    method SendPacket(p: PacketRec, patience: nat) returns (done: bool, ghost sent: bytes, ghost answers: seq<int>)
      requires DriverOk() && p.Valid()
      modifies driver, driver.chip
      ensures DriverOk() && sent <= Wire(p.View())
      ensures done && Errors(answers) == 0 ==> sent == Wire(p.View())
      ensures Seen() == old(Seen()).(sent := old(Seen()).sent + sent, sends := old(Seen()).sends + answers)
      ensures UdpKept() && RepliesSent(old(Tcp()), Tcp())
      ensures !done && patience > 0 ==> |answers| >= patience
    {
      hide SocketOk, StreamKept;
      ghost var n;
      var ret: int;
      done, ret, n, answers := SendTcpPacket(driver, SOCKET_NO_TCP_8K, p, patience);
      sent := Wire(p.View())[..n];
    }

    // -------------------------------------------------------------------------------------
    // The UDP server.

    /** comm_udp_server: a connect request stores its sender and port. If bytes were waiting and the
        socket is still open for them, a slice has been received; a closed socket is opened. */
    method UdpServer(patience: nat)
      requires DriverOk() && ConnectionOk(Conn(), Seen()) && patience > 0
      modifies this`host, this`operation, this`verified, driver, driver.chip`socks
      ensures DriverOk() && ConnectionOk(Conn(), Seen()) && TcpKept()
      ensures Seen() == old(Seen()).(slices := Seen().slices)
      ensures UdpTurn(old(Conn()), old(Udp()), Conn(), Udp())
    {
      hide ConnectionOk, Evolves, SocketOk, UdpServed;
      ghost var c, s := Conn(), Udp();
      var state := AskStatus(SOCKET_NO_UDP);
      ghost var asked := Udp();
      ServeUdp(state, patience);
      assert StatusAsked(s, asked) && UdpServed(c, asked, Conn(), Udp());
    }

    /** What it does in each state of its socket. */
    method ServeUdp(state: byte, patience: nat)
      requires DriverOk() && ConnectionOk(Conn(), Seen()) && patience > 0 && state == Udp().regs.sr
      modifies this`host, this`operation, this`verified, driver, driver.chip`socks
      ensures DriverOk() && ConnectionOk(Conn(), Seen()) && TcpKept()
      ensures Seen() == old(Seen()).(slices := Seen().slices)
      ensures UdpServed(old(Conn()), old(Udp()), Conn(), Udp())
    {
      hide ConnectionOk, SocketOk, SliceReceived, AfterSlice, JustOpened;
      ghost var c, t, s := Conn(), Seen(), Udp();
      if state == SOCK_CLOSED {
        OpenUdp();
      } else if state == SOCK_UDP {
        var dgram, sender;
        ghost var slices;
        dgram, sender, slices := ReceiveDatagram(patience);
        if |dgram| > 0 {
          HandleDatagram(dgram, sender);
        }
        SlicesKeepOk(c, t, slices, dgram, sender);
        SliceIsReceived(c, s, slices, dgram, sender, Udp());
      }
    }

    /** What comm_udp_server does with a slice, as far as the connection state is concerned. */
    method HandleDatagram(dgram: bytes, sender: bytes)
      modifies this`host, this`operation, this`verified
      ensures Conn() == AfterSlice(old(Conn()), dgram, sender)
    {
      var port := UdpCommand.ConnectPort(dgram);
      if port.Some? {
        host := Host(sender, port.value);
        operation := ConnectHost;
        verified := verified + [host];
      }
    }

    // -------------------------------------------------------------------------------------
    // The TCP client.

    /** The TCP client's socket when it is closed: drop the queue and open it again; without an address
        of its own the board goes back to DHCP. */
    method ReopenTcp()
      requires DriverOk() && ConnectionOk(Conn(), Seen())
      modifies this`operation, this`packetList, driver, driver.chip`socks
      ensures DriverOk() && ConnectionOk(Conn(), Seen()) && Seen() == old(Seen()) && packetList == [] && UdpKept()
      ensures Reopened(old(Conn()), driver.chip.sipr, old(Tcp()), Conn(), Tcp())
    {
      hide ConnectionOk, SocketOk, JustOpened;
      ghost var c, t := Conn(), Seen();
      packetList := [];
      var addressed := ReopenSocket();
      OtherTrafficKeepsOk(c, t, Seen());
      if !addressed {
        operation := Dhcp;
      }
    }

    /** The TCP client's socket when it is ready: use up a pending request. */
    method TryConnect(patience: nat)
      requires DriverOk() && ConnectionOk(Conn(), Seen()) && Tcp().regs.sr != SOCK_CLOSED
      modifies this`operation, this`attempts, driver`calls, driver.chip`socks
      ensures DriverOk() && ConnectionOk(Conn(), Seen()) && UdpKept()
      ensures Seen() == old(Seen()).(dialed := Seen().dialed, connects := Seen().connects)
      ensures Tried(old(Conn()), old(Tcp()), Conn(), Tcp())
    {
      hide Dials, ConnectAnswer, SocketOk, ConnectionOk, StreamKept;
      if operation == ConnectHost {
        ghost var c, t := Conn(), Seen();
        HostHasAddress(c, t);
        ghost var answer := Dial(patience);
        NoteAttempt(answer);
        AttemptKeepsOk(c, t, answer);
      }
    }

    /** The request is used up. */
    method NoteAttempt(ghost answer: int)
      modifies this`operation, this`attempts
      ensures Conn() == AfterAttempt(old(Conn()), answer)
    {
      attempts := attempts + [Attempt(host, |verified|, answer)];
      operation := Wait;
    }

    /** The client's states other than established: hang up, reopen, or connect. */
    method ServiceSocket(state: byte, patience: nat)
      requires DriverOk() && ConnectionOk(Conn(), Seen()) && packetList == [] && patience > 0
      requires state == Tcp().regs.sr != SOCK_ESTABLISHED
      modifies this`operation, this`attempts, this`packetList, driver, driver.chip`socks
      ensures DriverOk() && ConnectionOk(Conn(), Seen()) && packetList == [] && UdpKept()
      ensures Seen() == old(Seen()).(dialed := Seen().dialed, connects := Seen().connects)
      ensures TcpServed(old(Conn()), driver.chip.sipr, old(Tcp()), Conn(), Tcp())
    {
      hide ConnectionOk, SocketOk, Reopened, Tried;
      ghost var c, t := Conn(), Seen();
      if state == SOCK_CLOSE_WAIT {
        HangUp(patience);
        OtherTrafficKeepsOk(c, t, Seen());
      } else if state == SOCK_CLOSED {
        ReopenTcp();
      } else if state == SOCK_INIT {
        TryConnect(patience);
      }
    }

    /** One call of the frame parser, which never blocks on the client's socket and delivers bytes
        whenever there are any. */
    method ReceiveOne(patience: nat) returns (p: PacketRec?)
      requires DriverOk() && ParserOk() && !receiver.undefined && patience > 0 && Tcp().regs.sr != SOCK_CLOSED
      modifies driver, driver.chip, receiver.Footprint()
      ensures DriverOk() && ParserOk() && receiver.Owned() && UdpKept()
      ensures p != null ==> p.Valid() && receiver.read != old(receiver.read)
      ensures receiver.emitted == old(receiver.emitted) + if p == null then [] else [p.View()]
      ensures old(receiver.read) <= receiver.read
      ensures Seen() == old(Seen()).(taken := old(Seen()).taken + receiver.read[|old(receiver.read)|..])
      ensures BytesReceived(old(Tcp()), Tcp())
    {
      hide SocketOk, StreamKept, Framing.Agrees;
      var done: bool;
      ghost var slice;
      done, p, slice := receiver.RecvTcpPacket(driver, SOCKET_NO_TCP_8K, patience);
      assert done;
      assert receiver.read[|old(receiver.read)|..] == slice;
    }

    // -------------------------------------------------------------------------------------
    // Packets.

    /** Extraction of a packet's contents into fresh memory. */
    method Extracted(p: PacketRec) returns (body: bytes)
      requires p.Valid() && Sound(algos)
      ensures |body| < 0x1_0000 && body == if SizesAgree(p.View()) then Contents(algos, p.View()) else []
    {
      body := if SizesAgree(p.View()) then Contents(algos, p.View()) else [];
    }

    /** What tcp_packet3_processor sends back: the plain form of an encrypted packet, and a command
        line as it came; each may break off where the connection does. */
    method Echo(p: PacketRec, body: bytes, patience: nat)
        returns (done: bool, ghost plain: bytes, ghost back: bytes, ghost answers: seq<int>)
      requires DriverOk() && p.Valid() && Sound(algos)
      requires Encrypted(p.flag) && p.dataSize > 0 ==> SizesAgree(p.View()) && body == Contents(algos, p.View())
      modifies driver, driver.chip
      ensures DriverOk()
      ensures plain <= PlainReply(algos, p.View()) && back <= BackReply(p.View())
      ensures done && Errors(answers) == 0 ==> plain == PlainReply(algos, p.View()) && back == BackReply(p.View())
      ensures Seen() == old(Seen()).(sent := old(Seen()).sent + plain + back, sends := old(Seen()).sends + answers)
      ensures UdpKept() && RepliesSent(old(Tcp()), Tcp())
      ensures !done && patience > 0 ==> |answers| >= patience
    {
      hide SocketOk, RepliesSent, PlainReply;
      ghost var s := Tcp();
      back := [];
      done, plain, answers := EchoPlain(p, body, patience);
      ghost var s1 := Tcp();
      if !done {
        return;
      }
      if p.kind == TYPE_CMDLINE {
        ghost var more;
        done, back, more := SendPacket(p, patience);
        RepliesFollow(s, s1, Tcp());
        AnswersTogether(answers, more);
        assert old(Seen()).sends + answers + more == old(Seen()).sends + (answers + more);
        answers := answers + more;
      }
    }

    method EchoPlain(p: PacketRec, body: bytes, patience: nat)
        returns (done: bool, ghost plain: bytes, ghost answers: seq<int>)
      requires DriverOk() && p.Valid() && Sound(algos)
      requires Encrypted(p.flag) && p.dataSize > 0 ==> SizesAgree(p.View()) && body == Contents(algos, p.View())
      modifies driver, driver.chip
      ensures DriverOk() && plain <= PlainReply(algos, p.View())
      ensures done && Errors(answers) == 0 ==> plain == PlainReply(algos, p.View())
      ensures Seen() == old(Seen()).(sent := old(Seen()).sent + plain, sends := old(Seen()).sends + answers)
      ensures UdpKept() && RepliesSent(old(Tcp()), Tcp())
      ensures !done && patience > 0 ==> |answers| >= patience
    {
      hide SocketOk, DataField, CoveredPart, MakeHeader;
      NoReplies(Tcp());
      done, plain, answers := true, [], [];
      if Encrypted(p.flag) && p.dataSize > 0 {
        var reply := CreateTcpPacket(algos, 0, 0, body);
        if reply != null {
          done, plain, answers := SendPacket(reply, patience);
        }
      }
    }

    /** tcp_packet3_processor on a packet taken off the queue: what it sends back and what it tells the
        reassembly. Whether its checksum is right is printed, and decides nothing. The machine cannot go
        on after a reply that never gets through, after a packet for which the source reads memory it
        never wrote, or when the reassembly leaves the C semantics. */
    method ProcessPacket(p: PacketRec, patience: nat) returns (more: bool, ghost h: Handled)
      requires DriverOk() && p.Valid() && Sound(algos)
      modifies driver, driver.chip, files.Footprint()
      ensures DriverOk() && files.Owned() && UdpKept() && RepliesSent(old(Tcp()), Tcp())
      ensures h.packet == old(p.View()) && HandledOk(algos, h) && (more <==> Going(h))
      ensures Seen() == old(Seen()).(sent := old(Seen()).sent + h.plain + h.back, sends := old(Seen()).sends + h.answers)
      ensures files.State() == After(files.edition, old(files.State()), h) && Replied(files.edition, old(files.State()), h)
      ensures !more && patience > 0 ==> Stops(h, old(files.big) != null, patience)
      ensures Faults(h.packet, old(files.big) != null) ==> !more
    {
      hide SocketOk, RepliesSent, PlainReply, BackReply, PrefixSize, Encrypted;
      ghost var view := p.View();
      var faulty, feeds := Faults(p.View(), files.big != null), IsBigFile(p.View());
      if Extracts(p.View(), files.big != null) && !SizesAgree(p.View()) {
        NoReplies(Tcp());
        return false, Handled(view, [], [], [], None, false);
      }
      var kind := p.kind;
      var body := Extracted(p);
      ghost var plain, back, answers;
      more, plain, back, answers := Answer(p, body, patience);
      more := more && !faulty;
      h := Handled(view, plain, back, answers, None, more);
      if !more || !feeds {
        return;
      }
      ghost var fed;
      more, fed := FeedFiles(kind, body);
      h := h.(fed := Some(fed));
    }

    /** The replies, which leave the reassembly alone. */
    method Answer(p: PacketRec, body: bytes, patience: nat)
        returns (done: bool, ghost plain: bytes, ghost back: bytes, ghost answers: seq<int>)
      requires DriverOk() && p.Valid() && Sound(algos)
      requires Encrypted(p.flag) && p.dataSize > 0 ==> SizesAgree(p.View()) && body == Contents(algos, p.View())
      modifies driver, driver.chip
      ensures DriverOk() && files.State() == old(files.State()) && files.big == old(files.big)
      ensures plain <= PlainReply(algos, p.View()) && back <= BackReply(p.View())
      ensures done && Errors(answers) == 0 ==> plain == PlainReply(algos, p.View()) && back == BackReply(p.View())
      ensures !done && patience > 0 ==> |answers| >= patience
      ensures Seen() == old(Seen()).(sent := old(Seen()).sent + plain + back, sends := old(Seen()).sends + answers)
      ensures UdpKept() && RepliesSent(old(Tcp()), Tcp())
    {
      hide SocketOk, RepliesSent;
      NoReplies(Tcp());
      if !(Encrypted(p.flag) && p.dataSize > 0) && p.kind != TYPE_CMDLINE {
        return true, [], [], [];
      }
      done, plain, back, answers := Echo(p, body, patience);
    }

    /** The reassembly of a message, whatever lies behind it in memory and whether or not there is
        heap for it. */
    method FeedFiles(kind: byte, body: bytes) returns (more: bool, ghost fed: Fed)
      requires DriverOk() && |body| < 0x1_0000
      modifies files.Footprint()
      ensures DriverOk() && Seen() == old(Seen()) && Tcp() == old(Tcp()) && UdpKept() && files.Owned()
      ensures fed.msg.kind == kind && fed.msg.body == body && BigFile.TakesAll(fed.want)
      ensures more <==> !fed.reply.Undefined?
      ensures (files.State(), fed.reply) ==
              BigFile.Step(files.edition, old(files.State()), BigFile.Receive(BigFile.Read(fed.msg), fed.want))
    {
      var past: bytes, heap: seq<bool> := *, *;
      if |heap| < 4 {
        heap := [true, true, true, true];
      }
      var msg := BigFile.Message(kind, body, past, heap[0], heap[1]);
      var want := BigFile.Want(true, true, true, heap[2], heap[3]);
      var reply := files.ReceivePacket(msg, want);
      more, fed := !reply.Undefined?, Fed(msg, want, reply);
    }

    // -------------------------------------------------------------------------------------
    // The step.

    /** The connection's state has not changed. */
    twostate predicate ConnectionKept()
      reads this`operation, this`host, this`verified, this`attempts
    {
      Conn() == old(Conn())
    }

    /** The objects of the parser and of the reassembly are those there were, or new. */
    twostate predicate Owned()
      reads receiver, files
    {
      receiver.Owned() && files.Owned()
    }

    twostate lemma ParserUntouched()
      requires old(receiver.Valid()) && old(receiver.Consistent()) && unchanged(old(receiver.Footprint()))
      ensures receiver.Valid() && receiver.Consistent() && receiver.Footprint() == old(receiver.Footprint())
      ensures receiver.read == old(receiver.read) && receiver.emitted == old(receiver.emitted)
      ensures receiver.packet == old(receiver.packet)
    {
    }

    /** The server's part of a round. */
    method UdpPhase(patience: nat)
      requires Valid() && patience > 0
      modifies this`host, this`operation, this`verified, driver, driver.chip`socks
      ensures Valid() && TcpKept() && UdpTurn(old(Conn()), old(Udp()), Conn(), Udp())
      ensures receiver.packet == old(receiver.packet) && files.big == old(files.big)
      ensures handled == old(handled)
    {
      hide Accounted, Framing.Agrees, ConnectionOk, UdpTurn, SocketOk;
      ghost var t := Seen();
      UdpServer(patience);
      ParserUntouched();
      OtherTraffic(algos, files.edition, t, receiver.read, receiver.emitted, handled, files.State(), Seen());
    }

    method TcpState() returns (state: byte)
      requires Valid()
      modifies driver`calls, driver.chip`socks
      ensures Valid() && state == Tcp().regs.sr && UdpKept() && StatusAsked(old(Tcp()), Tcp())
      ensures ConnectionKept() && handled == old(handled) && packetList == old(packetList)
      ensures receiver.packet == old(receiver.packet) && files.big == old(files.big)
    {
      hide Accounted, Framing.Agrees, ConnectionOk, SocketOk, Evolves;
      state := AskStatus(SOCKET_NO_TCP_8K);
      ParserUntouched();
    }

    /** The state with a packet in the queue. */
    ghost predicate Holding(p: Packet)
      reads this`operation, this`host, this`verified, this`attempts, this`handled
      reads driver, driver.chip, receiver, receiver.Footprint(), files, files.Footprint()
    {
      DriverOk() && ConnectionOk(Conn(), Seen()) && ParserOk() && LogOk(Seen(), [p])
    }

    /** The client's part of a round when its socket is established. A packet received is the only one
        in the queue. */
    method ReceiveIntoQueue(patience: nat) returns (received: bool)
      requires Valid() && !receiver.undefined && packetList == [] && patience > 0 && Tcp().regs.sr != SOCK_CLOSED
      modifies this`packetList, driver, driver.chip, receiver.Footprint()
      ensures if received then |packetList| == 1 && packetList[0].Valid() && Holding(packetList[0].View())
              else packetList == [] && Valid()
      ensures BytesReceived(old(Tcp()), Tcp()) && UdpKept()
      ensures received ==> Tcp().regs.taken != old(Tcp()).regs.taken
      ensures ConnectionKept() && handled == old(handled) && receiver.Owned() && files.big == old(files.big)
    {
      hide Accounted, Framing.Agrees, ConnectionOk, BytesReceived, SocketOk;
      var p := ReceiveValid(patience);
      if p == null {
        return false;
      }
      Enqueue(p);
      return true;
    }

    method ReceiveValid(patience: nat) returns (p: PacketRec?)
      requires Valid() && !receiver.undefined && patience > 0 && Tcp().regs.sr != SOCK_CLOSED
      modifies driver, driver.chip, receiver.Footprint()
      ensures if p == null then Valid() else p.Valid() && Holding(p.View())
      ensures BytesReceived(old(Tcp()), Tcp()) && UdpKept()
      ensures p != null ==> Tcp().regs.taken != old(Tcp()).regs.taken
      ensures ConnectionKept() && handled == old(handled) && receiver.Owned() && files.big == old(files.big)
    {
      hide Accounted, Framing.Agrees, ConnectionOk, BytesReceived, SocketOk;
      ghost var t, read, emitted := Seen(), receiver.read, receiver.emitted;
      p := ReceiveOne(patience);
      MoreReceived(algos, files.edition, t, read, emitted, receiver.read[|read|..],
                   if p == null then [] else [p.View()], handled, files.State());
      assert read + receiver.read[|read|..] == receiver.read;
      OtherTrafficKeepsOk(Conn(), t, Seen());
    }

    method Enqueue(p: PacketRec)
      requires p.Valid() && Holding(p.View()) && packetList == []
      modifies this`packetList
      ensures p.Valid() && Holding(p.View()) && packetList == [p]
    {
      hide Accounted, Framing.Agrees, ConnectionOk;
      packetList := packetList + [p];
    }

    /** The client's part of a round in the other states. */
    method ServiceTcp(state: byte, patience: nat)
      requires Valid() && packetList == [] && patience > 0
      requires state == Tcp().regs.sr != SOCK_ESTABLISHED
      modifies this`operation, this`attempts, this`packetList, driver, driver.chip`socks
      ensures Valid() && packetList == [] && handled == old(handled) && UdpKept()
      ensures receiver.packet == old(receiver.packet) && files.big == old(files.big)
      ensures TcpServed(old(Conn()), driver.chip.sipr, old(Tcp()), Conn(), Tcp())
    {
      hide Accounted, Framing.Agrees, ConnectionOk, TcpServed, SocketOk;
      ghost var t := Seen();
      ServiceSocket(state, patience);
      ParserUntouched();
      OtherTraffic(algos, files.edition, t, receiver.read, receiver.emitted, handled, files.State(), Seen());
    }

    /** comm_tcp_client: `asked` is the socket when its status has been read. */
    method TcpClient(patience: nat) returns (received: bool, ghost asked: Side)
      requires Valid() && !receiver.undefined && packetList == [] && patience > 0
      modifies this`operation, this`attempts, this`packetList, driver, driver.chip, receiver.Footprint()
      ensures if received then |packetList| == 1 && packetList[0].Valid() && Holding(packetList[0].View())
              else packetList == [] && Valid()
      ensures receiver.Owned() && files.big == old(files.big) && handled == old(handled) && UdpKept()
      ensures StatusAsked(old(Tcp()), asked) && TcpServed(old(Conn()), driver.chip.sipr, asked, Conn(), Tcp())
      ensures received ==> asked.regs.sr == SOCK_ESTABLISHED && Tcp().regs.taken != asked.regs.taken
    {
      hide Accounted, Framing.Agrees, ConnectionOk, BytesReceived, SocketOk, StatusAsked, HungUp, Reopened, Tried;
      var state := TcpState();
      asked := Tcp();
      if state == SOCK_ESTABLISHED {
        received := ReceiveIntoQueue(patience);
        return;
      }
      ServiceTcp(state, patience);
      received := false;
    }

    /** comm_tcp_packet_handler: take the packet off the queue and process it. It gets its entry in the
        log. */
    method HandlePacket(patience: nat) returns (more: bool)
      requires |packetList| == 1 && packetList[0].Valid() && Holding(packetList[0].View())
      requires Sound(algos) && AllGoing(handled)
      modifies this`packetList, this`handled, driver, driver.chip, files.Footprint()
      ensures Valid() && packetList == [] && ConnectionKept()
      ensures receiver.packet == old(receiver.packet) && files.Owned()
      ensures |handled| == |old(handled)| + 1 && handled[..|old(handled)|] == old(handled)
      ensures more <==> AllGoing(handled)
      ensures UdpKept() && RepliesSent(old(Tcp()), Tcp())
      ensures !more && patience > 0 ==> Stops(handled[|handled| - 1], old(files.big) != null, patience)
    {
      hide Accounted, Framing.Agrees, ConnectionOk, RepliesSent, SocketOk, Stops;
      var p := Dequeue();
      more := Dispatch(p, patience);
    }

    method Dequeue() returns (p: PacketRec)
      requires |packetList| == 1 && packetList[0].Valid() && Holding(packetList[0].View())
      modifies this`packetList
      ensures p == old(packetList[0]) && packetList == [] && p.Valid() && Holding(p.View())
    {
      hide Accounted, Framing.Agrees, ConnectionOk;
      p := packetList[0];
      packetList := packetList[1..];
    }

    method Dispatch(p: PacketRec, patience: nat) returns (more: bool)
      requires p.Valid() && Holding(p.View()) && Sound(algos) && AllGoing(handled)
      modifies this`handled, driver, driver.chip, files.Footprint()
      ensures Valid() && packetList == old(packetList) && ConnectionKept()
      ensures receiver.packet == old(receiver.packet) && files.Owned()
      ensures |handled| == |old(handled)| + 1 && handled[..|old(handled)|] == old(handled)
      ensures more <==> AllGoing(handled)
      ensures UdpKept() && RepliesSent(old(Tcp()), Tcp())
      ensures !more && patience > 0 ==> Stops(handled[|handled| - 1], old(files.big) != null, patience)
    {
      hide Accounted, Framing.Agrees, ConnectionOk, HandledOk, After, Replied, AllGoing, Going, RepliesSent, SocketOk, Stops;
      ghost var h, t, state := *, Seen(), files.State();
      more, h := ProcessApart(p, patience);
      OneMoreHandled(algos, files.edition, t, receiver.read, receiver.emitted, handled, state, h, files.State());
      OtherTrafficKeepsOk(Conn(), t, Seen());
      WriteDown(h);
    }

    /** The entry for a packet, once it is true. */
    ghost method WriteDown(h: Handled)
      requires DriverOk() && ConnectionOk(Conn(), Seen()) && ParserOk()
      requires Accounted(algos, files.edition, Seen(), receiver.read, receiver.emitted, [], handled + [h], files.State())
      modifies this`handled
      ensures Valid() && handled == old(handled) + [h] && handled[..|old(handled)|] == old(handled)
    {
      hide Accounted, Framing.Agrees, ConnectionOk;
      handled := handled + [h];
    }

    /** The parser is not involved. */
    method ProcessApart(p: PacketRec, patience: nat) returns (more: bool, ghost h: Handled)
      requires DriverOk() && ParserOk() && p.Valid() && Sound(algos)
      modifies driver, driver.chip, files.Footprint()
      ensures DriverOk() && ParserOk() && files.Owned()
      ensures receiver.read == old(receiver.read) && receiver.emitted == old(receiver.emitted)
      ensures receiver.packet == old(receiver.packet) && Conn() == old(Conn())
      ensures h.packet == old(p.View()) && HandledOk(algos, h) && (more <==> Going(h))
      ensures Seen() == old(Seen()).(sent := old(Seen()).sent + h.plain + h.back, sends := old(Seen()).sends + h.answers)
      ensures files.State() == After(files.edition, old(files.State()), h) && Replied(files.edition, old(files.State()), h)
      ensures UdpKept() && RepliesSent(old(Tcp()), Tcp())
      ensures !more && patience > 0 ==> Stops(h, old(files.big) != null, patience)
    {
      hide Framing.Agrees, HandledOk, After, Replied, Going, RepliesSent, SocketOk, Faults, Stops;
      assert files.Footprint() !! receiver.Footprint();
      more, h := ProcessPacket(p, patience);
      ParserUntouched();
    }

    method TcpPhase(patience: nat) returns (more: bool)
      requires Valid() && Sound(algos) && !receiver.undefined && packetList == [] && AllGoing(handled) && patience > 0
      modifies this`operation, this`attempts, this`packetList, this`handled
      modifies driver, driver.chip, receiver.Footprint(), files.Footprint()
      ensures Valid() && packetList == [] && Owned() && UdpKept()
      ensures TcpTurn(old(Conn()), driver.chip.sipr, old(Tcp()), Conn(), Tcp())
      ensures old(handled) <= handled && |handled| <= |old(handled)| + 1
      ensures more <==> AllGoing(handled)
      ensures !more ==> |handled| > |old(handled)| && Stops(handled[|handled| - 1], old(files.big) != null, patience)
    {
      hide Accounted, Framing.Agrees, ConnectionOk, TcpServed, StatusAsked, RepliesSent, SocketOk, Stops;
      ghost var c := Conn();
      var received: bool;
      ghost var asked;
      received, asked := TcpClient(patience);
      more := true;
      if received {
        ghost var s := Tcp();
        more := HandlePacket(patience);
        ServedThenReplied(c, driver.chip.sipr, asked, Conn(), s, Tcp());
      }
      assert TcpServed(c, driver.chip.sipr, asked, Conn(), Tcp());
    }

    /** One step of comm_handler. Whatever the chip does meanwhile, it is a round; the queue is empty
        afterwards, at most one packet has been handled, and Valid() says what accounts for the traffic. */
    method Step(patience: nat) returns (more: bool)
      requires Valid() && Sound(algos) && !receiver.undefined && packetList == [] && AllGoing(handled) && patience > 0
      modifies this, driver, driver.chip, receiver.Footprint(), files.Footprint()
      ensures Valid() && packetList == [] && Owned()
      ensures RoundOk(old(Now()), Now())
      ensures old(handled) <= handled && |handled| <= |old(handled)| + 1
      ensures more <==> AllGoing(handled)
      ensures !more ==> |handled| > |old(handled)| && Stops(handled[|handled| - 1], old(files.big) != null, patience)
    {
      hide Accounted, Framing.Agrees, ConnectionOk, UdpTurn, TcpTurn, SocketOk, Stops;
      ghost var m := Now();
      if operation == Dhcp {
        LeaseAddress();
        return true;
      }
      UdpPhase(patience);
      ghost var c := Conn();
      more := TcpPhase(patience);
      assert UdpTurn(m.conn, m.udp, c, Udp()) && TcpTurn(c, m.sipr, m.tcp, Conn(), Tcp());
    }

    /** wiz_set_dhcp_ip: the board gets some address, or none. */
    method LeaseAddress()
      requires Valid()
      modifies this`operation, driver.chip`sipr
      ensures Valid() && Now() == old(Now()).(conn := old(Conn()).(operation := Wait), sipr := driver.chip.sipr)
      ensures receiver.packet == old(receiver.packet)
    {
      hide Accounted, Framing.Agrees, ConnectionOk, SocketOk;
      var ip: u32 := *;
      driver.chip.sipr := ip;
      OtherTrafficKeepsOk(Conn(), Seen(), Seen());
      operation := Wait;
      ParserUntouched();
    }

    /** The main loop: that many rounds one after the other, unless the machine cannot go on. `ms` are
        the moments before, between and after them. */
    method EventLoop(rounds: nat, patience: nat) returns (ghost ms: seq<Moment>)
      requires Valid() && Sound(algos) && packetList == [] && AllGoing(handled) && patience > 0
      modifies this, driver, driver.chip, receiver.Footprint(), files.Footprint()
      ensures Valid() && packetList == []
      ensures IsRun(ms) && ms[0] == old(Now()) && ms[|ms| - 1] == Now()
      ensures |ms| == rounds + 1 || receiver.undefined
              || (handled != [] && !AllGoing(handled) && Stops(handled[|handled| - 1], true, patience))
      ensures |ms| <= rounds + 1
      ensures |Seen().dialed| <= |Seen().connects| == |attempts| <= |Requests(Seen().slices)|
    {
      hide Accounted, Framing.Agrees, ConnectionOk, RoundOk, SocketOk, Stops, IsRun, Requests;
      ms := [Now()];
      RunStarts(Now());
      for round := 0 to rounds
        invariant Valid() && packetList == [] && Owned() && AllGoing(handled)
        invariant |ms| == round + 1 && IsRun(ms) && ms[0] == old(Now()) && ms[round] == Now()
      {
        if receiver.undefined {
          break;
        }
        ghost var open := files.big != null;
        var more := Step(patience);
        RunGoesOn(ms, Now());
        ms := ms + [Now()];
        if !more {
          StopsAtMost(handled[|handled| - 1], open, patience);
          break;
        }
      }
      ConnectionIsRequested(Conn(), Seen());
    }
  }

  /** Main result: whenever what the machine has taken off the connection ends with the packets of a
      whole transfer, behind whatever came before, a connection that broke off included, with garbage in
      front of each that keeps the parser in step, and there was memory for its messages, it has handled
      exactly these packets in this order, has accepted the messages of the transfer one after the other
      and delivered the name, the size and the contents, and has no transfer open. */
  lemma MachineDelivers(m: CommHandler, before: bytes, o: Transfer.Outgoing, flags: seq<int>, noise: seq<bytes>)
    requires m.Valid() && !m.receiver.undefined && AllGoing(m.handled) && Sound(m.algos)
    requires EndToEnd.Sendable(o) && |flags| == |o.frags| + 2
    requires Resync.Follow(Framing.Parse(before).rest, noise, EndToEnd.Packets(m.algos, flags, EndToEnd.Parts(o)))
    requires m.driver.chip.socks[SOCKET_NO_TCP_8K].taken ==
             before + Resync.Noisy(noise, EndToEnd.Packets(m.algos, flags, EndToEnd.Parts(o)))
    requires EnoughHeap(Last(m.handled, |o.frags| + 2))
    ensures PacketsOf(m.handled) ==
            Framing.Parse(before).packets + Resync.Completed(Framing.Parse(before).rest, noise[0])
            + EndToEnd.Packets(m.algos, flags, EndToEnd.Parts(o))
    ensures Replies(Last(m.handled, |o.frags| + 2)) ==
            Transfer.Repeat(BigFile.Receiving, |o.frags| + 1) + [Transfer.TheFile(o)]
    ensures m.files.big == null
  {
    hide Accounted, Framing.Agrees, ConnectionOk, Framing.Parse, Resync.Noisy;
    TransferIsDelivered(m.algos, m.files.edition, m.Seen(), m.receiver.State(), m.receiver.read, m.receiver.emitted,
                        m.handled, m.files.State(), before, o, flags, noise);
  }

  /** So if a whole transfer is waiting on the client's socket, behind what had been taken by then, it
      takes the machine no more rounds than bytes to deliver it, as long as it finds the connection
      established and nothing else comes in. */
  lemma WaitingIsDelivered(m: CommHandler, ms: seq<Moment>, before: bytes, o: Transfer.Outgoing, flags: seq<int>,
                           noise: seq<bytes>)
    requires m.Valid() && !m.receiver.undefined && AllGoing(m.handled) && Sound(m.algos)
    requires EndToEnd.Sendable(o) && |flags| == |o.frags| + 2
    requires Resync.Follow(Framing.Parse(before).rest, noise, EndToEnd.Packets(m.algos, flags, EndToEnd.Parts(o)))
    requires IsRun(ms) && ms[|ms| - 1] == m.Now() && forall i :: 0 < i < |ms| ==> Receives(ms[i - 1], ms[i])
    requires var r := ms[0].tcp.regs;
             && Protocol(r.mr) == MR_TCP && r.rxMax > 0 && |ms| > |r.rx|
             && r.taken + r.rx == before + Resync.Noisy(noise, EndToEnd.Packets(m.algos, flags, EndToEnd.Parts(o)))
             && |m.Tcp().regs.taken| <= |r.taken| + |r.rx|
    requires EnoughHeap(Last(m.handled, |o.frags| + 2))
    ensures Replies(Last(m.handled, |o.frags| + 2)) ==
            Transfer.Repeat(BigFile.Receiving, |o.frags| + 1) + [Transfer.TheFile(o)]
    ensures m.files.big == null
  {
    hide Accounted, Framing.Agrees, ConnectionOk, Framing.Parse, Resync.Noisy, RoundOk, Receives, SocketOk, Resync.Follow;
    WaitingIsTaken(ms);
    MachineDelivers(m, before, o, flags, noise);
  }
}
