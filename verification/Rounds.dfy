/**
 What a round of the machine does, as a relation between the states before and after it: the state of
 the connection, the registers and queues of its two sockets and what the calls on them have answered.
 Every round is one of `RoundOk`; what follows for whole runs is proved here.
 */
module Rounds {
  import opened Bytes
  import opened Chip
  import opened SocketDriver
  import opened Datagrams
  import opened PacketLog
  import Receiver
  import UdpCommand

  const UDP_SERVER_PORT: u16 := 8279

  datatype Operation = Dhcp | Wait | ConnectHost

  /** A call of connect: the host, how many verified requests had been handled by then, and what it
      answered. */
  datatype Attempt = Attempt(host: Host, verified: nat, answer: int)

  ghost function LastUsed(attempts: seq<Attempt>): nat {
    if attempts == [] then 0 else attempts[|attempts| - 1].verified
  }

  /** Each attempt uses the host of the most recent verified request, and each is preceded by a
      request of its own. */
  ghost predicate AttemptsOk(verified: seq<Host>, attempts: seq<Attempt>) {
    attempts == [] ||
    var front, last := attempts[..|attempts| - 1], attempts[|attempts| - 1];
    && AttemptsOk(verified, front)
    && LastUsed(front) < last.verified <= |verified| && last.host == verified[last.verified - 1]
  }

  function Answers(attempts: seq<Attempt>): seq<int> {
    seq(|attempts|, i requires 0 <= i < |attempts| => attempts[i].answer)
  }

  /** The hosts the chip was told to connect to: those for which connect got that far. */
  ghost function DialedHosts(attempts: seq<Attempt>): seq<Host> {
    if attempts == [] then []
    else
      var n := |attempts| - 1;
      DialedHosts(attempts[..n]) + if Dials(true, attempts[n].answer) then [attempts[n].host] else []
  }

  /** An attempt for the latest of the requests not yet used. */
  lemma AttemptAdded(verified: seq<Host>, attempts: seq<Attempt>, answer: int)
    requires AttemptsOk(verified, attempts) && LastUsed(attempts) < |verified|
    ensures var n := |verified|;
            var after := attempts + [Attempt(verified[n - 1], n, answer)];
            && AttemptsOk(verified, after) && LastUsed(after) == n && Answers(after) == Answers(attempts) + [answer]
            && DialedHosts(after) == DialedHosts(attempts) + if Dials(true, answer) then [verified[n - 1]] else []
  {
    hide Dials;
    var after := attempts + [Attempt(verified[|verified| - 1], |verified|, answer)];
    assert after[..|attempts|] == attempts;
  }

  lemma {:induction false} AttemptsStayOk(verified: seq<Host>, attempts: seq<Attempt>, h: Host)
    requires AttemptsOk(verified, attempts)
    ensures AttemptsOk(verified + [h], attempts) && LastUsed(attempts) <= |verified|
    decreases |attempts|
  {
    if attempts != [] {
      AttemptsStayOk(verified, attempts[..|attempts| - 1], h);
    }
  }

  /** There are at most as many attempts as verified requests: attempt `k` is for the latest of the
      requests handled by then, and no other attempt for as many. */
  lemma {:induction false} AttemptsAreRequested(verified: seq<Host>, attempts: seq<Attempt>)
    requires AttemptsOk(verified, attempts)
    ensures |attempts| <= LastUsed(attempts) <= |verified|
    ensures forall k :: 0 <= k < |attempts| ==>
              1 <= attempts[k].verified <= LastUsed(attempts) && attempts[k].host == verified[attempts[k].verified - 1]
    ensures forall j, k :: 0 <= j < k < |attempts| ==> attempts[j].verified < attempts[k].verified
    decreases |attempts|
  {
    if attempts != [] {
      var n := |attempts| - 1;
      var earlier := attempts[..n];
      AttemptsAreRequested(verified, earlier);
      assert forall k :: 0 <= k < n ==> attempts[k] == earlier[k];
    }
  }

  /** The slices received that are connect requests. */
  ghost function Requests(slices: seq<Slice>): seq<Slice> {
    if slices == [] then []
    else
      var n := |slices| - 1;
      Requests(slices[..n]) + if UdpCommand.ConnectPort(slices[n].data).Some? then [slices[n]] else []
  }

  /** A host stored for a request: its port is the one asked for, and its address that of the datagram,
      if the slice is the datagram's first. */
  predicate StoredFor(s: Slice, h: Host) {
    && UdpCommand.ConnectPort(s.data) == Some(h.port)
    && |h.ip| == 4 && (s.first ==> h.ip == s.addr)
  }

  /** Verified requests are exactly the requests received, in order, each as stored. */
  ghost predicate RequestsOk(slices: seq<Slice>, verified: seq<Host>)
    decreases |slices|
  {
    if slices == [] then verified == []
    else
      var front, s := slices[..|slices| - 1], slices[|slices| - 1];
      if UdpCommand.ConnectPort(s.data).None? then RequestsOk(front, verified)
      else
        && verified != [] && StoredFor(s, verified[|verified| - 1])
        && RequestsOk(front, verified[..|verified| - 1])
  }

  lemma RequestAdded(slices: seq<Slice>, verified: seq<Host>, s: Slice, h: Host)
    requires RequestsOk(slices, verified)
    ensures UdpCommand.ConnectPort(s.data).None? ==> RequestsOk(slices + [s], verified)
    ensures StoredFor(s, h) ==> RequestsOk(slices + [s], verified + [h])
  {
    assert (slices + [s])[..|slices|] == slices && (verified + [h])[..|verified|] == verified;
  }

  lemma {:induction false} RequestsAreCounted(slices: seq<Slice>, verified: seq<Host>)
    requires RequestsOk(slices, verified)
    ensures |Requests(slices)| == |verified|
    decreases |slices|
  {
    if slices != [] {
      var front, s := slices[..|slices| - 1], slices[|slices| - 1];
      if UdpCommand.ConnectPort(s.data).None? {
        RequestsAreCounted(front, verified);
      } else {
        RequestsAreCounted(front, verified[..|verified| - 1]);
      }
    }
  }

  lemma {:induction false} RequestIsStored(slices: seq<Slice>, verified: seq<Host>, k: nat)
    requires RequestsOk(slices, verified) && k < |verified|
    ensures k < |Requests(slices)| && StoredFor(Requests(slices)[k], verified[k])
    decreases |slices|
  {
    var front, s := slices[..|slices| - 1], slices[|slices| - 1];
    RequestsAreCounted(slices, verified);
    if UdpCommand.ConnectPort(s.data).None? {
      RequestIsStored(front, verified, k);
    } else if k < |verified| - 1 {
      RequestIsStored(front, verified[..|verified| - 1], k);
    }
  }

  /** The state of the connection: `struct comm_meta_rec`, and what has been requested and tried. */
  datatype Connection = Connection(operation: Operation, host: Host, verified: seq<Host>, attempts: seq<Attempt>)

  /** Verified requests are those received; a pending one is the latest, and attempts have been made
      for earlier ones only, at most once each. Attempts are all calls of connect there have been, and
      the chip has been told to connect to the hosts of those that got that far, in order, and to no
      others. */
  ghost predicate ConnectionOk(c: Connection, t: Traffic) {
    && |c.host.ip| == 4
    && RequestsOk(t.slices, c.verified) && t.dialed == DialedHosts(c.attempts) && t.connects == Answers(c.attempts)
    && AttemptsOk(c.verified, c.attempts)
    && (c.operation.ConnectHost? ==>
          LastUsed(c.attempts) < |c.verified| && c.host == c.verified[|c.verified| - 1])
  }

  /** The connection after a slice whose sender is stored as `sender`. */
  function AfterSlice(c: Connection, data: bytes, sender: bytes): Connection {
    match UdpCommand.ConnectPort(data)
    case None => c
    case Some(port) => c.(operation := ConnectHost, host := Host(sender, port), verified := c.verified + [Host(sender, port)])
  }

  lemma SliceKeepsOk(c: Connection, t: Traffic, s: Slice, sender: bytes)
    requires ConnectionOk(c, t) && |sender| == 4 && (s.first ==> sender == s.addr)
    ensures ConnectionOk(AfterSlice(c, s.data, sender), t.(slices := t.slices + [s]))
  {
    hide UdpCommand.ConnectPort, RequestsOk, AttemptsOk, DialedHosts;
    var h := Host(sender, if UdpCommand.ConnectPort(s.data).Some? then UdpCommand.ConnectPort(s.data).value else 0);
    RequestAdded(t.slices, c.verified, s, h);
    AttemptsStayOk(c.verified, c.attempts, h);
  }

  lemma SlicesKeepOk(c: Connection, t: Traffic, slices: seq<Slice>, dgram: bytes, sender: bytes)
    requires ConnectionOk(c, t) && |sender| == 4 && |slices| <= 1
    requires if slices == [] then dgram == []
             else dgram == slices[0].data && (slices[0].first ==> sender == slices[0].addr)
    ensures ConnectionOk(AfterSlice(c, dgram, sender), t.(slices := t.slices + slices))
    ensures dgram == [] ==> AfterSlice(c, dgram, sender) == c
  {
    if slices == [] {
      assert t.slices + slices == t.slices;
    } else {
      assert slices == [slices[0]];
      SliceKeepsOk(c, t, slices[0], sender);
    }
  }

  /** The connection after its pending request has been used up. */
  function AfterAttempt(c: Connection, answer: int): Connection {
    c.(operation := Wait, attempts := c.attempts + [Attempt(c.host, |c.verified|, answer)])
  }

  lemma HostHasAddress(c: Connection, t: Traffic)
    requires ConnectionOk(c, t)
    ensures |c.host.ip| == 4
  {
  }

  lemma AttemptKeepsOk(c: Connection, t: Traffic, answer: int)
    requires ConnectionOk(c, t) && c.operation.ConnectHost?
    ensures ConnectionOk(AfterAttempt(c, answer),
                         t.(dialed := t.dialed + if Dials(true, answer) then [c.host] else [], connects := t.connects + [answer]))
  {
    hide RequestsOk, AttemptsOk, DialedHosts, Answers, Dials;
    AttemptAdded(c.verified, c.attempts, answer);
  }

  lemma OtherTrafficKeepsOk(c: Connection, t: Traffic, t': Traffic)
    requires ConnectionOk(c, t) && t'.dialed == t.dialed && t'.connects == t.connects && t'.slices == t.slices
    ensures ConnectionOk(c, t')
    ensures ConnectionOk(c.(operation := Wait), t') && ConnectionOk(c.(operation := Dhcp), t')
  {
  }

  /** What it comes to: connect has been called once for each attempt, no more hosts dialed than that,
      and no more attempts than requests received; each attempt is for a host stored for one of them,
      each time a later one. */
  lemma ConnectionIsRequested(c: Connection, t: Traffic)
    requires ConnectionOk(c, t)
    ensures |t.dialed| <= |t.connects| == |c.attempts| <= |Requests(t.slices)| == |c.verified|
    ensures forall k :: 0 <= k < |c.attempts| ==>
              t.connects[k] == c.attempts[k].answer && 1 <= c.attempts[k].verified <= |c.verified|
              && c.attempts[k].host == c.verified[c.attempts[k].verified - 1]
              && StoredFor(Requests(t.slices)[c.attempts[k].verified - 1], c.attempts[k].host)
    ensures forall j, k :: 0 <= j < k < |c.attempts| ==> c.attempts[j].verified < c.attempts[k].verified
    ensures forall h :: h in t.dialed ==>
              exists k :: 0 <= k < |c.attempts| && c.attempts[k].host == h && Dials(true, c.attempts[k].answer)
  {
    hide Dials, StoredFor;
    AttemptsAreRequested(c.verified, c.attempts);
    RequestsAreCounted(t.slices, c.verified);
    forall k | 0 <= k < |c.verified| ensures StoredFor(Requests(t.slices)[k], c.verified[k]) {
      RequestIsStored(t.slices, c.verified, k);
    }
    DialedAreAttempted(c.attempts);
  }

  lemma {:induction false} DialedAreAttempted(attempts: seq<Attempt>)
    ensures |DialedHosts(attempts)| <= |attempts|
    ensures forall h :: h in DialedHosts(attempts) ==>
              exists k :: 0 <= k < |attempts| && attempts[k].host == h && Dials(true, attempts[k].answer)
    decreases |attempts|
  {
    hide Dials;
    if attempts != [] {
      var n := |attempts| - 1;
      var front := attempts[..n];
      DialedAreAttempted(front);
      forall h | h in DialedHosts(attempts)
        ensures exists k :: 0 <= k < |attempts| && attempts[k].host == h && Dials(true, attempts[k].answer)
      {
        if h in DialedHosts(front) {
          var k :| 0 <= k < n && front[k].host == h && Dials(true, front[k].answer);
          assert attempts[k].host == h;
        } else {
          assert attempts[n].host == h;
        }
      }
    }
  }

  // ---------------------------------------------------------------------------------------
  // A round.

  /** One of the two sockets: the chip's side of it, and what the calls on it have answered. */
  datatype Side = Side(regs: Regs, log: CallLog)

  /** What there is between two rounds, the address of the board included. */
  datatype Moment = Moment(conn: Connection, sipr: u32, udp: Side, tcp: Side)

  /** The application has read the status of a socket; the chip may have moved before. */
  predicate StatusAsked(s: Side, s': Side) {
    Evolves(s.regs, s'.regs) && s'.log == s.log.(states := s.log.states + [s'.regs.sr])
  }

  /** What the application has last read off the status register. */
  function Status(s: Side): Option<byte> {
    if s.log.states == [] then None else Some(s.log.states[|s.log.states| - 1])
  }

  /** What a slice makes of the connection: a request stores its port and sender and is pending. */
  predicate SliceHandled(c: Connection, s: Slice, c': Connection) {
    if UdpCommand.ConnectPort(s.data).None? then c' == c
    else
      && StoredFor(s, c'.host)
      && c' == c.(operation := ConnectHost, host := c'.host, verified := c.verified + [c'.host])
  }

  /** At most one slice has been received, and none only if nothing was waiting or the chip has shown the
      socket closed. */
  predicate SliceReceived(c: Connection, s: Side, c': Connection, s': Side) {
    if s'.log == s.log then c' == c && (s.regs.rx == [] || ShownClosed(s.regs, s'.regs))
    else
      && s'.log.slices != []
      && var slice := s'.log.slices[|s'.log.slices| - 1];
      && s'.log == s.log.(slices := s.log.slices + [slice]) && SliceHandled(c, slice, c')
  }

  lemma SliceIsReceived(c: Connection, s: Side, slices: seq<Slice>, dgram: bytes, sender: bytes, s': Side)
    requires |sender| == 4 && |slices| <= 1 && s'.log == s.log.(slices := s.log.slices + slices)
    requires if slices == [] then dgram == [] && (s.regs.rx == [] || ShownClosed(s.regs, s'.regs))
             else dgram == slices[0].data && (slices[0].first ==> sender == slices[0].addr)
    ensures SliceReceived(c, s, AfterSlice(c, dgram, sender), s')
  {
    if slices == [] {
      assert s.log.slices + slices == s.log.slices;
      assert UdpCommand.ConnectPort(dgram).None?;
    } else {
      assert s'.log.slices[|s'.log.slices| - 1] == slices[0] && slices == [slices[0]];
    }
  }

  /** The server's part of a round, once it knows the status of its socket. */
  predicate UdpServed(c: Connection, s: Side, c': Connection, s': Side) {
    if s.regs.sr == SOCK_CLOSED then
      && c' == c && s'.log == s.log
      && JustOpened(s.regs, s'.regs, MR_UDP, SOCK_IO_NONBLOCK, UDP_SERVER_PORT)
    else if s.regs.sr == SOCK_UDP then SliceReceived(c, s, c', s')
    else c' == c && s' == s
  }

  /** Bytes waiting on an established connection: some have been taken, off the front of what was
      waiting, unless the chip has shown that the connection is gone. Replies may have been sent. */
  predicate BytesReceived(s: Side, s': Side) {
    && s'.log == s.log.(recvs := s'.log.recvs, sends := s'.log.sends)
    && StreamKept(s.regs, s'.regs) && s'.regs.mr == s.regs.mr && s'.regs.dialed == s.regs.dialed
    && (s'.regs.taken == s.regs.taken ==> Receiver.NothingToRead(s.regs, s'.regs))
  }

  /** Replies may have been sent, and nothing else. */
  predicate RepliesSent(s: Side, s': Side) {
    && s'.log == s.log.(sends := s'.log.sends)
    && StreamKept(s.regs, s'.regs) && s'.regs.taken == s.regs.taken
    && s'.regs.mr == s.regs.mr && s'.regs.dialed == s.regs.dialed
  }

  lemma NoReplies(s: Side)
    ensures RepliesSent(s, s)
  {
  }

  lemma RepliesFollow(a: Side, b: Side, c: Side)
    requires RepliesSent(b, c)
    ensures RepliesSent(a, b) ==> RepliesSent(a, c)
    ensures BytesReceived(a, b) && b.regs.taken != a.regs.taken ==> BytesReceived(a, c)
  {
    hide StreamKept;
    if StreamKept(a.regs, b.regs) {
      StreamChain(a.regs, b.regs, c.regs);
    }
  }

  /** A disconnect has been issued, and nothing else. */
  predicate HungUp(s: Side, s': Side) {
    && s'.log == s.log && SameStreams(s.regs, s'.regs) && StreamKept(s.regs, s'.regs)
    && s'.regs.trace == s.regs.trace + [Disconnected] && s'.regs.dialed == s.regs.dialed
  }

  /** The socket is open again on a port of its own, with an empty queue; or it is closed, and the board
      goes for an address, when it has none. */
  predicate Reopened(c: Connection, sipr: u32, s: Side, c': Connection, s': Side) {
    && s'.log == s.log && SameStreams(s.regs, s'.regs) && s'.regs.dialed == s.regs.dialed
    && if sipr == 0 then c' == c.(operation := Dhcp) && s'.regs.sr == SOCK_CLOSED
       else
         && c' == c && 2000 <= s'.regs.port < 32000
         && JustOpened(s.regs, s'.regs, MR_TCP, SOCK_IO_NONBLOCK, s'.regs.port)
  }

  /** A pending request has been used up by one call of connect, for the stored host; without one there
      has been none. */
  predicate Tried(c: Connection, s: Side, c': Connection, s': Side) {
    if !c.operation.ConnectHost? then c' == c && s' == s
    else
      && s'.log.connects != []
      && var answer := s'.log.connects[|s'.log.connects| - 1];
      && s'.log == s.log.(connects := s.log.connects + [answer]) && c' == AfterAttempt(c, answer)
      && SameStreams(s.regs, s'.regs) && StreamKept(s.regs, s'.regs)
      && ConnectAnswer(answer, c.host.ip, c.host.port, true, s.regs, s'.regs)
      && s'.regs.dialed == s.regs.dialed + (if Dials(true, answer) then [c.host] else [])
  }

  /** The client's part of a round, once it knows the status of its socket. */
  predicate TcpServed(c: Connection, sipr: u32, s: Side, c': Connection, s': Side) {
    if s.regs.sr == SOCK_ESTABLISHED then c' == c && BytesReceived(s, s')
    else if s.regs.sr == SOCK_CLOSE_WAIT then c' == c && HungUp(s, s')
    else if s.regs.sr == SOCK_CLOSED then Reopened(c, sipr, s, c', s')
    else if s.regs.sr == SOCK_INIT then Tried(c, s, c', s')
    else c' == c && s' == s
  }

  /** A packet received may be answered in the same round. */
  lemma ServedThenReplied(c: Connection, sipr: u32, asked: Side, c': Connection, s: Side, s': Side)
    requires asked.regs.sr == SOCK_ESTABLISHED && s.regs.taken != asked.regs.taken
    requires TcpServed(c, sipr, asked, c', s) && RepliesSent(s, s')
    ensures TcpServed(c, sipr, asked, c', s')
  {
    hide BytesReceived, RepliesSent;
    RepliesFollow(asked, s, s');
  }

  ghost predicate UdpTurn(c: Connection, s: Side, c': Connection, s': Side) {
    exists asked :: StatusAsked(s, asked) && UdpServed(c, asked, c', s')
  }

  ghost predicate TcpTurn(c: Connection, sipr: u32, s: Side, c': Connection, s': Side) {
    exists asked :: StatusAsked(s, asked) && TcpServed(c, sipr, asked, c', s')
  }

  /** One round: the board gets an address, or the server has its turn and then the client. */
  ghost predicate RoundOk(m: Moment, m': Moment) {
    if m.conn.operation.Dhcp? then m' == m.(conn := m.conn.(operation := Wait), sipr := m'.sipr)
    else
      && m'.sipr == m.sipr
      && exists c :: UdpTurn(m.conn, m.udp, c, m'.udp) && TcpTurn(c, m.sipr, m.tcp, m'.conn, m'.tcp)
  }

  /** The moments before the first round, between rounds and after the last. */
  ghost predicate IsRun(ms: seq<Moment>) {
    ms != [] && forall i :: 0 < i < |ms| ==> RoundOk(ms[i - 1], ms[i])
  }

  lemma RunStarts(m: Moment)
    ensures IsRun([m])
  {
  }

  lemma RunGoesOn(ms: seq<Moment>, m: Moment)
    requires IsRun(ms) && RoundOk(ms[|ms| - 1], m)
    ensures IsRun(ms + [m])
  {
    hide RoundOk;
  }

  // ---------------------------------------------------------------------------------------
  // Whole runs.

  /** A round in which the client found its connection established and the chip did not show otherwise. */
  predicate Receives(m: Moment, m': Moment) {
    !m.conn.operation.Dhcp? && Status(m'.tcp) == Some(SOCK_ESTABLISHED) && !ChipLeft(m.tcp.regs, m'.tcp.regs)
  }

  lemma StatusIsAsked(s: Side, asked: Side)
    requires StatusAsked(s, asked)
    ensures Status(asked) == Some(asked.regs.sr) && StreamKept(s.regs, asked.regs)
  {
  }

  lemma RoundReceives(m: Moment, m': Moment)
    requires RoundOk(m, m') && Receives(m, m') && Protocol(m.tcp.regs.mr) == MR_TCP && m.tcp.regs.rxMax > 0
    ensures StreamKept(m.tcp.regs, m'.tcp.regs) && m'.tcp.regs.mr == m.tcp.regs.mr
    ensures |m'.tcp.regs.taken| > |m.tcp.regs.taken| || m.tcp.regs.rx == []
  {
    var c :| UdpTurn(m.conn, m.udp, c, m'.udp) && TcpTurn(c, m.sipr, m.tcp, m'.conn, m'.tcp);
    var asked :| StatusAsked(m.tcp, asked) && TcpServed(c, m.sipr, asked, m'.conn, m'.tcp);
    hide UdpTurn, Reopened, Tried, HungUp, StatusAsked;
    ServedOnceAsked(c, m.sipr, m.tcp, asked, m'.conn, m'.tcp);
    ReceivedOffFront(m.tcp, asked, m'.tcp);
  }

  /** The status last read is the one the turn was about. */
  lemma ServedOnceAsked(c: Connection, sipr: u32, s: Side, asked: Side, c': Connection, s': Side)
    requires StatusAsked(s, asked) && TcpServed(c, sipr, asked, c', s')
    ensures Status(s') == Some(asked.regs.sr)
  {
    hide Evolves, StreamKept, JustOpened, ConnectAnswer, Dials;
  }

  lemma ReceivedOffFront(s: Side, asked: Side, s': Side)
    requires StatusAsked(s, asked) && BytesReceived(asked, s')
    requires !ChipLeft(s.regs, s'.regs) && Protocol(s.regs.mr) == MR_TCP && s.regs.rxMax > 0
    ensures StreamKept(s.regs, s'.regs) && s'.regs.mr == s.regs.mr
    ensures |s'.regs.taken| > |s.regs.taken| || s.regs.rx == []
  {
    StatusIsAsked(s, asked);
    StreamChain(s.regs, asked.regs, s'.regs);
  }

  /** Main result: over a run of such rounds each takes a byte at least while there are any, so as many
      rounds as bytes were waiting take all of them. */
  lemma {:induction false} WaitingIsTaken(ms: seq<Moment>)
    requires IsRun(ms) && forall i :: 0 < i < |ms| ==> Receives(ms[i - 1], ms[i])
    requires Protocol(ms[0].tcp.regs.mr) == MR_TCP && ms[0].tcp.regs.rxMax > 0
    ensures var a, b := ms[0].tcp.regs, ms[|ms| - 1].tcp.regs;
            && StreamKept(a, b) && b.mr == a.mr
            && |b.taken| >= |a.taken| + Min(|ms| - 1, |a.rx|)
            && (|ms| > |a.rx| ==> a.taken + a.rx <= b.taken)
    decreases |ms|
  {
    hide RoundOk, Receives, Protocol;
    var n := |ms| - 1;
    var a := ms[0].tcp.regs;
    if n == 0 {
      StreamStays(a);
      assert a.rx == [] ==> a.taken + a.rx == a.taken;
    } else {
      WaitingIsTaken(ms[..n]);
      RoundReceives(ms[n - 1], ms[n]);
      TakenSoFar(a, ms[n - 1].tcp.regs, ms[n].tcp.regs, n - 1);
    }
  }

  lemma TakenSoFar(a: Regs, b: Regs, c: Regs, k: nat)
    requires StreamKept(a, b) && StreamKept(b, c)
    requires |b.taken| >= |a.taken| + Min(k, |a.rx|) && (|c.taken| > |b.taken| || b.rx == [])
    ensures StreamKept(a, c) && |c.taken| >= |a.taken| + Min(k + 1, |a.rx|)
    ensures k + 1 >= |a.rx| ==> a.taken + a.rx <= c.taken
  {
    StreamChain(a, b, c);
    if |c.taken| - |a.taken| >= |a.rx| {
      var since := c.taken[|a.taken|..];
      assert a.rx == (since + c.rx)[..|a.rx|] == since[..|a.rx|];
      assert c.taken == a.taken + since;
    }
  }

  /** A round in which the client did not find its connection established takes nothing, and one in which
      it found its socket closed leaves nothing in the queue. */
  lemma RoundLeaves(m: Moment, m': Moment)
    requires RoundOk(m, m') && (!m.conn.operation.Dhcp? ==> Status(m'.tcp) != Some(SOCK_ESTABLISHED))
    ensures m'.tcp.regs.taken == m.tcp.regs.taken
    ensures !m.conn.operation.Dhcp? && Status(m'.tcp) == Some(SOCK_CLOSED) && m.sipr != 0 ==> m'.tcp.regs.rx == []
  {
    if !m.conn.operation.Dhcp? {
      hide ConnectAnswer, StreamKept, Dials;
      var c :| UdpTurn(m.conn, m.udp, c, m'.udp) && TcpTurn(c, m.sipr, m.tcp, m'.conn, m'.tcp);
      var asked :| StatusAsked(m.tcp, asked) && TcpServed(c, m.sipr, asked, m'.conn, m'.tcp);
      ServedOnceAsked(c, m.sipr, m.tcp, asked, m'.conn, m'.tcp);
    }
  }

  /** What is waiting when the peer closes the connection is lost: the client hangs up instead of
      receiving, and by the time it has found its socket closed and opened it again nothing that was
      waiting has been taken, and nothing is left. */
  lemma {:induction false} UnreadIsLost(ms: seq<Moment>)
    requires IsRun(ms)
    requires forall i :: 0 < i < |ms| ==> (!ms[i - 1].conn.operation.Dhcp? ==> Status(ms[i].tcp) != Some(SOCK_ESTABLISHED))
    ensures var n := |ms| - 1;
            && ms[n].tcp.regs.taken == ms[0].tcp.regs.taken
            && (n > 0 && !ms[n - 1].conn.operation.Dhcp? && Status(ms[n].tcp) == Some(SOCK_CLOSED) && ms[n - 1].sipr != 0 ==>
                  ms[n].tcp.regs.rx == [])
    decreases |ms|
  {
    hide RoundOk, Status;
    var n := |ms| - 1;
    if n > 0 {
      UnreadIsLost(ms[..n]);
      RoundLeaves(ms[n - 1], ms[n]);
    }
  }

  /** A request pending when the client finds its socket ready is used up in that round by exactly one
      call of connect, for the host stored last; without one there is none. */
  lemma PendingIsTried(m: Moment, m': Moment)
    requires RoundOk(m, m') && !m.conn.operation.Dhcp?
    ensures m'.tcp.log.connects != m.tcp.log.connects ==> Status(m'.tcp) == Some(SOCK_INIT) && m'.conn.operation == Wait
    ensures Status(m'.tcp) == Some(SOCK_INIT) && (m.conn.operation == ConnectHost || m'.conn.verified != m.conn.verified) ==>
              && |m'.tcp.log.connects| == |m.tcp.log.connects| + 1
              && var answer := m'.tcp.log.connects[|m.tcp.log.connects|];
              && m'.tcp.log.connects == m.tcp.log.connects + [answer]
              && m'.conn.attempts == m.conn.attempts + [Attempt(m'.conn.host, |m'.conn.verified|, answer)]
              && m'.tcp.regs.dialed == m.tcp.regs.dialed + (if Dials(true, answer) then [m'.conn.host] else [])
  {
    hide ConnectAnswer, StreamKept, Dials, JustOpened;
    var c :| UdpTurn(m.conn, m.udp, c, m'.udp) && TcpTurn(c, m.sipr, m.tcp, m'.conn, m'.tcp);
    TurnKeepsAttempts(m.conn, m.udp, c, m'.udp);
    hide UdpTurn;
    var asked :| StatusAsked(m.tcp, asked) && TcpServed(c, m.sipr, asked, m'.conn, m'.tcp);
    ServedOnceAsked(c, m.sipr, m.tcp, asked, m'.conn, m'.tcp);
  }

  lemma TurnKeepsAttempts(c: Connection, s: Side, c': Connection, s': Side)
    requires UdpTurn(c, s, c', s')
    ensures c'.attempts == c.attempts && (c' == c || c'.operation == ConnectHost)
  {
    hide StatusAsked, JustOpened, StoredFor, UdpCommand.ConnectPort;
    var asked :| StatusAsked(s, asked) && UdpServed(c, asked, c', s');
  }
}
