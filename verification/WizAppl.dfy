/**
 The application's retry loops around send and recv, and the packet sender on top of them.
 */
module WizAppl {
  import opened Bytes
  import opened PacketCodec
  import opened TcpPacket
  import SocketBits
  import SocketDriver

  const MAX_RETRY := 3

  /** What is left of a length in a 16-bit parameter. */
  lemma LowPart(n: nat, high: nat)
    requires 0x1_0000 * high <= n < 0x1_0000 * (high + 1)
    ensures Trunc16(n) == n - 0x1_0000 * high
  {
  }

  /** How many of the answers of send or recv were errors, and how many bytes the others moved. */
  function Errors(answers: seq<int>): nat {
    if answers == [] then 0
    else Errors(answers[..|answers| - 1]) + if answers[|answers| - 1] < 0 then 1 else 0
  }

  function Moved(answers: seq<int>): nat {
    if answers == [] then 0
    else Moved(answers[..|answers| - 1]) + if answers[|answers| - 1] < 0 then 0 else answers[|answers| - 1]
  }

  lemma OneAnswerMore(answers: seq<int>, ret: int)
    ensures Errors(answers + [ret]) == Errors(answers) + if ret < 0 then 1 else 0
    ensures Moved(answers + [ret]) == Moved(answers) + if ret < 0 then 0 else ret
  {
    assert (answers + [ret])[..|answers|] == answers;
  }

  lemma {:induction false} AnswersTogether(a: seq<int>, b: seq<int>)
    ensures Errors(a + b) == Errors(a) + Errors(b) && Moved(a + b) == Moved(a) + Moved(b)
    decreases |b|
  {
    if b == [] {
      assert a + b == a;
    } else {
      var front, last := b[..|b| - 1], b[|b| - 1];
      AnswersTogether(a, front);
      assert a + b == (a + front) + [last] && b == front + [last];
      OneAnswerMore(a + front, last);
    }
  }

  /** The answers of a loop that ends with the first error, or with `ret` bytes moved. */
  predicate EndsWithFirstError(answers: seq<int>, ret: int) {
    && answers != []
    && Errors(answers[..|answers| - 1]) == 0
    && if answers[|answers| - 1] < 0 then ret == answers[|answers| - 1] else ret == Moved(answers)
  }

  /** One send in wiz_sendb. */
  method SendMore(driver: SocketDriver.Driver, sn: nat, buf: array<byte>, at: nat, len: u16, patience: nat,
                  ghost stream: bytes, ghost log: seq<SocketDriver.CallLog>, ghost before: seq<int>)
      returns (done: bool, ret: int, ghost answers: seq<int>)
    requires driver.Valid() && sn < SocketBits.SOCK_NUM && at + len <= buf.Length && sn < |log|
    requires driver.chip.socks[sn].sent == stream + buf[..at] && driver.calls == SocketDriver.Sent(log, sn, before)
    modifies driver, driver.chip
    ensures driver.Valid() && driver.OthersKept(sn) && driver.Quiet(sn)
    ensures driver.chip.socks[sn].taken == old(driver.chip.socks[sn].taken)
    ensures done && ret >= 0 ==> ret <= len && driver.chip.socks[sn].sent == stream + buf[..at + ret]
    ensures !done || ret < 0 ==> driver.chip.socks[sn].sent == stream + buf[..at]
    ensures driver.calls == SocketDriver.Sent(log, sn, answers)
    ensures answers == if done then before + [ret] else before
    ensures old(SocketDriver.NeverWaits(driver.View(sn), driver.chip.socks[sn])) && patience > 0 ==>
              done && SocketDriver.NeverWaits(driver.View(sn), driver.chip.socks[sn])
  {
    hide SocketDriver.SendAnswer, SocketDriver.SocketOk, SocketDriver.StreamKept;
    done, ret := driver.SendBytes(sn, buf, at, len, patience);
    answers := if done then before + [ret] else before;
    SocketDriver.LogsChain(log, sn, before, [ret]);
    if done && ret > 0 {
      assert buf[at..at + len][..ret] == buf[at..at + ret];
      assert stream + buf[..at] + buf[at..at + ret] == stream + buf[..at + ret];
    }
  }

  /** wiz_sendb: sends until nothing remains or send fails. What has been handed over is a prefix of
      the buffer at every moment, as long as send's answers say, and the result is the whole size, or
      the first error send answered. The length goes through a 16-bit parameter, so a size that does
      not fit one never succeeds. */
  method WizSendb(driver: SocketDriver.Driver, sn: nat, buf: array<byte>, size: nat, patience: nat)
      returns (done: bool, ret: int, ghost sent: nat, ghost answers: seq<int>)
    requires driver.Valid() && sn < SocketBits.SOCK_NUM && size <= buf.Length
    modifies driver, driver.chip
    ensures driver.Valid() && driver.OthersKept(sn) && driver.Quiet(sn)
    ensures driver.calls == SocketDriver.Sent(old(driver.calls), sn, answers)
    ensures sent == Moved(answers) <= size
    ensures driver.chip.socks[sn].sent == old(driver.chip.socks[sn].sent) + buf[..sent]
    ensures driver.chip.socks[sn].taken == old(driver.chip.socks[sn].taken)
    ensures done ==> EndsWithFirstError(answers, ret)
    ensures done ==> (ret < 0 && (size > 0 ==> sent < size)) || (ret == size == sent && size < 0x1_0000)
    ensures !done ==> Errors(answers) == 0
    ensures old(SocketDriver.NeverWaits(driver.View(sn), driver.chip.socks[sn])) && patience > 0 ==>
              SocketDriver.NeverWaits(driver.View(sn), driver.chip.socks[sn]) && (!done ==> |answers| >= patience)
  {
    hide SocketDriver.SocketOk, SocketDriver.StreamKept;
    ret, sent, answers := 0, 0, [];
    var sentSize, remainSize := 0, size;
    ghost var high, stream, log := size / 0x1_0000, driver.chip.socks[sn].sent, driver.calls;
    ghost var r := driver.chip.socks[sn];
    SocketDriver.LogsChain(log, sn, [], []);
    SocketDriver.StreamStays(r);
    assert buf[..0] == [] && stream + [] == stream;
    for rounds := 0 to patience
      invariant driver.Valid() && driver.OthersKept(sn) && driver.Quiet(sn)
      invariant sentSize + remainSize == size && 0 <= sentSize && 0 <= remainSize
      invariant if rounds == 0 then remainSize == size else 0 < remainSize
      invariant 0x1_0000 * high <= remainSize < 0x1_0000 * (high + 1)
      invariant sent == sentSize == Moved(answers) && Errors(answers) == 0 && |answers| == rounds
      invariant old(SocketDriver.NeverWaits(driver.View(sn), driver.chip.socks[sn])) ==>
                  SocketDriver.NeverWaits(driver.View(sn), driver.chip.socks[sn])
      invariant driver.calls == SocketDriver.Sent(log, sn, answers)
      invariant driver.chip.socks[sn].sent == stream + buf[..sentSize]
      invariant driver.chip.socks[sn].taken == old(driver.chip.socks[sn].taken)
    {
      LowPart(remainSize, high);
      ghost var before, r1 := answers, driver.chip.socks[sn];
      done, ret, answers := SendMore(driver, sn, buf, sentSize, Trunc16(remainSize), patience, stream, log, answers);
      SocketDriver.StreamChain(r, r1, driver.chip.socks[sn]);
      OneAnswerMore(before, ret);
      assert done ==> answers[..|answers| - 1] == before;
      if !done || ret < 0 {
        return;
      }
      remainSize := remainSize - ret;
      sentSize := sentSize + ret;
      sent := sentSize;
      if remainSize <= 0 {
        return true, sentSize, sent, answers;
      }
    }
    return false, 0, sent, answers;
  }

  /** A buffer whose front has been filled with `got`. */
  function Filled(before: bytes, got: bytes): (r: bytes)
    requires |got| <= |before|
    ensures |r| == |before| && r[..|got|] == got && r[|got|..] == before[|got|..]
  {
    got + before[|got|..]
  }

  /** One recv in wiz_recvb, when `got` has come off the stream after `stream` and fills the front of
      the buffer; `all` has afterwards. */
  method RecvMore(driver: SocketDriver.Driver, sn: nat, buf: array<byte>, at: nat, len: u16, patience: nat,
                  ghost stream: bytes, ghost before: bytes, ghost got: bytes)
      returns (done: bool, ret: int, ghost all: bytes)
    requires driver.Valid() && sn < SocketBits.SOCK_NUM && at + len <= buf.Length == |before|
    requires |got| == at && buf[..] == Filled(before, got) && driver.chip.socks[sn].taken == stream + got
    modifies driver, driver.chip, buf
    ensures driver.Valid() && driver.OthersKept(sn) && driver.Quiet(sn)
    ensures driver.chip.socks[sn].sent == old(driver.chip.socks[sn].sent)
    ensures |got| <= |all| <= |got| + len && buf[..] == Filled(before, all) && driver.chip.socks[sn].taken == stream + all
    ensures |all| == |got| + if done && ret >= 0 then ret else 0
    ensures driver.calls == if done then SocketDriver.Received(old(driver.calls), sn, [ret]) else old(driver.calls)
  {
    hide SocketDriver.SocketOk, SocketDriver.RecvAnswer, SocketDriver.StreamKept, Filled, SocketDriver.SplicedIn;
    done, ret := driver.RecvBytes(sn, buf, at, len, patience);
    ghost var data := buf[at..at + if done && ret > 0 then ret else 0];
    all := got + data;
    SplicedIsFilled(before, got, data, buf[..]);
    assert stream + got + data == stream + all;
  }

  lemma SplicedIsFilled(before: bytes, got: bytes, data: bytes, after: bytes)
    requires |got| + |data| <= |before| && SocketDriver.SplicedIn(Filled(before, got), after, |got|, |data|)
    requires after[|got|..|got| + |data|] == data
    ensures after == Filled(before, got + data)
  {
    assert after == after[..|got|] + data + after[|got| + |data|..];
  }

  /** What wiz_recvb answers after recv's answers: the size, with no more than four errors on the way,
      or, on the fifth error, what has been received, if anything, and otherwise that error. */
  predicate GivesUpOnFifth(answers: seq<int>, size: nat, ret: int) {
    && answers != []
    && if Errors(answers) <= MAX_RETRY + 1 then ret == size == Moved(answers)
       else
         && Errors(answers) == MAX_RETRY + 2 && answers[|answers| - 1] < 0
         && Moved(answers) < size
         && ret == if Moved(answers) > 0 then Moved(answers) else answers[|answers| - 1]
  }

  /** wiz_recvb: receives until nothing remains, waiting out up to four errors. What recv's answers
      have moved is the next bytes of the stream and stands at the front of the buffer. */
  method WizRecvb(driver: SocketDriver.Driver, sn: nat, buf: array<byte>, size: nat, patience: nat)
      returns (done: bool, ret: int, ghost got: bytes, ghost answers: seq<int>)
    requires driver.Valid() && sn < SocketBits.SOCK_NUM && size <= buf.Length
    modifies driver, driver.chip, buf
    ensures driver.Valid() && driver.OthersKept(sn) && driver.Quiet(sn)
    ensures driver.calls == SocketDriver.Received(old(driver.calls), sn, answers)
    ensures driver.chip.socks[sn].taken == old(driver.chip.socks[sn].taken) + got
    ensures driver.chip.socks[sn].sent == old(driver.chip.socks[sn].sent)
    ensures |got| == Moved(answers) <= size && buf[..] == Filled(old(buf[..]), got)
    ensures done ==> GivesUpOnFifth(answers, size, ret)
    ensures done && ret == size ==> size < 0x1_0000
    ensures !done ==> Errors(answers) <= MAX_RETRY + 1
  {
    hide SocketDriver.SocketOk, SocketDriver.StreamKept;
    ret, got, answers := 0, [], [];
    var recvSize, remainSize, retryCount := 0, size, 0;
    ghost var high, stream, before, log := size / 0x1_0000, driver.chip.socks[sn].taken, buf[..], driver.calls;
    ghost var r := driver.chip.socks[sn];
    SocketDriver.LogsChain(log, sn, [], []);
    SocketDriver.StreamStays(r);
    for rounds := 0 to patience
      invariant driver.Valid() && driver.OthersKept(sn) && driver.Quiet(sn)
      invariant recvSize + remainSize == size && recvSize == |got| == Moved(answers)
      invariant Errors(answers) == retryCount <= MAX_RETRY + 1
      invariant if rounds == 0 then recvSize == 0 && retryCount == 0 else remainSize > 0
      invariant 0x1_0000 * high <= remainSize < 0x1_0000 * (high + 1)
      invariant driver.calls == SocketDriver.Received(log, sn, answers)
      invariant driver.chip.socks[sn].taken == stream + got
      invariant driver.chip.socks[sn].sent == old(driver.chip.socks[sn].sent)
      invariant buf[..] == Filled(before, got)
    {
      LowPart(remainSize, high);
      ghost var r1 := driver.chip.socks[sn];
      done, ret, got := RecvMore(driver, sn, buf, recvSize, Trunc16(remainSize), patience, stream, before, got);
      SocketDriver.StreamChain(r, r1, driver.chip.socks[sn]);
      if !done {
        return;
      }
      OneAnswerMore(answers, ret);
      SocketDriver.LogsChain(log, sn, answers, [ret]);
      answers := answers + [ret];
      if ret < 0 {
        if retryCount <= MAX_RETRY {
          retryCount := retryCount + 1;
          if remainSize <= 0 {
            return true, recvSize, got, answers;
          }
        } else {
          if recvSize > 0 {
            ret := recvSize;
          }
          return;
        }
      } else {
        remainSize := remainSize - ret;
        recvSize := recvSize + ret;
        if remainSize <= 0 {
          return true, recvSize, got, answers;
        }
      }
    }
    return false, 0, got, answers;
  }

  /** send_tcp_packet3: success means exactly the packet's wire form has been handed over, and that no
      send has failed. */
  method SendTcpPacket(driver: SocketDriver.Driver, sn: nat, p: PacketRec, patience: nat)
      returns (done: bool, ret: int, ghost sent: nat, ghost answers: seq<int>)
    requires driver.Valid() && sn < SocketBits.SOCK_NUM && p.Valid()
    modifies driver, driver.chip
    ensures driver.Valid() && driver.OthersKept(sn) && driver.Quiet(sn)
    ensures driver.calls == SocketDriver.Sent(old(driver.calls), sn, answers)
    ensures sent <= |Wire(p.View())|
    ensures driver.chip.socks[sn].sent == old(driver.chip.socks[sn].sent) + Wire(p.View())[..sent]
    ensures driver.chip.socks[sn].taken == old(driver.chip.socks[sn].taken)
    ensures done ==> ret in {0, -1, -2} && (ret == 0 <==> sent == |Wire(p.View())|) && (ret == 0 <==> Errors(answers) == 0)
    ensures done ==> (ret == -1 <==> sent < HEADER_SIZE)
    ensures old(SocketDriver.NeverWaits(driver.View(sn), driver.chip.socks[sn])) && patience > 0 ==>
              !done ==> |answers| >= patience
  {
    hide SocketDriver.SocketOk, SocketDriver.StreamKept;
    ghost var wire, log, r := Wire(p.View()), driver.calls, driver.chip.socks[sn];
    done, ret, sent, answers := WizSendb(driver, sn, p.header, HEADER_SIZE, patience);
    assert p.header[..sent] == wire[..sent];
    SentOrFailed(answers, ret);
    if !done {
      return;
    }
    if ret < 0 || ret != HEADER_SIZE {
      return true, -1, sent, answers;
    }
    if p.dataSize > 0 {
      ghost var more, rest, r1 := 0, [], driver.chip.socks[sn];
      done, ret, more, rest := WizSendb(driver, sn, p.data, p.dataSize, patience);
      SocketDriver.LogsChain(log, sn, answers, rest);
      SocketDriver.StreamChain(r, r1, driver.chip.socks[sn]);
      AnswersTogether(answers, rest);
      SentOrFailed(rest, ret);
      sent, answers := HEADER_SIZE + more, answers + rest;
      assert wire[..HEADER_SIZE] + p.data[..more] == wire[..sent];
      if !done {
        return;
      }
      if ret < 0 || ret != p.dataSize {
        return true, -2, sent, answers;
      }
    }
    return true, 0, sent, answers;
  }

  lemma SentOrFailed(answers: seq<int>, ret: int)
    ensures EndsWithFirstError(answers, ret) ==> Errors(answers) == if ret < 0 then 1 else 0
  {
  }
}
