/**
 recv_tcp_packet3 over a socket: the header buffer, the counter, the mode and the pending packet are
 the function's statics, and every byte comes from the socket layer's recv.
 */
module Receiver {
  import opened Bytes
  import opened PacketCodec
  import opened Framing
  import opened TcpPacket
  import Chip
  import SocketBits
  import SocketDriver

  datatype Mode = RecvHeader | RecvData

  class PacketReceiver {
    const edition: Edition
    const header: array<byte>
    var receivedSize: nat
    var mode: Mode
    var packet: PacketRec?
    /** Set once the copy from in front of the header buffer has been made. */
    var undefined: bool
    /** Everything received since the start, and every packet handed out. */
    ghost var read: bytes
    ghost var emitted: seq<Packet>

    /** The statics and the memory they own. */
    ghost function Footprint(): set<object>
      reads this
    {
      {this, header} + (if packet == null then {} else {packet, packet.header, packet.data})
    }

    /** A pending packet is the one there was, or new. */
    twostate predicate Owned()
      reads this
    {
      packet == null || packet == old(packet) || (fresh(packet) && fresh(packet.header) && fresh(packet.data))
    }

    ghost predicate Valid()
      reads this, Footprint()
    {
      && header.Length == HEADER_SIZE
      && (undefined ||
          match mode
          case RecvHeader => receivedSize < HEADER_SIZE && packet == null
          case RecvData =>
            && packet != null && packet.Valid() && receivedSize < packet.dataSize
            && packet.header != header && packet.data != header
            && IsHeader(packet.header[..]) && FromHeader(packet.View())
            && HeaderDataSize(packet.header[..]) == packet.dataSize)
    }

    /** The statics as a state of the parsing machine. */
    function State(): Reader
      requires Valid()
      reads this, Footprint()
    {
      if undefined then Undefined
      else match mode
        case RecvHeader => InHeader(header[..receivedSize])
        case RecvData => InData(packet.header[..], packet.data[..receivedSize])
    }

    /** The packets handed out and the statics are what the parser makes of everything received. */
    ghost predicate Consistent()
      requires Valid()
      reads this, Footprint()
    {
      Agrees(edition, State(), emitted, read)
    }

    constructor (e: Edition)
      ensures Valid() && Consistent() && read == [] && emitted == [] && State() == START && edition == e && fresh(header)
    {
      edition := e;
      header := new byte[HEADER_SIZE](_ => 0);
      receivedSize := 0;
      mode := RecvHeader;
      packet := null;
      undefined := false;
      read, emitted := [], [];
    }

    /** recv_tcp_packet3. Over any run of calls, on any connections, the packets handed out are
        those the whole-stream parser finds in everything received. */
    method RecvTcpPacket(driver: SocketDriver.Driver, sn: nat, patience: nat)
        returns (done: bool, p: PacketRec?, ghost slice: bytes)
      requires Valid() && !undefined && driver.Valid() && sn < SocketBits.SOCK_NUM
      modifies Footprint(), driver, driver.chip
      ensures Valid() && driver.Valid() && driver.OthersKept(sn)
      ensures old(Consistent()) ==> Consistent()
      ensures p != null ==> p.Valid() && p != packet && (p == old(packet) || fresh(p)) && slice != []
      ensures read == old(read) + slice && emitted == old(emitted) + (if p == null then [] else [p.View()])
      ensures driver.chip.socks[sn].taken == old(driver.chip.socks[sn].taken) + slice
      ensures driver.chip.socks[sn].sent == old(driver.chip.socks[sn].sent)
      ensures Owned()
      ensures driver.Quiet(sn)
      ensures driver.calls[sn] == old(driver.calls[sn]).(recvs := driver.calls[sn].recvs)
      ensures done && slice == [] ==> NothingToRead(old(driver.chip.socks[sn]), driver.chip.socks[sn])
      ensures old(driver.View(sn).nonblock) && patience > 0 ==> done
    {
      hide SocketDriver.SocketOk, SocketDriver.StreamKept;
      ghost var before := State();
      done, p, slice := OneCall(driver, sn, patience);
      NothingFromNothing(edition, before);
      Record(before, slice, if p == null then [] else [p.View()]);
    }

    /** Notes what a call received and handed out. */
    ghost method Record(before: Reader, slice: bytes, handed: seq<Packet>)
      requires Valid() && ValidReader(before) && !before.Undefined? && |slice| <= Wanted(before)
      requires Outcome(State(), handed) == Step(edition, before, slice)
      modifies this`read, this`emitted
      ensures Valid() && read == old(read) + slice && emitted == old(emitted) + handed
      ensures Agrees(edition, before, old(emitted), old(read)) ==> Consistent()
    {
      if Agrees(edition, before, emitted, read) {
        AgreesAfterStep(edition, before, emitted, read, slice, Outcome(State(), handed));
      }
      read := read + slice;
      emitted := emitted + handed;
    }

    /** One call: recv into whatever is being received, then act if that is complete. `slice` is
        what recv delivered; a call still inside recv has received nothing yet. */
    method OneCall(driver: SocketDriver.Driver, sn: nat, patience: nat)
        returns (done: bool, p: PacketRec?, ghost slice: bytes)
      requires Valid() && !undefined && driver.Valid() && sn < SocketBits.SOCK_NUM
      modifies Footprint(), driver, driver.chip
      ensures Valid() && driver.Valid() && driver.OthersKept(sn)
      ensures read == old(read) && emitted == old(emitted)
      ensures |slice| <= Wanted(old(State()))
      ensures driver.chip.socks[sn].taken == old(driver.chip.socks[sn].taken) + slice
      ensures driver.chip.socks[sn].sent == old(driver.chip.socks[sn].sent)
      ensures p != null ==> p.Valid() && p != packet && (p == old(packet) || fresh(p))
      ensures Owned()
      ensures var o := Step(edition, old(State()), slice);
              State() == o.reader && o.packets == if p == null then [] else [p.View()]
      ensures driver.Quiet(sn)
      ensures driver.calls[sn] == old(driver.calls[sn]).(recvs := driver.calls[sn].recvs)
      ensures done && slice == [] ==> NothingToRead(old(driver.chip.socks[sn]), driver.chip.socks[sn])
      ensures old(driver.View(sn).nonblock) && patience > 0 ==> done
    {
      hide SocketDriver.SocketOk, SocketDriver.StreamKept;
      p, slice := null, [];
      match mode {
        case RecvData =>
          done, p, slice := RecvDataPart(driver, sn, patience);
        case RecvHeader =>
          var n;
          done, n, slice := RecvInto(driver, sn, header, receivedSize, HEADER_SIZE - receivedSize, patience);
          receivedSize := receivedSize + n;
          if receivedSize == HEADER_SIZE {
            assert header[..] == header[..receivedSize];
            p := EndWindow();
          }
      }
    }

    /** recv behind what a buffer holds; an error, or a call that is still waiting, delivers nothing
        and leaves the statics alone. */
    method RecvInto(driver: SocketDriver.Driver, sn: nat, buf: array<byte>, at: nat, len: u16, patience: nat)
        returns (done: bool, n: nat, ghost slice: bytes)
      requires driver.Valid() && sn < SocketBits.SOCK_NUM && 0 < len && at + len <= buf.Length
      modifies buf, driver, driver.chip
      ensures driver.Valid() && driver.OthersKept(sn) && driver.Quiet(sn)
      ensures n == |slice| <= len && buf[..at + n] == old(buf[..at]) + slice
      ensures forall i :: at + n <= i < buf.Length ==> buf[i] == old(buf[i])
      ensures driver.chip.socks[sn].taken == old(driver.chip.socks[sn].taken) + slice
      ensures driver.chip.socks[sn].sent == old(driver.chip.socks[sn].sent)
      ensures driver.calls[sn] == old(driver.calls[sn]).(recvs := driver.calls[sn].recvs)
      ensures done && slice == [] ==> NothingToRead(old(driver.chip.socks[sn]), driver.chip.socks[sn])
      ensures old(driver.View(sn).nonblock) && patience > 0 ==> done
    {
      hide SocketDriver.SocketOk, SocketDriver.StreamKept, SocketDriver.RecvAnswer, NothingToRead;
      ghost var r, nonblock := driver.chip.socks[sn], driver.View(sn).nonblock;
      n, slice := 0, [];
      ghost var got := buf[..at];
      var ret;
      done, ret := driver.RecvBytes(sn, buf, at, len, patience);
      assert buf[..at] == got;
      if done && ret <= 0 {
        AnswerExplains(ret, len, nonblock, r, driver.chip.socks[sn]);
      }
      if done && ret >= 0 {
        n, slice := ret, buf[at..at + ret];
        assert buf[..at + ret] == got + slice;
      }
    }

    method RecvDataPart(driver: SocketDriver.Driver, sn: nat, patience: nat)
        returns (done: bool, p: PacketRec?, ghost slice: bytes)
      requires Valid() && !undefined && mode == RecvData && driver.Valid() && sn < SocketBits.SOCK_NUM
      modifies this, header, packet, packet.data, driver, driver.chip
      ensures Valid() && driver.Valid() && driver.OthersKept(sn)
      ensures read == old(read) && emitted == old(emitted)
      ensures |slice| <= Wanted(old(State()))
      ensures driver.chip.socks[sn].taken == old(driver.chip.socks[sn].taken) + slice
      ensures driver.chip.socks[sn].sent == old(driver.chip.socks[sn].sent)
      ensures p != null ==> p.Valid() && p == old(packet) && packet == null
      ensures p == null ==> packet == old(packet)
      ensures var o := Step(edition, old(State()), slice);
              State() == o.reader && o.packets == if p == null then [] else [p.View()]
      ensures driver.Quiet(sn)
      ensures driver.calls[sn] == old(driver.calls[sn]).(recvs := driver.calls[sn].recvs)
      ensures done && slice == [] ==> NothingToRead(old(driver.chip.socks[sn]), driver.chip.socks[sn])
      ensures old(driver.View(sn).nonblock) && patience > 0 ==> done
    {
      hide SocketDriver.SocketOk, SocketDriver.StreamKept;
      p := null;
      var n;
      done, n, slice := RecvInto(driver, sn, packet.data, receivedSize, packet.dataSize - receivedSize, patience);
      receivedSize := receivedSize + n;
      if receivedSize < packet.dataSize {
        return;
      }
      p := EndPacket();
    }

    /** What follows once a packet's data is complete. */
    method EndPacket() returns (p: PacketRec)
      requires header.Length == HEADER_SIZE && !undefined && mode == RecvData
      requires packet != null && packet.Valid() && packet.header != header && packet.data != header
      requires FromHeader(packet.View())
      modifies this, header, packet
      ensures Valid() && State() == START && packet == null && read == old(read) && emitted == old(emitted)
      ensures p == old(packet) && p.Valid()
      ensures p.View() == FromWire(old(packet.header[..]), old(packet.data[..packet.dataSize]))
    {
      p := packet;
      p.FillDataField();
      packet := null;
      mode := RecvHeader;
      ClearHeader();
    }

    method ClearHeader()
      requires header.Length == HEADER_SIZE
      modifies header, this`receivedSize
      ensures receivedSize == 0
    {
      forall i | 0 <= i < HEADER_SIZE {
        header[i] := 0;
      }
      receivedSize := 0;
    }

    /** What follows once the header buffer is full. */
    method EndWindow() returns (p: PacketRec?)
      requires header.Length == HEADER_SIZE && !undefined && mode == RecvHeader && packet == null
      requires receivedSize == HEADER_SIZE
      modifies this, header
      ensures Valid() && read == old(read) && emitted == old(emitted)
      ensures p != null ==> p.Valid() && p != packet && fresh(p)
      ensures packet == null || (fresh(packet) && fresh(packet.header) && fresh(packet.data))
      ensures var o := Window(edition, old(header[..]));
              State() == o.reader && o.packets == if p == null then [] else [p.View()]
    {
      p := null;
      ghost var h := header[..];
      if IsHeader(header[..]) {
        var dataSize := HeaderDataSize(header[..]);
        p := new PacketRec(header[..]);
        if dataSize > 0 {
          packet := p;
          p := null;
          mode := RecvData;
        }
        ClearHeader();
      } else {
        var start := ContainsFragment(edition, header[..]);
        if start < 0 {
          undefined := true;
        } else if start == 0 {
          ClearHeader();
        } else {
          forall i | 0 <= i < HEADER_SIZE - start {
            header[i] := header[start + i];
          }
          receivedSize := receivedSize - start;
          assert header[..receivedSize] == h[start..];
        }
      }
    }
  }

  /** A call that receives nothing hands out nothing. */
  lemma NothingFromNothing(e: Edition, r: Reader)
    requires ValidReader(r) && !r.Undefined?
    ensures Step(e, r, []).packets == []
  {
  }

  /** Why a call of recv on a TCP socket delivers nothing: nothing was there, or the chip itself has shown
      that the connection is gone. */
  predicate NothingToRead(before: Chip.Regs, after: Chip.Regs) {
    || before.rx == [] || before.rxMax == 0
    || SocketDriver.ChipLeft(before, after) || Chip.Protocol(after.mr) != Chip.MR_TCP
  }

  /** recv's answers say so. */
  lemma AnswerExplains(ret: int, len: u16, nonblock: bool, r: Chip.Regs, r': Chip.Regs)
    requires SocketDriver.RecvAnswer(ret, len, nonblock, r, r') && len > 0 && ret <= 0 && r'.mr == r.mr
    ensures NothingToRead(r, r')
  {
    if r.rx != [] && r.rxMax > 0 && Chip.Protocol(r.mr) == Chip.MR_TCP {
      var i := |r'.seen| - 1;
      assert !SocketDriver.HasConnection(r'.seen[i].sr);
    }
  }

  /** The fields read off the header agree with it. */
  ghost predicate FromHeader(p: Packet) {
    && |p.header| == HEADER_SIZE && |p.data| == p.dataSize == HeaderDataSize(p.header)
    && p.version == p.header[2] && p.flag == p.header[3] && p.kind == p.header[4]
  }
}
