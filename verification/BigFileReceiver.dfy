/**
 receive_bigfile_from_packet in place: its statics are this object's fields, and fragments are
 copied into the record's contents region.
 */
module BigFileReceiver {
  import opened Bytes
  import opened PacketCodec
  import opened Decimal
  import opened BigFile

  class BigRec {
    const name: bytes
    const contents: array<byte>
    const size: u32
    const count: u32
    const id: byte
    var next: u32

    /** A zeroed record for an announced file. */
    constructor (a: Announcement)
      ensures fresh(contents) && contents.Length == Capacity(|a.name|, a.size)
      ensures Value() == NewBig(a)
    {
      name, size, count, id, next := a.name, a.size, a.count, a.id, 0;
      contents := new byte[Capacity(|a.name|, a.size)](_ => 0);
      new;
      assert contents[..] == Zeros(contents.Length);
    }

    function Value(): Big
      reads this, contents
    {
      Big(name, contents[..], size, count, next, id)
    }
  }

  class FileReceiver {
    const edition: Edition
    var big: BigRec?
    var remainSize: u32
    var remainCount: u32
    var cursor: nat

    /** The statics and the memory they own. */
    ghost function Footprint(): set<object>
      reads this
    {
      {this} + (if big == null then {} else {big, big.contents})
    }

    /** An open transfer is the one there was, or new. */
    twostate predicate Owned()
      reads this
    {
      big == null || big == old(big) || (fresh(big) && fresh(big.contents))
    }

    function State(): BigFile.State
      reads this, Footprint()
    {
      BigFile.State(if big == null then None else Some(big.Value()), remainSize, remainCount, cursor)
    }

    constructor (e: Edition)
      ensures State() == INITIAL && edition == e
    {
      edition := e;
      big := null;
      remainSize, remainCount, cursor := 0, 0, 0;
    }

    /** receive_bigfile_from_packet with a packet, whose contents have a 16-bit length. */
    method ReceivePacket(msg: Message, want: Want) returns (reply: Reply)
      requires |msg.body| < 0x1_0000
      modifies Footprint()
      ensures (State(), reply) == Step(edition, old(State()), Receive(Read(msg), want))
      ensures Owned()
    {
      if msg.body == [] {
        return Rejected;
      }
      if msg.kind == TYPE_BIGFILE_START {
        big := null;
        if !msg.heapForBody || !msg.heapForFile {
          return Rejected;
        }
        var a := ReadStart(msg);
        if a.None? {
          return Rejected;
        }
        if !HoldsName(|a.value.name|, a.value.size) {
          return Undefined;
        }
        big := new BigRec(a.value);
        return Receiving;
      }
      if msg.kind != TYPE_BIGFILE_FRAG && msg.kind != TYPE_BIGFILE_END {
        return Rejected;
      }
      if big == null {
        return Rejected;
      }
      if !msg.heapForBody {
        big := null;
        return Rejected;
      }
      if msg.body[0] != big.id {
        return Rejected;
      }
      if msg.kind == TYPE_BIGFILE_END {
        if remainSize > 0 || remainCount > 0 {
          big := null;
          return Rejected;
        }
        if ByteAt(msg.body + msg.past, 1) != 0 {
          big := null;
          return Rejected;
        }
        reply := ExtractFile(want);
      } else {
        reply := ReceiveFragment(msg);
      }
    }

    /** The same function called without a packet. */
    method ExtractOnly(want: Want) returns (reply: Reply)
      modifies this
      ensures (State(), reply) == Step(edition, old(State()), Extract(want))
    {
      if big != null && (want.size || want.name || want.file) {
        reply := ExtractFile(want);
      } else {
        reply := Rejected;
      }
    }

    method ExtractFile(want: Want) returns (reply: Reply)
      requires big != null
      modifies this`big
      ensures (State(), reply) == TakeFile(old(State()), want)
      ensures big == null || big == old(big)
    {
      if big.count != big.next {
        return Rejected;
      }
      var size, name, file := None, None, None;
      if want.size {
        size := Some(big.size);
      }
      if want.name {
        if !want.heapForName {
          return Rejected;
        }
        name := Some(big.name);
      }
      if want.file {
        if !want.heapForCopy {
          return Rejected;
        }
        if big.size > big.contents.Length {
          return Undefined;
        }
        file := Some(big.contents[..big.size]);
      }
      if want.size && want.name && want.file {
        big := null;
      }
      return Delivered(File(size, name, file));
    }

    method ReceiveFragment(msg: Message) returns (reply: Reply)
      requires big != null && msg.body != [] && |msg.body| < 0x1_0000
      modifies this`remainSize, this`remainCount, this`cursor, big, big.contents
      ensures (State(), reply) == TakeFrag(edition, old(State()), ReadFrag(msg))
    {
      if big.next == 0 {
        remainSize, remainCount, cursor := big.size, big.count, 0;
      }
      var data;
      reply, data := Judge(msg);
      if reply.Receiving? {
        Store(data);
      }
    }

    /** The checks of a fragment, in the source's order, and its bytes if it passes them all. */
    method Judge(msg: Message) returns (reply: Reply, data: bytes)
      requires big != null && msg.body != [] && |msg.body| < 0x1_0000
      ensures reply == TakePrepared(edition, State(), ReadFrag(msg)).1
      ensures reply.Receiving? ==> ReadFrag(msg).Whole? && data == ReadFrag(msg).fragment.data
    {
      data := [];
      var mem, n := msg.body + msg.past, |msg.body|;
      var end := Scan(mem, 1, n - 1);
      VerdictIsTaken(edition, State(), end, Trunc32(Atoi(mem[1..])), FragSize(mem, end), n, FragData(msg.body, end));
      if remainCount <= 0 {
        return Rejected, [];
      }
      if end.None? && edition.AsDocumented? {
        return Rejected, [];
      }
      var number := Trunc32(Atoi(mem[1..]));
      if number != big.next {
        return Rejected, [];
      }
      if end.None? {
        return Undefined, [];
      }
      reply, data := JudgeSize(msg.body, end.value + 1, FragSize(mem, end));
    }

    method JudgeSize(body: bytes, at: nat, size: u16) returns (reply: Reply, data: bytes)
      requires big != null && at <= |body| < 0x1_0000
      ensures reply == SizeVerdict(remainSize, cursor, big.contents.Length, |body|, at, size)
      ensures reply.Receiving? ==> at + SIZE_LEN <= |body| && data == body[at + SIZE_LEN..]
    {
      if size > remainSize {
        return Rejected, [];
      }
      var from := at + SIZE_LEN;
      if size != Trunc32(|body| - from) {
        return Rejected, [];
      }
      if cursor + size > big.contents.Length {
        return Undefined, [];
      }
      return Receiving, body[from..];
    }

    /** Copies an accepted fragment behind the ones before it and moves the cursor and counters. */
    method Store(data: bytes)
      requires big != null && |data| <= remainSize && remainCount > 0
      requires cursor + |data| <= big.contents.Length
      modifies this`remainSize, this`remainCount, this`cursor, big, big.contents
      ensures var st := old(State()); var b := st.big.value;
              State() == BigFile.State(
                Some(b.(contents := Splice(b.contents, st.cursor, data), next := Trunc32(b.next + 1))),
                st.remainSize - |data|, st.remainCount - 1, st.cursor + |data|)
    {
      ghost var region := big.contents[..];
      forall i | 0 <= i < |data| {
        big.contents[cursor + i] := data[i];
      }
      assert big.contents[..] == Splice(region, cursor, data);
      cursor := cursor + |data|;
      remainCount := remainCount - 1;
      remainSize := remainSize - |data|;
      big.next := Trunc32(big.next + 1);
    }
  }

  /** The answer to a length field at `at`, in the source's order. */
  function SizeVerdict(remainSize: u32, cursor: nat, room: nat, n: nat, at: nat, size: u16): Reply {
    if size > remainSize || size != Trunc32(n - (at + SIZE_LEN)) then Rejected
    else if cursor + size > room then Undefined
    else Receiving
  }

  /** The length field behind the terminated number, and the bytes behind that. */
  function FragSize(mem: bytes, end: Option<nat>): u16 {
    if end.None? then 0 else FromLe16(ByteAt(mem, end.value + 1), ByteAt(mem, end.value + 2))
  }

  function FragData(body: bytes, end: Option<nat>): bytes {
    if end.None? || end.value + 3 > |body| then [] else body[end.value + 3..]
  }

  lemma SizesMatch(n: nat, from: nat, size: u16)
    requires n < 0x1_0000 && from <= n + 2
    ensures size == Trunc32(n - from) <==> size == n - from
  {
  }

  /** The answer to a fragment in the order of the checks, from what its body says. */
  function Verdict(e: Edition, s: BigFile.State, end: Option<nat>, number: u32, size: u16, n: nat): Reply
    requires s.big.Some?
  {
    if s.remainCount == 0 || (end.None? && e.AsDocumented?) || number != s.big.value.next then Rejected
    else if end.None? then Undefined
    else SizeVerdict(s.remainSize, s.cursor, |s.big.value.contents|, n, end.value + 1, size)
  }

  /** It is the one the state machine gives after reading the body as a whole. */
  lemma VerdictIsTaken(e: Edition, s: BigFile.State, end: Option<nat>, number: u32, size: u16, n: nat, rest: bytes)
    requires s.big.Some? && n < 0x1_0000
    requires end.Some? ==> end.value < n && (end.value + 3 <= n ==> |rest| == n - (end.value + 3))
    ensures var body := if end.None? then Unterminated(number)
                        else if size == n - (end.value + 3) then Whole(Fragment(number, rest)) else Malformed;
            && TakePrepared(e, s, body).1 == Verdict(e, s, end, number, size, n)
            && (TakePrepared(e, s, body).1.Receiving? ==> body.Whole?)
  {
    if end.Some? {
      SizesMatch(n, end.value + 3, size);
    }
  }
}
