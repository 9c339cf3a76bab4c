/**
 Reassembly of a file sent in numbered fragments: receive_bigfile_from_packet with its statics as a
 state machine. Three kinds of message drive it, START (id, name, size, count), FRAG (id, number,
 length, bytes) and END (id, checksum type).

 `Undefined` marks the places where the C code leaves its memory: reading the length behind a
 fragment number that has no terminator (the test there looks at the wrong pointer; `AsDocumented`
 rejects instead, as the message it prints says), and writing past the transfer record, which is too
 small only when the size of its allocation wrapped: the name at once, or fragments later.
 */
module BigFile {
  import opened Bytes
  import opened PacketCodec
  import opened Decimal
  import Framing

  type Edition = Framing.Edition

  /** sizeof(struct bigfile_recv_rec) on the 32-bit target, and the offset of its last member, which
      the name and the contents fill. */
  const RECORD_SIZE := 24
  const BUF_OFFSET := 21

  /** A packet as receive_bigfile_from_packet gets it: `body` is the extracted contents, `past` the
      memory behind them, the flags whether the two allocations on the way succeed. */
  datatype Message = Message(kind: byte, body: bytes, past: bytes, heapForBody: bool, heapForFile: bool)

  /** What the three strings of a START say. */
  datatype Announcement = Announcement(id: byte, name: bytes, size: u32, count: u32)

  datatype Fragment = Fragment(number: u32, data: bytes)

  /** A FRAG body: a length that does not match, a number without a terminator, or a fragment. */
  datatype FragBody = Malformed | Unterminated(number: u32) | Whole(fragment: Fragment)

  /** A packet once read: a START that opens a transfer or fails to, a fragment, an END, contents
      that could not be extracted, or a packet that is none of these. */
  datatype Input = Start(announced: Option<Announcement>) | Frag(id: byte, body: FragBody)
                 | End(id: byte, checksumType: byte) | Lost | Other

  /** Which out parameters the caller passes, and whether the allocations for copying the name and
      the contents succeed. */
  datatype Want = Want(size: bool, name: bool, file: bool, heapForName: bool, heapForCopy: bool)

  const ALL := Want(true, true, true, true, true)

  predicate TakesAll(want: Want) {
    want.size && want.name && want.file
  }

  datatype Event = Receive(input: Input, want: Want) | Extract(want: Want)

  /** `struct bigfile_recv_rec`; `contents` is the whole contents region. */
  datatype Big = Big(name: bytes, contents: bytes, size: u32, count: u32, next: u32, id: byte)

  /** The function's statics: `cursor` is p_contents as an offset into the region. */
  datatype State = State(big: Option<Big>, remainSize: u32, remainCount: u32, cursor: nat)

  const INITIAL := State(None, 0, 0, 0)

  /** Return codes -1 and 1, the delivery of a file with code 0, or leaving the C semantics. */
  datatype Reply = Rejected | Receiving | Delivered(file: File) | Undefined

  datatype File = File(size: Option<u32>, name: Option<bytes>, contents: Option<bytes>)

  function ByteAt(mem: bytes, i: nat): byte {
    if i < |mem| then mem[i] else 0
  }

  /** memchr for the terminator over `len` bytes from `from`, as an index into memory. */
  function Scan(mem: bytes, from: nat, len: nat): (at: Option<nat>)
    ensures at.Some? ==> from <= at.value < from + len && at.value < |mem|
    decreases len
  {
    if len == 0 || from >= |mem| then None
    else if mem[from] == 0 then Some(from)
    else Scan(mem, from + 1, len - 1)
  }

  /** It finds the first terminator of the range, and none exactly when there is none. */
  lemma {:induction false} ScanIsFirst(mem: bytes, from: nat, len: nat)
    ensures var at := Scan(mem, from, len);
            var end := Min(from + len, |mem|);
            if at.Some? then mem[at.value] == 0 && 0 !in mem[from..at.value]
            else from < end ==> 0 !in mem[from..end]
    decreases len
  {
    if len > 0 && from < |mem| && mem[from] != 0 {
      ScanIsFirst(mem, from + 1, len - 1);
      var end := Min(from + len, |mem|);
      assert mem[from..end] == [mem[from]] + mem[from + 1..end];
      var at := Scan(mem, from + 1, len - 1);
      if at.Some? {
        assert mem[from..at.value] == [mem[from]] + mem[from + 1..at.value];
      }
    }
  }

  // ---------------------------------------------------------------------------------------
  // Reading a packet.

  /** Where the size and the count of a START begin. The searches for the second and third
      terminator run past the contents by the length of what was already read. */
  function FindStrings(mem: bytes, n: nat): (at: Option<(nat, nat)>)
    requires 0 < n <= |mem|
    ensures at.Some? ==> 1 < at.value.0 < at.value.1 <= |mem|
  {
    var nameEnd := Scan(mem, 1, n - 1);
    if nameEnd.None? then None
    else
      var reach := n - nameEnd.value;
      var sizeEnd := Scan(mem, nameEnd.value + 1, reach);
      if sizeEnd.None? then None
      else if Scan(mem, sizeEnd.value + 1, reach).None? then None
      else Some((nameEnd.value + 1, sizeEnd.value + 1))
  }

  /** The three terminated strings behind the id. */
  function ReadStart(msg: Message): Option<Announcement>
    requires msg.body != []
  {
    var mem := msg.body + msg.past;
    match FindStrings(mem, |msg.body|)
    case None => None
    case Some((sizeAt, countAt)) =>
      Some(Announcement(mem[0], mem[1..sizeAt - 1], Trunc32(Atoi(mem[sizeAt..])), Trunc32(Atoi(mem[countAt..]))))
  }

  function ReadFrag(msg: Message): FragBody
    requires msg.body != []
  {
    var mem, n := msg.body + msg.past, |msg.body|;
    match Scan(mem, 1, n - 1)
    case None => Unterminated(Trunc32(Atoi(mem[1..])))
    case Some(end) =>
      var size := FromLe16(ByteAt(mem, end + 1), ByteAt(mem, end + 2));
      if size == n - (end + 3) then Whole(Fragment(Trunc32(Atoi(mem[1..])), msg.body[end + 3..]))
      else Malformed
  }

  /** A message without a body is a packet with no data. */
  function Read(msg: Message): Input {
    if msg.body == [] then Other
    else if msg.kind == TYPE_BIGFILE_START then
      Start(if msg.heapForBody && msg.heapForFile then ReadStart(msg) else None)
    else if msg.kind != TYPE_BIGFILE_FRAG && msg.kind != TYPE_BIGFILE_END then Other
    else if !msg.heapForBody then Lost
    else if msg.kind == TYPE_BIGFILE_FRAG then Frag(msg.body[0], ReadFrag(msg))
    else End(msg.body[0], ByteAt(msg.body + msg.past, 1))
  }

  // ---------------------------------------------------------------------------------------
  // The state machine.

  /** The size a transfer record is allocated with, computed in 32 bits. */
  function Allocated(nameLen: nat, size: u32): u32 {
    Trunc32(RECORD_SIZE + nameLen + size + 4)
  }

  /** Whether the record holds the name and its terminator. */
  predicate HoldsName(nameLen: nat, size: u32) {
    Allocated(nameLen, size) >= BUF_OFFSET + nameLen + 1
  }

  /** Bytes behind the name in a record allocated for a file of `size` bytes. */
  function Capacity(nameLen: nat, size: u32): nat {
    if HoldsName(nameLen, size) then Allocated(nameLen, size) - BUF_OFFSET - nameLen - 1 else 0
  }

  function NewBig(a: Announcement): Big {
    Big(a.name, Zeros(Capacity(|a.name|, a.size)), a.size, a.count, 0, a.id)
  }

  /** The statics once a fragment is looked at: set up afresh before the first one is accepted. */
  function Prepared(st: State): State
    requires st.big.Some?
  {
    var b := st.big.value;
    if b.next == 0 then st.(remainSize := b.size, remainCount := b.count, cursor := 0) else st
  }

  /** A fragment body checked against the counters. */
  function TakePrepared(e: Edition, s: State, body: FragBody): (State, Reply)
    requires s.big.Some?
  {
    var b := s.big.value;
    if s.remainCount == 0 then (s, Rejected)
    else
      match body
      case Malformed => (s, Rejected)
      case Unterminated(number) =>
        if e.AsDocumented? || number != b.next then (s, Rejected) else (s, Undefined)
      case Whole(f) =>
        if f.number != b.next || |f.data| > s.remainSize then (s, Rejected)
        else if s.cursor + |f.data| > |b.contents| then (s, Undefined)
        else
          (State(Some(b.(contents := Splice(b.contents, s.cursor, f.data), next := Trunc32(b.next + 1))),
                 s.remainSize - |f.data|, s.remainCount - 1, s.cursor + |f.data|), Receiving)
  }

  /** A fragment body for the open transfer. */
  function TakeFrag(e: Edition, st: State, body: FragBody): (State, Reply)
    requires st.big.Some?
  {
    TakePrepared(e, Prepared(st), body)
  }

  /** extract_bigfile, and the release of the record once everything has been taken; an allocation
      that fails on the way keeps the transfer open. */
  function TakeFile(st: State, want: Want): (State, Reply)
    requires st.big.Some?
  {
    var b := st.big.value;
    if b.count != b.next then (st, Rejected)
    else if want.name && !want.heapForName then (st, Rejected)
    else if want.file && !want.heapForCopy then (st, Rejected)
    else if want.file && b.size > |b.contents| then (st, Undefined)
    else
      (if TakesAll(want) then st.(big := None) else st,
       Delivered(File(if want.size then Some(b.size) else None,
                      if want.name then Some(b.name) else None,
                      if want.file then Some(b.contents[..b.size]) else None)))
  }

  function TakeEnd(st: State, checksumType: byte, want: Want): (State, Reply)
    requires st.big.Some?
  {
    if st.remainSize > 0 || st.remainCount > 0 then (st.(big := None), Rejected)
    else if checksumType != 0 then (st.(big := None), Rejected)
    else TakeFile(st, want)
  }

  /** receive_bigfile_from_packet. */
  function Step(e: Edition, st: State, ev: Event): (State, Reply) {
    match ev
    case Extract(want) =>
      if st.big.Some? && (want.size || want.name || want.file) then TakeFile(st, want) else (st, Rejected)
    case Receive(input, want) =>
      match input
      case Other => (st, Rejected)
      case Start(None) => (st.(big := None), Rejected)
      case Start(Some(a)) =>
        if HoldsName(|a.name|, a.size) then (st.(big := Some(NewBig(a))), Receiving) else (st.(big := None), Undefined)
      case Lost => (st.(big := None), Rejected)
      case Frag(id, body) =>
        if st.big.None? || id != st.big.value.id then (st, Rejected) else TakeFrag(e, st, body)
      case End(id, checksumType) =>
        if st.big.None? || id != st.big.value.id then (st, Rejected) else TakeEnd(st, checksumType, want)
  }

  /** A run stops at the first undefined step. */
  function Run(e: Edition, st: State, evs: seq<Event>): (State, seq<Reply>)
    decreases |evs|
  {
    if evs == [] then (st, [])
    else
      var (st', r) := Step(e, st, evs[0]);
      if r.Undefined? then (st', [r])
      else var (st'', rs) := Run(e, st', evs[1..]); (st'', [r] + rs)
  }
}
