/**
 Which message bodies the reassembly reads, and as what: for each of the three kinds exactly the bodies
 that are, whatever lies behind them in memory. A body here is the bytes extracted from a packet.
 */
module Messages {
  import opened Bytes
  import opened Decimal
  import opened BigFile
  import opened Transfer
  import BigFileSafety
  import Framing

  // ---------------------------------------------------------------------------------------
  // Kinds.

  /** A body and its kind decide what is read at all: kind 3 is START, 4 a fragment, 5 END; anything else,
      and anything without a body, is passed over. Without heap for the contents a START opens nothing and
      the other two are lost. */
  lemma KindDecides(msg: Message)
    ensures Read(msg).Other? <==> msg.body == [] || !(3 <= msg.kind <= 5)
    ensures Read(msg).Start? <==> msg.body != [] && msg.kind == 3
    ensures Read(msg).Lost? <==> msg.body != [] && 4 <= msg.kind <= 5 && !msg.heapForBody
    ensures Read(msg).Frag? <==> msg.body != [] && msg.kind == 4 && msg.heapForBody
    ensures Read(msg).End? <==> msg.body != [] && msg.kind == 5 && msg.heapForBody
    ensures Read(msg).Start? && !(msg.heapForBody && msg.heapForFile) ==> Read(msg).announced == None
    ensures Read(msg).Frag? ==> Read(msg).id == msg.body[0]
  {
  }

  // ---------------------------------------------------------------------------------------
  // END.

  /** An END is read as its id and its checksum type, whatever follows in the body or behind it. */
  lemma EndIsRead(id: byte, t: byte, rest: bytes, past: bytes, heapForFile: bool)
    ensures Read(Message(5, [id, t] + rest, past, true, heapForFile)) == End(id, t)
  {
    assert ([id, t] + rest + past)[1] == t;
  }

  /** A lone id takes the byte behind it in memory for the type. */
  lemma BareEndIsRead(id: byte, past: bytes, heapForFile: bool)
    ensures Read(Message(5, [id], past, true, heapForFile)) == End(id, if past == [] then 0 else past[0])
  {
  }

  /** The fragments of a transfer from number `k` on. */
  function FragmentsFrom(o: Outgoing, k: nat): seq<Event>
    requires Countable(o) && k <= |o.frags|
    decreases |o.frags| - k
  {
    if k == |o.frags| then []
    else [Receive(Frag(o.id, Whole(Fragment(k, o.frags[k]))), ALL)] + FragmentsFrom(o, k + 1)
  }

  lemma {:induction false} FragmentsAreAccepted(e: Edition, st: State, o: Outgoing, k: nat)
    requires Countable(o) && k <= |o.frags| && st.big.Some? && Halfway(Prepared(st), o, k)
    requires k == |o.frags| ==> Prepared(st) == st
    ensures var (st', rs) := Run(e, st, FragmentsFrom(o, k));
            st'.big.Some? && Halfway(st', o, |o.frags|) && rs == Repeat(Receiving, |o.frags| - k)
    decreases |o.frags| - k
  {
    hide Halfway, Step, Prepared;
    if k < |o.frags| {
      var evs := FragmentsFrom(o, k);
      FragmentStep(e, st, o, k);
      assert evs[0] == EventsFrom(o, k)[0] && evs[1..] == FragmentsFrom(o, k + 1);
      FragmentsAreAccepted(e, Step(e, st, evs[0]).0, o, k + 1);
    }
  }

  /** After START and all its fragments a transfer is open and complete. */
  lemma TransferIsAccepted(e: Edition, st: State, o: Outgoing)
    requires Countable(o)
    ensures var (st', rs) := Run(e, st, [StartEvent(o)] + FragmentsFrom(o, 0));
            st'.big.Some? && Halfway(st', o, |o.frags|) && rs == Repeat(Receiving, |o.frags| + 1)
  {
    var st1 := Step(e, st, StartEvent(o)).0;
    StartsHalfway(e, st, o);
    hide Halfway, Step;
    FragmentsAreAccepted(e, st1, o, 0);
    BigFileSafety.RunStep(e, st, StartEvent(o), FragmentsFrom(o, 0));
  }

  lemma StartsHalfway(e: Edition, st: State, o: Outgoing)
    requires Countable(o)
    ensures var (st', r) := Step(e, st, StartEvent(o));
            r == Receiving && st'.big.Some? && Halfway(Prepared(st'), o, 0)
  {
    var cap := Capacity(|o.name|, |Transfer.Contents(o)|);
    assert Front(o, 0) == [] && [] + Zeros(cap) == Zeros(cap);
  }

  /** An END that asks for a checksum is refused and gives the transfer up, however complete it is. */
  lemma ChecksumIsRefused(e: Edition, st: State, o: Outgoing, t: byte, rest: bytes, past: bytes, h: bool, want: Want)
    requires Countable(o) && t != 0
    ensures var end := Receive(Read(Message(5, [o.id, t] + rest, past, true, h)), want);
            var (st', rs) := Run(e, st, [StartEvent(o)] + FragmentsFrom(o, 0) + [end]);
            st'.big == None && rs == Repeat(Receiving, |o.frags| + 1) + [Rejected]
  {
    var end := Receive(Read(Message(5, [o.id, t] + rest, past, true, h)), want);
    var front := [StartEvent(o)] + FragmentsFrom(o, 0);
    EndIsRead(o.id, t, rest, past, h);
    TransferIsAccepted(e, st, o);
    NoneUndefined(|o.frags| + 1);
    var st' := Run(e, st, front).0;
    assert Step(e, st', end) == (st'.(big := None), Rejected);
    hide Halfway, Step, Read;
    BigFileSafety.RunAppend(e, st, front, [end]);
    BigFileSafety.RunOne(e, st', end);
  }

  lemma {:induction false} NoneUndefined(n: nat)
    ensures forall r :: r in Repeat(Receiving, n) ==> !r.Undefined?
    decreases n
  {
    if n > 0 {
      NoneUndefined(n - 1);
    }
  }

  // ---------------------------------------------------------------------------------------
  // Fragments.

  /** A body that is an id, a terminated number, a 16-bit length and exactly as many bytes. */
  ghost predicate IsFragment(body: bytes, text: bytes, data: bytes) {
    && body != [] && 0 !in text && |data| < 0x1_0000
    && body == [body[0]] + text + [0] + [|data| % 0x100, |data| / 0x100] + data
  }

  /** Where the number of a body ends. */
  lemma NumberEnds(body: bytes, past: bytes, text: bytes, rest: bytes)
    requires body != [] && 0 !in text && body == [body[0]] + text + ([0] + rest)
    ensures Scan(body + past, 1, |body| - 1) == Some(1 + |text|) && Atoi((body + past)[1..]) == Atoi(text)
  {
    var mem := body + past;
    assert mem[1..1 + |text|] == text && mem[1 + |text|] == 0;
    ScanFinds(mem, 1, |body| - 1, text);
    assert mem[1..] == text + ([0] + (rest + past));
    AtoiStops(text, rest + past);
  }

  lemma FragmentReads(msg: Message, text: bytes, data: bytes)
    requires IsFragment(msg.body, text, data)
    ensures ReadFrag(msg) == Whole(Fragment(Trunc32(Atoi(text)), data))
  {
    hide Scan, Atoi;
    var n, i := |data|, 1 + |text|;
    var rest := [n % 0x100, n / 0x100] + data;
    assert msg.body == [msg.body[0]] + text + ([0] + rest);
    NumberEnds(msg.body, msg.past, text, rest);
    var mem := msg.body + msg.past;
    assert mem[i + 1] == n % 0x100 && mem[i + 2] == n / 0x100;
    assert msg.body[i + 3..] == data;
  }

  lemma ReadIsFragment(msg: Message)
    requires msg.body != [] && ReadFrag(msg).Whole?
    ensures var end := Scan(msg.body + msg.past, 1, |msg.body| - 1);
            && end.Some? && end.value < |msg.body|
            && IsFragment(msg.body, msg.body[1..end.value], ReadFrag(msg).fragment.data)
  {
    hide Scan, Atoi;
    var mem, n := msg.body + msg.past, |msg.body|;
    var text := StringFound(mem, 1, n - 1);
    var i, data := 1 + |text|, ReadFrag(msg).fragment.data;
    assert i + 3 <= n && data == msg.body[i + 3..];
    assert mem[..n] == msg.body;
    LengthIs(mem[i + 1], mem[i + 2], |data|);
    Regrouped(msg.body, i, text, data);
  }

  lemma LengthIs(lo: byte, hi: byte, n: nat)
    requires FromLe16(lo, hi) == n
    ensures n < 0x1_0000 && [lo, hi] == [n % 0x100, n / 0x100]
  {
  }

  lemma Regrouped(body: bytes, i: nat, text: bytes, data: bytes)
    requires 0 < i && i + 3 <= |body| && text == body[1..i] && body[i] == 0 && data == body[i + 3..]
    ensures body == [body[0]] + text + [0] + [body[i + 1], body[i + 2]] + data
  {
  }

  /** Main result: a body is read as a fragment exactly when it is the encoding of one, with its number in
      any text; its bytes are those, and its number is what that text says. */
  lemma FragmentIsReadIff(msg: Message, f: Fragment)
    requires msg.body != []
    ensures ReadFrag(msg) == Whole(f) <==>
            exists text :: IsFragment(msg.body, text, f.data) && f.number == Trunc32(Atoi(text))
  {
    if ReadFrag(msg) == Whole(f) {
      ReadIsFragment(msg);
      var end := Scan(msg.body + msg.past, 1, |msg.body| - 1).value;
      FragmentReads(msg, msg.body[1..end], f.data);
    }
    if text :| IsFragment(msg.body, text, f.data) && f.number == Trunc32(Atoi(text)) {
      FragmentReads(msg, text, f.data);
    }
  }

  /** The number has no terminator exactly when the body has none. */
  lemma UnterminatedIff(msg: Message)
    requires msg.body != []
    ensures ReadFrag(msg).Unterminated? <==> 0 !in msg.body[1..]
    ensures ReadFrag(msg).Unterminated? ==> ReadFrag(msg).number == Trunc32(Atoi((msg.body + msg.past)[1..]))
  {
    var mem, n := msg.body + msg.past, |msg.body|;
    ScanIsFirst(mem, 1, n - 1);
    assert mem[1..n] == msg.body[1..];
    if Scan(mem, 1, n - 1).Some? {
      var i := Scan(mem, 1, n - 1).value;
      assert msg.body[1..][i - 1] == 0;
    }
  }

  // ---------------------------------------------------------------------------------------
  // START.

  /** Memory that begins with an id and three terminated strings. The first must end inside the body, of
      `n` bytes; the other two only within as many bytes as the body has behind the first. */
  ghost predicate IsStart(mem: bytes, n: nat, name: bytes, size: bytes, count: bytes) {
    && 0 !in name && 0 !in size && 0 !in count
    && 0 < n <= |mem| && 1 + |name| < n && |size| < n - 1 - |name| && |count| < n - 1 - |name|
    && StringsAt(mem, name, 2 + |name|, size, 3 + |name| + |size|, count)
  }

  /** A string that stands in memory is found and read. */
  lemma StringStands(mem: bytes, from: nat, len: nat, text: bytes)
    requires 0 !in text && |text| < len && from + |text| < |mem|
    requires mem[from..from + |text|] == text && mem[from + |text|] == 0
    ensures Scan(mem, from, len) == Some(from + |text|) && Atoi(mem[from..]) == Atoi(text)
  {
    ScanFinds(mem, from, len, text);
    TextThenRest(mem, from, text);
    AtoiStops(text, mem[from + |text| + 1..]);
  }

  lemma StartReads(msg: Message, name: bytes, size: bytes, count: bytes)
    requires IsStart(msg.body + msg.past, |msg.body|, name, size, count)
    ensures ReadStart(msg) == Some(Announcement(msg.body[0], name, Trunc32(Atoi(size)), Trunc32(Atoi(count))))
  {
    hide Scan, Atoi;
    var mem, n := msg.body + msg.past, |msg.body|;
    var i, j := 2 + |name|, 3 + |name| + |size|;
    StringStands(mem, 1, n - 1, name);
    StringStands(mem, i, n - 1 - |name|, size);
    StringStands(mem, j, n - 1 - |name|, count);
    assert FindStrings(mem, n) == Some((i, j));
  }

  /** A string that has been found. */
  lemma StringFound(mem: bytes, from: nat, len: nat) returns (text: bytes)
    requires from <= |mem| && Scan(mem, from, len).Some?
    ensures var at := Scan(mem, from, len).value;
            from <= at < from + len && at < |mem| && text == mem[from..at] && 0 !in text && mem[at] == 0
  {
    ScanIsFirst(mem, from, len);
    text := mem[from..Scan(mem, from, len).value];
  }

  lemma StringsFound(mem: bytes, n: nat) returns (name: bytes, size: bytes, count: bytes)
    requires 0 < n <= |mem| && FindStrings(mem, n).Some?
    ensures IsStart(mem, n, name, size, count) && FindStrings(mem, n).value.0 == 2 + |name|
  {
    hide Scan;
    name := StringFound(mem, 1, n - 1);
    var i, reach := 2 + |name|, n - 1 - |name|;
    size := StringFound(mem, i, reach);
    count := StringFound(mem, i + |size| + 1, reach);
  }

  lemma ReadIsStart(msg: Message) returns (size: bytes, count: bytes)
    requires msg.body != [] && ReadStart(msg).Some?
    ensures IsStart(msg.body + msg.past, |msg.body|, ReadStart(msg).value.name, size, count)
  {
    hide FindStrings, Atoi;
    var name;
    name, size, count := StringsFound(msg.body + msg.past, |msg.body|);
  }

  /** Main result: a body is read as a START exactly when it is one: an id and three terminated strings,
      the second and third taken for numbers. */
  lemma StartIsReadIff(msg: Message, a: Announcement)
    requires msg.body != []
    ensures ReadStart(msg) == Some(a) <==>
            exists size, count ::
              && IsStart(msg.body + msg.past, |msg.body|, a.name, size, count)
              && a == Announcement(msg.body[0], a.name, Trunc32(Atoi(size)), Trunc32(Atoi(count)))
  {
    if ReadStart(msg) == Some(a) {
      var size, count := ReadIsStart(msg);
      StartReads(msg, a.name, size, count);
    }
    if size, count :| && IsStart(msg.body + msg.past, |msg.body|, a.name, size, count)
                      && a == Announcement(msg.body[0], a.name, Trunc32(Atoi(size)), Trunc32(Atoi(count))) {
      StartReads(msg, a.name, size, count);
    }
  }
}
