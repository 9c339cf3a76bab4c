/**
 Sending a file in fragments: the message bodies a sender builds, that reading them back gives what
 was meant, and that the reassembly of a whole transfer delivers the file.
 */
module Transfer {
  import opened Bytes
  import opened PacketCodec
  import opened Decimal
  import opened BigFile

  /** A file to send: its fragments in order make up the contents. */
  datatype Outgoing = Outgoing(id: byte, name: bytes, frags: seq<bytes>)

  function Contents(o: Outgoing): bytes {
    Concat(o.frags)
  }

  function StartBody(id: byte, name: bytes, size: nat, count: nat): bytes {
    [id] + name + [0] + Text(size) + [0] + Text(count) + [0]
  }

  function FragmentBody(id: byte, number: nat, data: bytes): bytes
    requires |data| < 0x1_0000
  {
    [id] + Text(number) + [0] + Le16(|data|) + data
  }

  function EndBody(id: byte): bytes {
    [id, 0]
  }

  // ---------------------------------------------------------------------------------------
  // Reading the bodies back.

  lemma {:induction false} ScanFinds(mem: bytes, from: nat, len: nat, text: bytes)
    requires 0 !in text && |text| < len && from + |text| < |mem|
    requires mem[from..from + |text|] == text && mem[from + |text|] == 0
    ensures Scan(mem, from, len) == Some(from + |text|)
    decreases |text|
  {
    if text != [] {
      assert mem[from] == text[0];
      assert mem[from + 1..from + |text|] == text[1..];
      ScanFinds(mem, from + 1, len - 1, text[1..]);
    }
  }

  lemma TextHasNoTerminator(n: nat)
    ensures 0 !in Text(n)
  {
  }

  /** A number's terminated text in memory is read back, whatever follows it. */
  lemma NumberInPlace(mem: bytes, at: nat, n: nat, text: bytes)
    requires n <= INT_MAX && text == Text(n) && at + |text| < |mem|
    requires mem[at..at + |text|] == text && mem[at + |text|] == 0
    ensures Atoi(mem[at..]) == n
  {
    TextThenRest(mem, at, text);
    AtoiOfText(n, [0] + mem[at + |text| + 1..]);
  }

  lemma TextThenRest(mem: bytes, at: nat, text: bytes)
    requires at + |text| < |mem| && mem[at..at + |text|] == text && mem[at + |text|] == 0
    ensures mem[at..] == text + ([0] + mem[at + |text| + 1..])
  {
  }

  /** Where the three strings of a START stand in memory, the second from `i` and the third from `j`. */
  ghost predicate StringsAt(mem: bytes, a: bytes, i: nat, b: bytes, j: nat, c: bytes) {
    && i == 2 + |a| && j == i + |b| + 1 && j + |c| < |mem|
    && mem[1..1 + |a|] == a && mem[1 + |a|] == 0
    && mem[i..i + |b|] == b && mem[i + |b|] == 0
    && mem[j..j + |c|] == c && mem[j + |c|] == 0
  }

  lemma ThreeStrings(body: bytes, id: byte, a: bytes, b: bytes, c: bytes, past: bytes)
    requires body == [id] + a + [0] + b + [0] + c + [0]
    ensures |body| == |a| + |b| + |c| + 4 && body[0] == id
    ensures StringsAt(body + past, a, 2 + |a|, b, 3 + |a| + |b|, c)
  {
  }

  lemma StringsAreScanned(mem: bytes, n: nat, a: bytes, i: nat, b: bytes, j: nat, c: bytes)
    requires 0 !in a && 0 !in b && 0 !in c && n == |a| + |b| + |c| + 4 <= |mem|
    requires StringsAt(mem, a, i, b, j, c)
    ensures FindStrings(mem, n) == Some((i, j))
  {
    ScanFinds(mem, 1, n - 1, a);
    ScanFinds(mem, i, n - 1 - |a|, b);
    ScanFinds(mem, j, n - 1 - |a|, c);
  }

  /** A START read from where its strings stand. */
  lemma BodyIsRead(msg: Message, mem: bytes, name: bytes, i: nat, size: u32, j: nat, count: u32)
    requires msg.body != [] && mem == msg.body + msg.past && 1 < i <= j <= |mem|
    requires FindStrings(mem, |msg.body|) == Some((i, j)) && mem[1..i - 1] == name
    requires Atoi(mem[i..]) == size && Atoi(mem[j..]) == count
    ensures ReadStart(msg) == Some(Announcement(msg.body[0], name, size, count))
  {
  }

  /** A START body is read back whatever lies behind it in memory. */
  lemma StartIsRead(msg: Message, id: byte, name: bytes, size: nat, count: nat)
    requires msg.body == StartBody(id, name, size, count) && 0 !in name
    requires size <= INT_MAX && count <= INT_MAX
    ensures ReadStart(msg) == Some(Announcement(id, name, size, count))
  {
    var a, b := Text(size), Text(count);
    ThreeStrings(msg.body, id, name, a, b, msg.past);
    TextsAreRead(msg, msg.body + msg.past, name, 2 + |name|, size, a, 3 + |name| + |a|, count, b);
  }

  lemma TextsAreRead(msg: Message, mem: bytes, name: bytes, i: nat, size: nat, a: bytes, j: nat, count: nat, b: bytes)
    requires 0 !in name && size <= INT_MAX && count <= INT_MAX && a == Text(size) && b == Text(count)
    requires |msg.body| == |name| + |a| + |b| + 4 && mem == msg.body + msg.past
    requires StringsAt(mem, name, i, a, j, b)
    ensures ReadStart(msg) == Some(Announcement(msg.body[0], name, size, count))
  {
    TextHasNoTerminator(size);
    TextHasNoTerminator(count);
    StringsAreScanned(mem, |msg.body|, name, i, a, j, b);
    NumberInPlace(mem, i, size, a);
    NumberInPlace(mem, j, count, b);
    BodyIsRead(msg, mem, name, i, size, j, count);
  }

  /** Where the parts of a fragment stand in memory. */
  ghost predicate FragmentAt(body: bytes, mem: bytes, text: bytes, data: bytes) {
    var i := 1 + |text|;
    && |body| == i + 3 + |data| && |mem| >= |body|
    && mem[1..i] == text && mem[i] == 0
    && FromLe16(mem[i + 1], mem[i + 2]) == |data| && body[i + 3..] == data
  }

  lemma FragmentParts(body: bytes, id: byte, text: bytes, data: bytes, past: bytes)
    requires |data| < 0x1_0000 && body == [id] + text + [0] + Le16(|data|) + data
    ensures body[0] == id && FragmentAt(body, body + past, text, data)
  {
    var i := 1 + |text|;
    assert body[i + 1] == Le16(|data|)[0] && body[i + 2] == Le16(|data|)[1];
    LittleEndianRoundTrip(|data|);
  }

  lemma NumberedIsRead(msg: Message, text: bytes, number: u32, data: bytes)
    requires msg.body != [] && 0 !in text && FragmentAt(msg.body, msg.body + msg.past, text, data)
    requires Atoi((msg.body + msg.past)[1..]) == number
    ensures ReadFrag(msg) == Whole(Fragment(number, data))
  {
    ScanFinds(msg.body + msg.past, 1, |msg.body| - 1, text);
  }

  lemma FragmentIsRead(msg: Message, id: byte, number: nat, data: bytes)
    requires |data| < 0x1_0000 && number <= INT_MAX
    requires msg.body == FragmentBody(id, number, data)
    ensures msg.body[0] == id && ReadFrag(msg) == Whole(Fragment(number, data))
  {
    var text := Text(number);
    TextHasNoTerminator(number);
    FragmentParts(msg.body, id, text, data, msg.past);
    NumberInPlace(msg.body + msg.past, 1, number, text);
    NumberedIsRead(msg, text, number, data);
  }

  // ---------------------------------------------------------------------------------------
  // Reassembling a whole transfer.

  /** What the receiver's integers can hold. */
  predicate Countable(o: Outgoing) {
    && 0 < |o.frags| <= INT_MAX && |Contents(o)| <= INT_MAX
    && RECORD_SIZE + |o.name| + |Contents(o)| + 4 < 0x1_0000_0000
  }

  function StartEvent(o: Outgoing): Event
    requires Countable(o)
  {
    Receive(Start(Some(Announcement(o.id, o.name, |Contents(o)|, |o.frags|))), ALL)
  }

  /** The fragments from number `k` on, then END. */
  function EventsFrom(o: Outgoing, k: nat): seq<Event>
    requires Countable(o) && k <= |o.frags|
    decreases |o.frags| - k
  {
    if k == |o.frags| then [Receive(End(o.id, 0), ALL)]
    else [Receive(Frag(o.id, Whole(Fragment(k, o.frags[k]))), ALL)] + EventsFrom(o, k + 1)
  }

  function Events(o: Outgoing): seq<Event>
    requires Countable(o)
  {
    [StartEvent(o)] + EventsFrom(o, 0)
  }

  function Repeat(r: Reply, n: nat): seq<Reply> {
    if n == 0 then [] else [r] + Repeat(r, n - 1)
  }

  function TheFile(o: Outgoing): Reply
    requires Countable(o)
  {
    Delivered(File(Some(|Contents(o)|), Some(o.name), Some(Contents(o))))
  }

  /** The bytes of the first `k` fragments. */
  function Front(o: Outgoing, k: nat): bytes
    requires k <= |o.frags|
  {
    Concat(o.frags[..k])
  }

  lemma FrontGrows(o: Outgoing, k: nat)
    requires k < |o.frags|
    ensures Front(o, k + 1) == Front(o, k) + o.frags[k]
    ensures |Front(o, k + 1)| <= |Contents(o)|
  {
    assert o.frags[..k + 1] == o.frags[..k] + [o.frags[k]];
    ConcatSnoc(o.frags[..k], o.frags[k]);
    assert o.frags == o.frags[..k + 1] + o.frags[k + 1..];
    ConcatAppend(o.frags[..k + 1], o.frags[k + 1..]);
  }

  /** The statics after START and the first `k` fragments. */
  ghost predicate Halfway(st: State, o: Outgoing, k: nat)
    requires Countable(o) && k <= |o.frags|
  {
    && |Front(o, k)| <= |Contents(o)|
    && st == State(Some(Big(o.name, Front(o, k) + Zeros(Capacity(|o.name|, |Contents(o)|) - |Front(o, k)|),
                            |Contents(o)|, |o.frags|, k, o.id)),
                   |Contents(o)| - |Front(o, k)|, |o.frags| - k, |Front(o, k)|)
  }

  lemma FragmentStep(e: Edition, st: State, o: Outgoing, k: nat)
    requires Countable(o) && k < |o.frags| && st.big.Some? && Halfway(Prepared(st), o, k)
    ensures var (st', r) := Step(e, st, EventsFrom(o, k)[0]);
            r == Receiving && st'.big.Some? && Halfway(st', o, k + 1) && Prepared(st') == st'
  {
    FrontGrows(o, k);
    var room := Capacity(|o.name|, |Contents(o)|) - |Front(o, k)|;
    assert Splice(Front(o, k) + Zeros(room), |Front(o, k)|, o.frags[k])
        == (Front(o, k) + o.frags[k]) + Zeros(room - |o.frags[k]|);
  }

  lemma EndStep(e: Edition, st: State, o: Outgoing)
    requires Countable(o) && Halfway(st, o, |o.frags|)
    ensures Step(e, st, Receive(End(o.id, 0), ALL)) == (st.(big := None), TheFile(o))
  {
    assert o.frags[..|o.frags|] == o.frags;
    assert (Contents(o) + Zeros(Capacity(|o.name|, |Contents(o)|) - |Contents(o)|))[..|Contents(o)|] == Contents(o);
  }

  lemma {:induction false} FragmentsThenEnd(e: Edition, st: State, o: Outgoing, k: nat)
    requires Countable(o) && k <= |o.frags| && st.big.Some? && Halfway(Prepared(st), o, k)
    requires k == |o.frags| ==> Prepared(st) == st
    ensures var (st', rs) := Run(e, st, EventsFrom(o, k));
            st'.big == None && rs == Repeat(Receiving, |o.frags| - k) + [TheFile(o)]
    decreases |o.frags| - k
  {
    hide Halfway, Step, Prepared, TheFile;
    var evs := EventsFrom(o, k);
    if k == |o.frags| {
      EndStep(e, st, o);
      assert evs[1..] == [];
    } else {
      FragmentStep(e, st, o, k);
      var st' := Step(e, st, evs[0]).0;
      assert evs[1..] == EventsFrom(o, k + 1);
      FragmentsThenEnd(e, st', o, k + 1);
      assert [Receiving] + (Repeat(Receiving, |o.frags| - k - 1) + [TheFile(o)])
          == Repeat(Receiving, |o.frags| - k) + [TheFile(o)];
    }
  }

  /** From any state, in either edition, a whole transfer is accepted message by message and END
      delivers the name, the size and the contents; nothing stays open. */
  lemma TransferDelivers(e: Edition, st: State, o: Outgoing)
    requires Countable(o)
    ensures var (st', rs) := Run(e, st, Events(o));
            st'.big == None && rs == Repeat(Receiving, |o.frags| + 1) + [TheFile(o)]
  {
    var st' := Step(e, st, StartEvent(o)).0;
    assert Front(o, 0) == [];
    assert Halfway(Prepared(st'), o, 0) by {
      var cap := Capacity(|o.name|, |Contents(o)|);
      assert [] + Zeros(cap) == Zeros(cap);
    }
    FragmentsThenEnd(e, st', o, 0);
    assert Events(o)[1..] == EventsFrom(o, 0);
  }
}
