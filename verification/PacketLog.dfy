/**
 What the machine makes of the packets handed out to it, one entry a packet: what it sent back, and what
 it told the file reassembly. `Accounted` ties such a log to the bytes taken off and put on the TCP
 connection, to the frame parser and to the state of the reassembly.
 */
module PacketLog {
  import opened Bytes
  import opened PacketCodec
  import opened Resync
  import opened Transfer
  import opened EndToEnd
  import opened WizAppl
  import BigFile
  import BigFileSafety
  import Chip
  import Datagrams
  import Framing

  type Edition = Framing.Edition

  /** A message to the reassembly, and its reply. */
  datatype Fed = Fed(msg: BigFile.Message, want: BigFile.Want, reply: BigFile.Reply)

  /** A packet, what was sent back for it and what send answered, and what it told the reassembly. An
      entry is not complete while a reply is still under way, or when the packet made the code read
      memory it never wrote. */
  datatype Handled = Handled(
    packet: Packet, plain: bytes, back: bytes, answers: seq<int>, fed: Option<Fed>, complete: bool)

  /** The plain form of an encrypted packet, as it goes on the wire. */
  function PlainReply(a: Algos, p: Packet): bytes {
    if !Encrypted(p.flag) || !SizesAgree(p) then []
    else match Create(a, 0, 0, PacketCodec.Contents(a, p))
      case None => []
      case Some(plain) => Wire(plain)
  }

  /** A command line goes back as it came. */
  function BackReply(p: Packet): bytes {
    if p.kind == TYPE_CMDLINE then Wire(p) else []
  }

  predicate BigFileKind(kind: byte) {
    kind == TYPE_BIGFILE_START || kind == TYPE_BIGFILE_FRAG || kind == TYPE_BIGFILE_END
  }

  /** A message to the reassembly, which begins with an id. */
  predicate IsBigFile(p: Packet) {
    WellFormed(p) && BigFileKind(p.kind)
  }

  /** Whether the reassembly extracts the contents of a packet; those of a fragment or an END only while
      a transfer is open. */
  predicate Reads(p: Packet, open: bool) {
    p.dataSize > 0 && BigFileKind(p.kind) && (open || p.kind == TYPE_BIGFILE_START)
  }

  /** Whether the contents of a packet are extracted at all. */
  predicate Extracts(p: Packet, open: bool) {
    p.dataSize > 0 && (Encrypted(p.flag) || p.kind == TYPE_CMDLINE || p.kind == TYPE_SMALLFILE || Reads(p, open))
  }

  /** Whether that makes the code read memory it never wrote, or past its buffers: contents that are not
      what the packet's sizes announce, or a message to the reassembly without any. */
  predicate Faults(p: Packet, open: bool) {
    (Extracts(p, open) && !SizesAgree(p)) || (Reads(p, open) && !WellFormed(p))
  }

  /** What an entry must be: nothing else is sent back than the replies to its packet, all of them
      unless a send has failed; and the reassembly is told of exactly the big-file packets. */
  predicate HandledOk(a: Algos, h: Handled) {
    && h.plain <= PlainReply(a, h.packet) && h.back <= BackReply(h.packet)
    && (h.complete && Errors(h.answers) == 0 ==> h.plain == PlainReply(a, h.packet) && h.back == BackReply(h.packet))
    && (h.complete ==> (h.fed.Some? <==> IsBigFile(h.packet)))
    && (h.fed.Some? ==>
          && h.complete && IsBigFile(h.packet) && BigFile.TakesAll(h.fed.value.want)
          && h.fed.value.msg.kind == h.packet.kind && h.fed.value.msg.body == PacketCodec.Contents(a, h.packet))
  }

  /** The machine goes on after it. */
  predicate Going(h: Handled) {
    h.complete && (h.fed.Some? ==> !h.fed.value.reply.Undefined?)
  }

  /** Why it does not: the packet makes the code read what it must not, the reassembly has left the C
      semantics, or send has answered that often and the reply is still not through. */
  predicate Stops(h: Handled, open: bool, patience: nat) {
    || Faults(h.packet, open)
    || (h.fed.Some? && h.fed.value.reply.Undefined?)
    || (!h.complete && |h.answers| >= patience)
  }

  lemma StopsAtMost(h: Handled, open: bool, patience: nat)
    requires Stops(h, open, patience)
    ensures Stops(h, true, patience)
  {
  }

  predicate AllGoing(hs: seq<Handled>) {
    hs == [] || (AllGoing(hs[..|hs| - 1]) && Going(hs[|hs| - 1]))
  }

  /** Every entry is as it must be, and all but the last let the machine go on. */
  predicate EntriesOk(a: Algos, hs: seq<Handled>) {
    hs == [] ||
    var front := hs[..|hs| - 1];
    EntriesOk(a, front) && AllGoing(front) && HandledOk(a, hs[|hs| - 1])
  }

  /** Every well-formed packet of kind 3, 4 or 5 that has been handled has been fed to the reassembly,
      whatever its flags, with its own kind and contents; no other packet has. */
  lemma MessageIsFedIff(a: Algos, h: Handled)
    requires HandledOk(a, h) && h.complete
    ensures h.fed.Some? <==> WellFormed(h.packet) && 3 <= h.packet.kind <= 5
    ensures h.fed.Some? ==> h.fed.value.msg.kind == h.packet.kind && h.fed.value.msg.body == PacketCodec.Contents(a, h.packet)
  {
    hide WellFormed, PlainReply, BackReply;
  }

  /** What is sent back, too, in terms of the packet: something exactly for an encrypted packet whose
      contents can be extracted and fit a packet, and the packet itself exactly for kind 1. */
  lemma RepliesIff(a: Algos, p: Packet)
    requires p.header != []
    ensures PlainReply(a, p) != [] <==> p.flag % 2 == 1 && SizesAgree(p) && |PacketCodec.Contents(a, p)| <= 50000
    ensures PlainReply(a, p) != [] ==>
              PlainReply(a, p) == Wire(Create(a, 0, 0, PacketCodec.Contents(a, p)).value)
    ensures BackReply(p) == (if p.kind == 1 then p.header + p.data else [])
    ensures BackReply(p) != [] <==> p.kind == 1
  {
    FlagBitsAre(p.flag);
    hide SizesAgree, PacketCodec.Contents;
    if SizesAgree(p) {
      BuiltIsNotEmpty(a, PacketCodec.Contents(a, p));
    }
  }

  lemma BuiltIsNotEmpty(a: Algos, contents: bytes)
    ensures Create(a, 0, 0, contents).Some? <==> |contents| <= 50000
    ensures |contents| <= 50000 ==> Wire(Create(a, 0, 0, contents).value) != []
  {
    hide DataField, CoveredPart;
  }

  /** Which packets make the code read what it must not, in terms of the sizes they announce: `n` bytes
      are left behind what the flags announce. Contents are extracted of encrypted packets, of kinds 1, 2
      and 3, and of kinds 4 and 5 while a transfer is open; the last three must not be empty. */
  lemma FaultsIff(p: Packet, open: bool)
    requires |p.data| == p.dataSize
    ensures var n := p.dataSize - (if p.flag >= 0x80 then 2 else 0) - (if p.flag % 2 == 1 then 2 else 0);
            var message := p.kind == 3 || (open && 4 <= p.kind <= 5);
            Faults(p, open) <==>
              && p.dataSize > 0
              && (|| ((p.flag % 2 == 1 || 1 <= p.kind <= 2 || message) && (n < 0 || (p.flag % 2 == 1 && n != p.orgSize + 8)))
                  || (message && (n < 0 || n <= if p.flag % 2 == 1 then 8 else 0)))
  {
    FlagBitsAre(p.flag);
    SizesAgreeIff(p);
    hide SizesAgree, WellFormed;
  }

  function PacketsOf(hs: seq<Handled>): (ps: seq<Packet>)
    ensures |ps| == |hs|
  {
    seq(|hs|, i requires 0 <= i < |hs| => hs[i].packet)
  }

  function SentBack(hs: seq<Handled>): bytes {
    if hs == [] then []
    else
      var n := |hs| - 1;
      SentBack(hs[..n]) + hs[n].plain + hs[n].back
  }

  function SendAnswers(hs: seq<Handled>): seq<int> {
    if hs == [] then [] else SendAnswers(hs[..|hs| - 1]) + hs[|hs| - 1].answers
  }

  function InputOf(h: Handled): seq<BigFile.Event> {
    if h.fed.None? then [] else [BigFile.Receive(BigFile.Read(h.fed.value.msg), h.fed.value.want)]
  }

  function ReplyOf(h: Handled): seq<BigFile.Reply> {
    if h.fed.None? then [] else [h.fed.value.reply]
  }

  /** What the reassembly was told, and what it replied. */
  function Inputs(hs: seq<Handled>): seq<BigFile.Event> {
    if hs == [] then [] else Inputs(hs[..|hs| - 1]) + InputOf(hs[|hs| - 1])
  }

  function Replies(hs: seq<Handled>): seq<BigFile.Reply> {
    if hs == [] then [] else Replies(hs[..|hs| - 1]) + ReplyOf(hs[|hs| - 1])
  }

  /** Where the messages of a log lead the reassembly, and whether its replies are the ones logged. */
  function FilesAfter(e: Edition, hs: seq<Handled>): BigFile.State {
    if hs == [] then BigFile.INITIAL
    else After(e, FilesAfter(e, hs[..|hs| - 1]), hs[|hs| - 1])
  }

  function After(e: Edition, st: BigFile.State, h: Handled): BigFile.State {
    if h.fed.None? then st
    else BigFile.Step(e, st, BigFile.Receive(BigFile.Read(h.fed.value.msg), h.fed.value.want)).0
  }

  predicate Replied(e: Edition, st: BigFile.State, h: Handled) {
    h.fed.Some? ==>
      h.fed.value.reply == BigFile.Step(e, st, BigFile.Receive(BigFile.Read(h.fed.value.msg), h.fed.value.want)).1
  }

  predicate AllReplied(e: Edition, hs: seq<Handled>) {
    hs == [] ||
    var front := hs[..|hs| - 1];
    AllReplied(e, front) && Replied(e, FilesAfter(e, front), hs[|hs| - 1])
  }

  /** What has gone over the machine's two sockets: the hosts dialed, the answers of connect, the bytes
      taken and sent and the answers of send on the TCP socket, the slices handed out on the UDP
      socket. */
  datatype Traffic = Traffic(
    dialed: seq<Chip.Host>, connects: seq<int>, taken: bytes, sent: bytes, sends: seq<int>, slices: seq<Datagrams.Slice>)

  /** The log accounts for everything: what was taken off the connection is what the parser has read;
      each packet it handed out has an entry, in order, but for those in the queue; what was sent is
      what the entries sent back; and the reassembly is where the messages fed to it lead. */
  predicate Accounted(a: Algos, e: Edition, t: Traffic, read: bytes, emitted: seq<Packet>, queue: seq<Packet>,
                      hs: seq<Handled>, files: BigFile.State) {
    && t.taken == read
    && emitted == PacketsOf(hs) + queue
    && t.sent == SentBack(hs) && t.sends == SendAnswers(hs)
    && files == FilesAfter(e, hs) && AllReplied(e, hs)
    && EntriesOk(a, hs)
  }

  lemma LogUnfolds(hs: seq<Handled>, h: Handled)
    ensures PacketsOf(hs + [h]) == PacketsOf(hs) + [h.packet]
    ensures SentBack(hs + [h]) == SentBack(hs) + h.plain + h.back
    ensures SendAnswers(hs + [h]) == SendAnswers(hs) + h.answers
    ensures Inputs(hs + [h]) == Inputs(hs) + InputOf(h) && Replies(hs + [h]) == Replies(hs) + ReplyOf(h)
  {
    assert (hs + [h])[..|hs|] == hs;
  }

  /** The entry for the packet in the queue. */
  lemma OneMoreHandled(a: Algos, e: Edition, t: Traffic, read: bytes, emitted: seq<Packet>,
                       hs: seq<Handled>, files: BigFile.State, h: Handled, files': BigFile.State)
    requires Accounted(a, e, t, read, emitted, [h.packet], hs, files) && AllGoing(hs)
    requires HandledOk(a, h) && files' == After(e, files, h) && Replied(e, files, h)
    ensures Accounted(a, e, t.(sent := t.sent + h.plain + h.back, sends := t.sends + h.answers),
                      read, emitted, [], hs + [h], files')
    ensures AllGoing(hs + [h]) <==> Going(h)
  {
    LogUnfolds(hs, h);
    assert PacketsOf(hs) + [h.packet] == PacketsOf(hs + [h]) + [];
    assert (hs + [h])[..|hs|] == hs;
  }

  /** More bytes read, and the packets they complete. */
  lemma MoreReceived(a: Algos, e: Edition, t: Traffic, read: bytes, emitted: seq<Packet>, slice: bytes,
                     more: seq<Packet>, hs: seq<Handled>, files: BigFile.State)
    requires Accounted(a, e, t, read, emitted, [], hs, files)
    ensures Accounted(a, e, t.(taken := t.taken + slice), read + slice, emitted + more, more, hs, files)
  {
    assert PacketsOf(hs) + [] + more == PacketsOf(hs) + more;
  }

  /** Other traffic does not matter. */
  lemma OtherTraffic(a: Algos, e: Edition, t: Traffic, read: bytes, emitted: seq<Packet>,
                     hs: seq<Handled>, files: BigFile.State, t': Traffic)
    requires Accounted(a, e, t, read, emitted, [], hs, files)
    requires t' == t.(dialed := t'.dialed, connects := t'.connects, slices := t'.slices)
    ensures Accounted(a, e, t', read, emitted, [], hs, files)
  {
  }

  /** The log of the reassembly is a run of it. */
  lemma {:induction false} LogIsRun(e: Edition, hs: seq<Handled>)
    requires AllReplied(e, hs) && AllGoing(hs)
    ensures BigFile.Run(e, BigFile.INITIAL, Inputs(hs)) == (FilesAfter(e, hs), Replies(hs))
    ensures forall r :: r in Replies(hs) ==> !r.Undefined?
    decreases |hs|
  {
    if hs != [] {
      var front, h := hs[..|hs| - 1], hs[|hs| - 1];
      LogIsRun(e, front);
      if h.fed.None? {
        assert Inputs(front) + [] == Inputs(front) && Replies(front) + [] == Replies(front);
      } else {
        BigFileSafety.RunAppend(e, BigFile.INITIAL, Inputs(front), InputOf(h));
        BigFileSafety.RunOne(e, FilesAfter(e, front), InputOf(h)[0]);
      }
    }
  }

  // ---------------------------------------------------------------------------------------
  // A transfer over the machine.

  lemma {:induction false} InputsAppend(a: seq<Handled>, b: seq<Handled>)
    ensures Inputs(a + b) == Inputs(a) + Inputs(b)
    decreases |b|
  {
    if b == [] {
      assert a + b == a;
    } else {
      var front, last := b[..|b| - 1], b[|b| - 1];
      hide InputOf;
      InputsAppend(a, front);
      assert (a + b)[..|a + b| - 1] == a + front;
      assert Inputs(a) + Inputs(front) + InputOf(last) == Inputs(a) + (Inputs(front) + InputOf(last));
    }
  }

  lemma {:induction false} RepliesAppend(a: seq<Handled>, b: seq<Handled>)
    ensures Replies(a + b) == Replies(a) + Replies(b)
    decreases |b|
  {
    if b == [] {
      assert a + b == a;
    } else {
      var front, last := b[..|b| - 1], b[|b| - 1];
      hide ReplyOf;
      RepliesAppend(a, front);
      assert (a + b)[..|a + b| - 1] == a + front;
      assert Replies(a) + Replies(front) + ReplyOf(last) == Replies(a) + (Replies(front) + ReplyOf(last));
    }
  }

  /** The later part of a log is a run of its own, from where the earlier part left the reassembly. */
  lemma LaterRun(e: Edition, earlier: seq<Handled>, hs: seq<Handled>)
    requires AllGoing(earlier + hs) && AllReplied(e, earlier + hs)
    requires AllGoing(earlier) && AllReplied(e, earlier)
    ensures BigFile.Run(e, FilesAfter(e, earlier), Inputs(hs)) == (FilesAfter(e, earlier + hs), Replies(hs))
  {
    InputsAppend(earlier, hs);
    RepliesAppend(earlier, hs);
    LogIsRun(e, earlier);
    LogIsRun(e, earlier + hs);
    BigFileSafety.RunAppend(e, BigFile.INITIAL, Inputs(earlier), Inputs(hs));
    SameBehind(Replies(earlier), BigFile.Run(e, FilesAfter(e, earlier), Inputs(hs)).1, Replies(hs));
  }

  lemma SameBehind(front: seq<BigFile.Reply>, a: seq<BigFile.Reply>, b: seq<BigFile.Reply>)
    requires front + a == front + b
    ensures a == b
  {
    assert a == (front + a)[|front|..] && b == (front + b)[|front|..];
  }

  /** What holds of a log holds of its earlier part and of each entry. */
  lemma {:induction false} EarlierPart(e: Edition, earlier: seq<Handled>, hs: seq<Handled>)
    requires AllGoing(earlier + hs) && AllReplied(e, earlier + hs)
    ensures AllGoing(earlier) && AllReplied(e, earlier)
    decreases |hs|
  {
    if hs == [] {
      assert earlier + hs == earlier;
    } else {
      assert (earlier + hs)[..|earlier + hs| - 1] == earlier + hs[..|hs| - 1];
      EarlierPart(e, earlier, hs[..|hs| - 1]);
    }
  }

  lemma {:induction false} EachEntryOk(a: Algos, hs: seq<Handled>, i: nat)
    requires EntriesOk(a, hs) && i < |hs|
    ensures HandledOk(a, hs[i])
    decreases |hs|
  {
    if i < |hs| - 1 {
      EachEntryOk(a, hs[..|hs| - 1], i);
    }
  }

  lemma LaterEntriesOk(a: Algos, earlier: seq<Handled>, hs: seq<Handled>)
    requires EntriesOk(a, earlier + hs)
    ensures forall i :: 0 <= i < |hs| ==> HandledOk(a, hs[i])
  {
    hide HandledOk, EntriesOk;
    forall i | 0 <= i < |hs| ensures HandledOk(a, hs[i]) {
      EachEntryOk(a, earlier + hs, |earlier| + i);
      assert (earlier + hs)[|earlier| + i] == hs[i];
    }
  }

  /** Each entry told the reassembly something, and there was memory for it. */
  predicate AllFed(hs: seq<Handled>) {
    forall i :: 0 <= i < |hs| ==> FedAt(hs[i])
  }

  predicate FedAt(h: Handled) {
    && h.fed.Some?
    && h.fed.value.msg.heapForBody && h.fed.value.msg.heapForFile
    && h.fed.value.want.heapForName && h.fed.value.want.heapForCopy
  }

  /** There was memory wherever something was told. */
  predicate EnoughHeap(hs: seq<Handled>) {
    forall i :: 0 <= i < |hs| ==> HeapAt(hs[i])
  }

  predicate HeapAt(h: Handled) {
    h.fed.Some? ==>
      && h.fed.value.msg.heapForBody && h.fed.value.msg.heapForFile
      && h.fed.value.want.heapForName && h.fed.value.want.heapForCopy
  }

  lemma {:induction false} EachGoes(hs: seq<Handled>, i: nat)
    requires AllGoing(hs) && i < |hs|
    ensures Going(hs[i])
    decreases |hs|
  {
    if i < |hs| - 1 {
      EachGoes(hs[..|hs| - 1], i);
    }
  }

  /** The entries of a transfer's packets have been fed, encrypted or not. */
  lemma TransferIsFed(a: Algos, o: Outgoing, flags: seq<int>, earlier: seq<Handled>, hs: seq<Handled>)
    requires Sound(a) && Sendable(o) && |flags| == |o.frags| + 2
    requires AllGoing(earlier + hs) && EnoughHeap(hs) && forall i :: 0 <= i < |hs| ==> HandledOk(a, hs[i])
    requires PacketsOf(hs) == Packets(a, flags, Parts(o))
    ensures AllFed(hs)
  {
    hide HandledOk, AllGoing, IsBigFile, HeapAt, FedAt, Packets;
    TransferIsBigFile(a, o, flags);
    forall i | 0 <= i < |hs| ensures FedAt(hs[i]) {
      assert PacketsOf(hs)[i] in PacketsOf(hs);
      EntryIsFed(a, earlier, hs, i);
    }
  }

  lemma EntryIsFed(a: Algos, earlier: seq<Handled>, hs: seq<Handled>, i: nat)
    requires i < |hs| && AllGoing(earlier + hs) && HeapAt(hs[i]) && HandledOk(a, hs[i]) && IsBigFile(PacketsOf(hs)[i])
    ensures FedAt(hs[i])
  {
    hide HandledOk, WellFormed, AllGoing, Going;
    EachGoes(earlier + hs, |earlier| + i);
    assert (earlier + hs)[|earlier| + i] == hs[i];
    GoingIsComplete(hs[i]);
    MessageIsFedIff(a, hs[i]);
  }

  lemma GoingIsComplete(h: Handled)
    requires Going(h)
    ensures h.complete
  {
  }

  lemma {:induction false} InputsAre(hs: seq<Handled>)
    requires AllFed(hs)
    ensures Inputs(hs) == seq(|hs|, i requires 0 <= i < |hs| =>
                                BigFile.Receive(BigFile.Read(hs[i].fed.value.msg), hs[i].fed.value.want))
    decreases |hs|
  {
    if hs != [] {
      InputsAre(hs[..|hs| - 1]);
    }
  }

  function Pasts(hs: seq<Handled>): (pasts: seq<bytes>)
    requires AllFed(hs)
    ensures |pasts| == |hs|
  {
    seq(|hs|, i requires 0 <= i < |hs| => hs[i].fed.value.msg.past)
  }

  lemma InputsAreEvents(a: Algos, hs: seq<Handled>, ps: seq<Packet>)
    requires AllFed(hs) && PacketsOf(hs) == ps && forall i :: 0 <= i < |hs| ==> HandledOk(a, hs[i])
    requires forall i :: 0 <= i < |ps| ==> WellFormed(ps[i])
    ensures Inputs(hs) == EventsOf(a, ps, Pasts(hs))
  {
    InputsAre(hs);
    forall i | 0 <= i < |hs|
      ensures BigFile.Receive(BigFile.Read(hs[i].fed.value.msg), hs[i].fed.value.want) == EventsOf(a, ps, Pasts(hs))[i]
    {
      assert PacketsOf(hs)[i] == ps[i] && HandledOk(a, hs[i]);
      assert hs[i].fed.value.msg == MessageOf(a, ps[i], Pasts(hs)[i]);
      assert hs[i].fed.value.want == BigFile.ALL;
    }
  }

  /** The entries for the packets of a whole transfer, wherever the reassembly stood: it accepted one
      message after the other and delivered the file. */
  lemma TransferIsLogged(a: Algos, e: Edition, o: Outgoing, flags: seq<int>, earlier: seq<Handled>, hs: seq<Handled>)
    requires Sound(a) && Sendable(o) && |flags| == |o.frags| + 2
    requires AllGoing(earlier + hs) && AllReplied(e, earlier + hs) && EntriesOk(a, earlier + hs)
    requires EnoughHeap(hs) && PacketsOf(hs) == Packets(a, flags, Parts(o))
    ensures AllFed(hs) && Replies(hs) == Repeat(BigFile.Receiving, |o.frags| + 1) + [TheFile(o)]
    ensures FilesAfter(e, earlier + hs).big == None
  {
    EarlierPart(e, earlier, hs);
    LaterEntriesOk(a, earlier, hs);
    TransferIsFed(a, o, flags, earlier, hs);
    LaterRun(e, earlier, hs);
    PacketsAreRead(a, o, flags, Pasts(hs));
    InputsAreEvents(a, hs, Packets(a, flags, Parts(o)));
    TransferDelivers(e, FilesAfter(e, earlier), o);
  }

  /** Main result, for a machine: a log accounts for bytes received that end with the packets of a whole
      transfer, behind whatever came before, a connection that broke off included, with garbage in
      front of each that keeps the parser in step. If there was memory for its messages, the transfer's
      packets are the last ones logged, and the reassembly replied to them by accepting one after the
      other and delivering the name, the size and the contents. */
  lemma TransferIsDelivered(a: Algos, e: Edition, t: Traffic, reader: Framing.Reader, read: bytes, emitted: seq<Packet>,
                            hs: seq<Handled>, files: BigFile.State,
                            before: bytes, o: Outgoing, flags: seq<int>, noise: seq<bytes>)
    requires Accounted(a, e, t, read, emitted, [], hs, files) && AllGoing(hs)
    requires Framing.Agrees(e, reader, emitted, read) && !reader.Undefined?
    requires Sound(a) && Sendable(o) && |flags| == |o.frags| + 2
    requires Follow(Framing.Parse(before).rest, noise, Packets(a, flags, Parts(o)))
    requires t.taken == before + Noisy(noise, Packets(a, flags, Parts(o)))
    requires EnoughHeap(Last(hs, |o.frags| + 2))
    ensures |hs| >= |o.frags| + 2 && AllFed(Last(hs, |o.frags| + 2))
    ensures PacketsOf(hs) == Framing.Parse(before).packets + Completed(Framing.Parse(before).rest, noise[0])
                             + Packets(a, flags, Parts(o))
    ensures Replies(Last(hs, |o.frags| + 2)) == Repeat(BigFile.Receiving, |o.frags| + 1) + [TheFile(o)]
    ensures files.big == None
  {
    hide Replied, HandledOk, EntriesOk, AllGoing, Noisy, Framing.Parse, HeaderBehind, Leads, Recovers;
    var ps, n := Packets(a, flags, Parts(o)), |o.frags| + 2;
    var earlier := Framing.Parse(before).packets + Completed(Framing.Parse(before).rest, noise[0]);
    StreamBehind(a, o, flags, noise, before);
    assert PacketsOf(hs) + [] == PacketsOf(hs);
    var k := |hs| - n;
    LastPackets(hs, earlier, ps);
    TransferIsLogged(a, e, o, flags, hs[..k], hs[k..]);
  }

  lemma LastPackets(hs: seq<Handled>, earlier: seq<Packet>, ps: seq<Packet>)
    requires PacketsOf(hs) == earlier + ps
    ensures |hs| >= |ps| && PacketsOf(hs[|hs| - |ps|..]) == ps && hs[..|hs| - |ps|] + hs[|hs| - |ps|..] == hs
  {
    var k := |hs| - |ps|;
    assert PacketsOf(hs[k..]) == PacketsOf(hs)[k..];
  }

  /** What the parser makes of a transfer behind what came before. */
  lemma StreamBehind(a: Algos, o: Outgoing, flags: seq<int>, noise: seq<bytes>, before: bytes)
    requires Sound(a) && Sendable(o) && |flags| == |o.frags| + 2
    requires Follow(Framing.Parse(before).rest, noise, Packets(a, flags, Parts(o)))
    ensures var ps := Packets(a, flags, Parts(o));
            Framing.Parse(before + Noisy(noise, ps)).packets ==
            Framing.Parse(before).packets + Completed(Framing.Parse(before).rest, noise[0]) + ps
  {
    hide Noisy, Framed, Framing.Parse, Leads, HeaderBehind, Recovers;
    var ps, rest := Packets(a, flags, Parts(o)), Framing.Parse(before).rest;
    PacketsAreGood(a, flags, Parts(o));
    FramesBehindRest(rest, noise, ps);
    Framing.ParseAppend(before, Noisy(noise, ps));
    assert Framing.Parse(before).packets + (Completed(rest, noise[0]) + ps) ==
           Framing.Parse(before).packets + Completed(rest, noise[0]) + ps;
  }

  function Last(hs: seq<Handled>, n: nat): seq<Handled> {
    if n <= |hs| then hs[|hs| - n..] else hs
  }

  // ---------------------------------------------------------------------------------------
  // There is such a log.

  function Entry(a: Algos, e: Edition, p: Packet, st: BigFile.State): Handled
    requires IsBigFile(p)
  {
    var msg, plain := MessageOf(a, p, []), PlainReply(a, p);
    var reply := BigFile.Step(e, st, BigFile.Receive(BigFile.Read(msg), BigFile.ALL)).1;
    var answers := if plain == [] then [] else [HEADER_SIZE, |plain| - HEADER_SIZE];
    Handled(p, plain, [], answers, Some(Fed(msg, BigFile.ALL, reply)), true)
  }

  /** The log of big-file packets when nothing runs out of memory and each reply goes out in two sends. */
  function LogOf(a: Algos, e: Edition, ps: seq<Packet>): (hs: seq<Handled>)
    requires forall p :: p in ps ==> IsBigFile(p)
    ensures |hs| == |ps|
  {
    if ps == [] then []
    else
      var front := LogOf(a, e, ps[..|ps| - 1]);
      assert ps[|ps| - 1] in ps;
      front + [Entry(a, e, ps[|ps| - 1], FilesAfter(e, front))]
  }

  lemma EntryIsOk(a: Algos, e: Edition, p: Packet, st: BigFile.State)
    requires IsBigFile(p)
    ensures var h := Entry(a, e, p, st); HandledOk(a, h) && Replied(e, st, h)
  {
  }

  lemma {:induction false} LogOfIs(a: Algos, e: Edition, ps: seq<Packet>)
    requires forall p :: p in ps ==> IsBigFile(p)
    ensures AllReplied(e, LogOf(a, e, ps))
    decreases |ps|
  {
    if ps != [] {
      hide Replied, IsBigFile;
      var n := |ps| - 1;
      var front := LogOf(a, e, ps[..n]);
      assert ps[n] in ps;
      LogOfIs(a, e, ps[..n]);
      EntryIsOk(a, e, ps[n], FilesAfter(e, front));
      assert LogOf(a, e, ps)[..n] == front;
    }
  }

  lemma {:induction false} LogOfAt(a: Algos, e: Edition, ps: seq<Packet>, i: nat)
    requires i < |ps| && forall p :: p in ps ==> IsBigFile(p)
    ensures IsBigFile(ps[i])
    ensures exists st :: LogOf(a, e, ps)[i] == Entry(a, e, ps[i], st)
    decreases |ps|
  {
    hide IsBigFile, Entry;
    var n := |ps| - 1;
    if i < n {
      LogOfAt(a, e, ps[..n], i);
    } else {
      assert LogOf(a, e, ps)[n] == Entry(a, e, ps[n], FilesAfter(e, LogOf(a, e, ps[..n])));
    }
  }

  lemma LogOfEntries(a: Algos, e: Edition, ps: seq<Packet>)
    requires forall p :: p in ps ==> IsBigFile(p)
    ensures PacketsOf(LogOf(a, e, ps)) == ps && AllFed(LogOf(a, e, ps))
    ensures forall h :: h in LogOf(a, e, ps) ==> HandledOk(a, h)
  {
    forall i | 0 <= i < |ps|
      ensures LogOf(a, e, ps)[i].packet == ps[i] && HandledOk(a, LogOf(a, e, ps)[i]) && FedAt(LogOf(a, e, ps)[i])
    {
      LogOfAt(a, e, ps, i);
      var st :| LogOf(a, e, ps)[i] == Entry(a, e, ps[i], st);
      EntryIsOk(a, e, ps[i], st);
    }
  }

  lemma {:induction false} LogOfGoes(a: Algos, e: Edition, ps: seq<Packet>)
    requires forall p :: p in ps ==> IsBigFile(p)
    requires forall r :: r in BigFile.Run(e, BigFile.INITIAL, Inputs(LogOf(a, e, ps))).1 ==> !r.Undefined?
    ensures AllGoing(LogOf(a, e, ps)) && EntriesOk(a, LogOf(a, e, ps))
    decreases |ps|
  {
    if ps != [] {
      var n := |ps| - 1;
      var front := LogOf(a, e, ps[..n]);
      assert ps[n] in ps;
      var h := Entry(a, e, ps[n], FilesAfter(e, front));
      LogUnfolds(front, h);
      BigFileSafety.FrontIsDefined(e, BigFile.INITIAL, Inputs(front), InputOf(h));
      LogOfGoes(a, e, ps[..n]);
      LogOfIs(a, e, ps[..n]);
      EntryIsOk(a, e, ps[n], FilesAfter(e, front));
      LastReplyIsDefined(e, front, h);
      assert LogOf(a, e, ps)[..n] == front;
    }
  }

  lemma LastReplyIsDefined(e: Edition, front: seq<Handled>, h: Handled)
    requires AllGoing(front) && AllReplied(e, front) && h.fed.Some? && Replied(e, FilesAfter(e, front), h)
    requires forall r :: r in BigFile.Run(e, BigFile.INITIAL, Inputs(front) + InputOf(h)).1 ==> !r.Undefined?
    ensures !h.fed.value.reply.Undefined?
  {
    LogIsRun(e, front);
    BigFileSafety.RunAppend(e, BigFile.INITIAL, Inputs(front), InputOf(h));
    BigFileSafety.RunOne(e, FilesAfter(e, front), InputOf(h)[0]);
    assert BigFile.Run(e, BigFile.INITIAL, Inputs(front) + InputOf(h)).1 == Replies(front) + [h.fed.value.reply];
    assert h.fed.value.reply in Replies(front) + [h.fed.value.reply];
  }

  /** For every transfer, whatever its flags, there is a log that accounts for it, so there is one for the
      theorem above to speak of. */
  lemma TransferCanBeLogged(a: Algos, e: Edition, o: Outgoing, flags: seq<int>, noise: seq<bytes>)
      returns (hs: seq<Handled>)
    requires Sound(a) && Sendable(o) && |flags| == |noise| == |o.frags| + 2
    ensures var ps := Packets(a, flags, Parts(o));
            var stream := Noisy(noise, ps);
            && Accounted(a, e, Traffic([], [], stream, SentBack(hs), SendAnswers(hs), []), stream, ps, [], hs, FilesAfter(e, hs))
            && AllGoing(hs) && |hs| == |o.frags| + 2 && AllFed(hs)
  {
    hide Replied, HandledOk, IsBigFile, Noisy;
    var ps := Packets(a, flags, Parts(o));
    TransferIsBigFile(a, o, flags);
    hs := LogOf(a, e, ps);
    LogOfIs(a, e, ps);
    LogOfEntries(a, e, ps);
    TransferIsDefined(a, e, o, flags, hs);
    LogOfGoes(a, e, ps);
    assert PacketsOf(hs) + [] == ps;
  }

  lemma TransferIsDefined(a: Algos, e: Edition, o: Outgoing, flags: seq<int>, hs: seq<Handled>)
    requires Sound(a) && Sendable(o) && |flags| == |o.frags| + 2 && AllFed(hs) && (forall h :: h in hs ==> HandledOk(a, h))
    requires PacketsOf(hs) == Packets(a, flags, Parts(o))
    ensures forall r :: r in BigFile.Run(e, BigFile.INITIAL, Inputs(hs)).1 ==> !r.Undefined?
  {
    PacketsAreRead(a, o, flags, Pasts(hs));
    InputsAreEvents(a, hs, PacketsOf(hs));
    TransferDelivers(e, BigFile.INITIAL, o);
    RepeatIsDefined(|o.frags| + 1, o);
  }

  lemma TransferIsBigFile(a: Algos, o: Outgoing, flags: seq<int>)
    requires Sound(a) && Sendable(o) && |flags| == |o.frags| + 2
    ensures forall p :: p in Packets(a, flags, Parts(o)) ==> IsBigFile(p)
    ensures forall i :: 0 <= i < |o.frags| + 2 ==> WellFormed(Packets(a, flags, Parts(o))[i])
  {
    hide WellFormed;
    var parts := Parts(o);
    var ps := Packets(a, flags, parts);
    PacketsAreGood(a, flags, parts);
    forall i | 0 <= i < |ps| ensures IsBigFile(ps[i]) {
      assert parts[i] == PartAt(o, i);
    }
  }

  lemma {:induction false} RepeatIsDefined(n: nat, o: Outgoing)
    requires Countable(o)
    ensures forall r :: r in Repeat(BigFile.Receiving, n) + [TheFile(o)] ==> !r.Undefined?
    decreases n
  {
    if n > 0 {
      RepeatIsDefined(n - 1, o);
    }
  }
}
