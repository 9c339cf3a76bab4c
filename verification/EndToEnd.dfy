/**
 From a file to a file: building the packets of a transfer, putting their headers and data on a byte
 stream, reading the stream in whatever slices it arrives, and reassembling.
 */
module EndToEnd {
  import opened Bytes
  import opened PacketCodec
  import opened Framing
  import opened Resync
  import opened Transfer
  import BigFile

  /** What the protocol can carry: a name without a terminator, at least one fragment, numbers that
      fit an int and message bodies that fit a packet. */
  ghost predicate Sendable(o: Outgoing) {
    && Countable(o) && 0 !in o.name
    && |StartBody(o.id, o.name, |Transfer.Contents(o)|, |o.frags|)| <= MAX_CONTENTS_SIZE
    && forall k :: 0 <= k < |o.frags| ==> FitsPacket(o, k)
  }

  predicate FitsPacket(o: Outgoing, k: nat)
    requires k < |o.frags|
  {
    |o.frags[k]| < 0x1_0000 && |FragmentBody(o.id, k, o.frags[k])| <= MAX_CONTENTS_SIZE
  }

  /** A message to send: its type and contents. */
  datatype Part = Part(kind: byte, body: bytes)

  predicate Fits(part: Part) {
    1 <= |part.body| <= MAX_CONTENTS_SIZE
  }

  /** The messages of a transfer: START, the fragments in order, END. */
  ghost function PartAt(o: Outgoing, i: nat): (part: Part)
    requires Sendable(o) && i < |o.frags| + 2
    ensures Fits(part)
  {
    if i == 0 then Part(TYPE_BIGFILE_START, StartBody(o.id, o.name, |Transfer.Contents(o)|, |o.frags|))
    else if i <= |o.frags| then
      assert FitsPacket(o, i - 1);
      Part(TYPE_BIGFILE_FRAG, FragmentBody(o.id, i - 1, o.frags[i - 1]))
    else Part(TYPE_BIGFILE_END, EndBody(o.id))
  }

  ghost function Parts(o: Outgoing): (parts: seq<Part>)
    requires Sendable(o)
    ensures |parts| == |o.frags| + 2
    ensures forall i :: 0 <= i < |parts| ==> Fits(parts[i]) && parts[i] == PartAt(o, i)
  {
    seq(|o.frags| + 2, i requires 0 <= i < |o.frags| + 2 => PartAt(o, i))
  }

  /** The packets built for messages, each with its own flags. */
  ghost function Packets(a: Algos, flags: seq<int>, parts: seq<Part>): (ps: seq<Packet>)
    requires |flags| == |parts| && forall i :: 0 <= i < |parts| ==> Fits(parts[i])
    ensures |ps| == |parts|
  {
    seq(|parts|, i requires 0 <= i < |parts| =>
      assert Fits(parts[i]);
      Create(a, flags[i], parts[i].kind, parts[i].body).value)
  }

  /** A received packet as a message, with whatever lies behind its contents in memory. */
  function MessageOf(a: Algos, p: Packet, past: bytes): BigFile.Message
    requires WellFormed(p)
  {
    BigFile.Message(p.kind, PacketCodec.Contents(a, p), past, true, true)
  }

  ghost function EventsOf(a: Algos, ps: seq<Packet>, pasts: seq<bytes>): (evs: seq<BigFile.Event>)
    requires |pasts| == |ps| && forall i :: 0 <= i < |ps| ==> WellFormed(ps[i])
    ensures |evs| == |ps|
  {
    seq(|ps|, i requires 0 <= i < |ps| => BigFile.Receive(BigFile.Read(MessageOf(a, ps[i], pasts[i])), BigFile.ALL))
  }

  // ---------------------------------------------------------------------------------------
  // Packets.

  /** Every built packet is framed, passes its checksum and holds its message. */
  lemma PacketsAreGood(a: Algos, flags: seq<int>, parts: seq<Part>)
    requires Sound(a) && |flags| == |parts| && forall i :: 0 <= i < |parts| ==> Fits(parts[i])
    ensures var ps := Packets(a, flags, parts);
            forall i :: 0 <= i < |ps| ==>
              && Framed(ps[i]) && WellFormed(ps[i]) && ChecksumOk(a, ps[i])
              && ps[i].kind == parts[i].kind && PacketCodec.Contents(a, ps[i]) == parts[i].body
  {
    hide Create, Sound, IsHeader, HeaderDataSize, ChecksumOk, Checksummed, Encrypted, PacketCodec.Contents, FromWire;
    var ps := Packets(a, flags, parts);
    forall i | 0 <= i < |ps|
      ensures Framed(ps[i]) && WellFormed(ps[i]) && ChecksumOk(a, ps[i])
      ensures ps[i].kind == parts[i].kind && PacketCodec.Contents(a, ps[i]) == parts[i].body
    {
      PacketRoundTrip(a, flags[i], parts[i].kind, parts[i].body);
    }
  }

  // ---------------------------------------------------------------------------------------
  // Messages.

  lemma {:induction false} EventAt(o: Outgoing, k: nat, i: nat)
    requires Countable(o) && k <= i <= |o.frags|
    ensures |EventsFrom(o, k)| == |o.frags| - k + 1
    ensures EventsFrom(o, k)[i - k] ==
            if i < |o.frags| then BigFile.Receive(BigFile.Frag(o.id, BigFile.Whole(BigFile.Fragment(i, o.frags[i]))), BigFile.ALL)
            else BigFile.Receive(BigFile.End(o.id, 0), BigFile.ALL)
    decreases |o.frags| - k
  {
    if k < |o.frags| {
      EventAt(o, k + 1, if i == k then k + 1 else i);
    }
  }

  lemma StartPartIsRead(o: Outgoing, msg: BigFile.Message)
    requires Sendable(o) && msg.heapForBody && msg.heapForFile && Part(msg.kind, msg.body) == PartAt(o, 0)
    ensures BigFile.Read(msg) ==
            BigFile.Start(Some(BigFile.Announcement(o.id, o.name, |Transfer.Contents(o)|, |o.frags|)))
  {
    StartIsRead(msg, o.id, o.name, |Transfer.Contents(o)|, |o.frags|);
  }

  lemma FragmentPartIsRead(o: Outgoing, i: nat, msg: BigFile.Message)
    requires Sendable(o) && 1 <= i <= |o.frags|
    requires msg.heapForBody && Part(msg.kind, msg.body) == PartAt(o, i)
    ensures BigFile.Read(msg) == BigFile.Frag(o.id, BigFile.Whole(BigFile.Fragment(i - 1, o.frags[i - 1])))
  {
    assert FitsPacket(o, i - 1);
    FragmentIsRead(msg, o.id, i - 1, o.frags[i - 1]);
  }

  lemma EndPartIsRead(o: Outgoing, msg: BigFile.Message)
    requires Sendable(o) && msg.heapForBody && Part(msg.kind, msg.body) == PartAt(o, |o.frags| + 1)
    ensures BigFile.Read(msg) == BigFile.End(o.id, 0)
  {
    assert (msg.body + msg.past)[1] == 0;
  }

  /** Each message of a transfer is read as the event it stands for. */
  lemma PartIsRead(o: Outgoing, i: nat, msg: BigFile.Message)
    requires Sendable(o) && i < |o.frags| + 2
    requires msg.heapForBody && msg.heapForFile && Part(msg.kind, msg.body) == PartAt(o, i)
    ensures |Events(o)| == |o.frags| + 2
    ensures BigFile.Receive(BigFile.Read(msg), BigFile.ALL) == Events(o)[i]
  {
    EventAt(o, 0, if i == 0 then 0 else i - 1);
    if i == 0 {
      StartPartIsRead(o, msg);
    } else if i <= |o.frags| {
      FragmentPartIsRead(o, i, msg);
    } else {
      EndPartIsRead(o, msg);
    }
  }

  lemma PacketsAreRead(a: Algos, o: Outgoing, flags: seq<int>, pasts: seq<bytes>)
    requires Sound(a) && Sendable(o) && |flags| == |pasts| == |o.frags| + 2
    ensures var ps := Packets(a, flags, Parts(o));
            (forall i :: 0 <= i < |ps| ==> WellFormed(ps[i])) && EventsOf(a, ps, pasts) == Events(o)
  {
    var parts := Parts(o);
    var ps := Packets(a, flags, parts);
    PacketsAreGood(a, flags, parts);
    var evs := EventsOf(a, ps, pasts);
    forall i | 0 <= i < |ps| ensures |Events(o)| == |evs| && evs[i] == Events(o)[i] {
      PartIsRead(o, i, MessageOf(a, ps[i], pasts[i]));
    }
    PartIsRead(o, 0, MessageOf(a, ps[0], pasts[0]));
  }

  // ---------------------------------------------------------------------------------------
  // The stream.

  /** Garbage that may stand in front of the packets of a stream: it keeps the parser in step with
      the header behind it, and for the code as written it holds no blank window. */
  ghost predicate Carries(e: Edition, noise: seq<bytes>, ps: seq<Packet>) {
    && |noise| == |ps|
    && forall i :: 0 <= i < |ps| ==> Leads(noise[i], ps[i].header) && (e == AsWritten ==> !HoldsBlank(noise[i]))
  }

  /** Any garbage without a separator, if the code is as documented or there is less than a header of it
      each time. */
  lemma SeparatorFreeCarries(e: Edition, noise: seq<bytes>, ps: seq<Packet>)
    requires |noise| == |ps| && forall p :: p in ps ==> Framed(p)
    requires forall g :: g in noise ==> RC_FS !in g && (e == AsDocumented || |g| < HEADER_SIZE)
    ensures Carries(e, noise, ps)
  {
    forall i | 0 <= i < |ps| ensures Leads(noise[i], ps[i].header) && (e == AsWritten ==> !HoldsBlank(noise[i])) {
      assert ps[i] in ps && noise[i] in noise;
      SeparatorFreeLeads(noise[i], ps[i].header);
    }
  }

  /** A receiver that agrees with the parser about what it has read of such a stream has handed out
      the first of its packets, and all of them once it has read all. */
  lemma StreamCarriesPackets(e: Edition, ps: seq<Packet>, noise: seq<bytes>,
                             read: bytes, reader: Reader, emitted: seq<Packet>)
    requires Carries(e, noise, ps) && forall p :: p in ps ==> Framed(p)
    requires read <= Noisy(noise, ps) && Agrees(e, reader, emitted, read) && ValidReader(reader)
    ensures !reader.Undefined? && emitted <= ps
    ensures read == Noisy(noise, ps) ==> emitted == ps && reader == START
  {
    hide Leads, Framed, Noisy, HoldsBlank;
    var stream := Noisy(noise, ps);
    assert forall i :: 0 <= i < |ps| ==> ps[i] in ps;
    NoisyFramesAreFound(noise, ps);
    assert stream == read + stream[|read|..];
    ParseAppend(read, stream[|read|..]);
    if read == stream {
      PendingDeterminesReader(reader, START);
    }
  }

  /** Main result: for every file and every split of it into numbered fragments that fit a packet,
      for every choice of flags, any checksum, any sound cipher, any garbage between the packets that
      keeps the parser in step and any slicing of the stream by recv, the receiver has at any moment
      handed out the first of the packets sent, and exactly those once it has read the stream; all
      have good checksums; and reassembly, from whatever state, accepts them one by one and delivers
      the name, the size and the contents at END, leaving nothing open. */
  lemma EndToEndDelivery(e: Edition, a: Algos, o: Outgoing, flags: seq<int>, noise: seq<bytes>,
                         offers: seq<int>, pasts: seq<bytes>, st: BigFile.State)
    requires Sound(a) && Sendable(o) && |flags| == |pasts| == |o.frags| + 2
    requires Carries(e, noise, Packets(a, flags, Parts(o)))
    ensures var ps := Packets(a, flags, Parts(o));
            var t := Run(e, START, Noisy(noise, ps), offers);
            && !t.reader.Undefined? && t.packets <= ps
            && (t.read == Noisy(noise, ps) ==> t.packets == ps && t.reader == START)
            && (forall i :: 0 <= i < |ps| ==> WellFormed(ps[i]) && ChecksumOk(a, ps[i]))
            && var (st', replies) := BigFile.Run(e, st, EventsOf(a, ps, pasts));
            && st'.big == None
            && replies == Repeat(BigFile.Receiving, |o.frags| + 1) + [TheFile(o)]
  {
    var ps := Packets(a, flags, Parts(o));
    var t := Run(e, START, Noisy(noise, ps), offers);
    PacketsAreGood(a, flags, Parts(o));
    RunRefines(e, START, Noisy(noise, ps), offers);
    assert Pending(START) + t.read == t.read;
    StreamCarriesPackets(e, ps, noise, t.read, t.reader, t.packets);
    PacketsAreRead(a, o, flags, pasts);
    TransferDelivers(e, st, o);
  }

  /** The packets of a transfer with other checksums. */
  ghost function AllDamaged(ps: seq<Packet>, sums: seq<(byte, byte)>): (qs: seq<Packet>)
    requires |sums| == |ps|
    ensures |qs| == |ps|
  {
    seq(|ps|, i requires 0 <= i < |ps| => Damaged(ps[i], sums[i].0, sums[i].1))
  }

  /** Checksums are computed but decide nothing: if all packets of a transfer have other checksums in
      front of their data, each fails its verification exactly when its own is wrong, and whatever is
      wrong the messages are accepted one by one and the file is delivered. */
  lemma FailedChecksumsAreAccepted(e: Edition, a: Algos, o: Outgoing, flags: seq<int>, sums: seq<(byte, byte)>,
                                   pasts: seq<bytes>, st: BigFile.State)
    requires Sound(a) && Sendable(o) && |flags| == |pasts| == |sums| == |o.frags| + 2
    requires forall flag :: flag in flags ==> Checksummed(flag)
    ensures var ps := Packets(a, flags, Parts(o)); var qs := AllDamaged(ps, sums);
            && (forall i :: 0 <= i < |qs| ==>
                  && Framed(qs[i]) && WellFormed(qs[i])
                  && (ChecksumOk(a, qs[i]) <==> FromLe16(sums[i].0, sums[i].1) == ps[i].checksum))
            && var (st', replies) := BigFile.Run(e, st, EventsOf(a, qs, pasts));
            && st'.big == None
            && replies == Repeat(BigFile.Receiving, |o.frags| + 1) + [TheFile(o)]
  {
    hide Checksummed, Encrypted, Damaged, FromLe16, Sound;
    var ps := Packets(a, flags, Parts(o));
    var qs := AllDamaged(ps, sums);
    PacketsAreGood(a, flags, Parts(o));
    forall i | 0 <= i < |ps|
      ensures Framed(qs[i]) && WellFormed(qs[i])
      ensures ChecksumOk(a, qs[i]) <==> FromLe16(sums[i].0, sums[i].1) == ps[i].checksum
      ensures MessageOf(a, qs[i], pasts[i]) == MessageOf(a, ps[i], pasts[i])
    {
      assert flags[i] in flags && Fits(Parts(o)[i]);
      DamageShowsIff(a, flags[i], Parts(o)[i].kind, Parts(o)[i].body, sums[i].0, sums[i].1);
    }
    assert EventsOf(a, qs, pasts) == EventsOf(a, ps, pasts);
    PacketsAreRead(a, o, flags, pasts);
    TransferDelivers(e, st, o);
  }

  /** There is such a slicing that reads the whole stream: one byte a call. */
  lemma EndToEndCompletes(a: Algos, o: Outgoing, flags: seq<int>, noise: seq<bytes>)
    requires Sound(a) && Sendable(o) && |flags| == |o.frags| + 2
    requires Carries(AsDocumented, noise, Packets(a, flags, Parts(o)))
    ensures var stream := Noisy(noise, Packets(a, flags, Parts(o)));
            Run(AsDocumented, START, stream, seq(|stream|, _ => 1)).packets == Packets(a, flags, Parts(o))
  {
    var ps := Packets(a, flags, Parts(o));
    var stream := Noisy(noise, ps);
    var t := Run(AsDocumented, START, stream, seq(|stream|, _ => 1));
    SingleBytesReadAll(START, stream);
    PacketsAreGood(a, flags, Parts(o));
    RunRefines(AsDocumented, START, stream, seq(|stream|, _ => 1));
    assert Pending(START) + t.read == t.read;
    StreamCarriesPackets(AsDocumented, ps, noise, t.read, t.reader, t.packets);
  }
}
