# W5500 host protocol: a verified model

The firmware drives a WIZnet W5500 Ethernet chip. A UDP server waits for a connect request, a TCP
client connects to the host it stored for the request, and over that connection framed packets arrive:
command lines, small files, and big files in numbered fragments. This project models that firmware in
Dafny and proves what it is for: what a sender puts into packets is what the receiver hands out,
however the byte stream is cut up, and what the receiver delivers is what was sent. It also says
exactly where the firmware does less: when a request is stored with an address that is not its
sender's, when a header behind garbage is missed, when a file is delivered that nobody sent.

## Layout

| module | models |
|---|---|
| `Bytes`, `Decimal` | machine integers, byte strings, `memchr` and `atoi` |
| `PacketCodec` | a packet as a value: building it, reading its fields back |
| `TcpPacket` | the packet record in memory and the code that fills it in place |
| `Framing` | one call of `recv_tcp_packet3` as a step, the whole-stream parser it refines |
| `Resync` | how the frame parser gets past garbage |
| `SocketBits` | one bit per socket in a 16-bit word |
| `Chip` | the W5500: registers and queues that move on their own between host accesses |
| `Datagrams` | datagram framing: records on the receive queue, slices out of `recvfrom` |
| `SocketDriver` | the socket calls, in place over the driver's statics and the chip |
| `Receiver` | `recv_tcp_packet3` in place over its statics and the socket layer |
| `BigFile`, `BigFileSafety` | fragment reassembly as a state machine, and what every run of it keeps |
| `BigFileReceiver` | the same function in place over its statics |
| `Messages` | which message bodies are read, and as what |
| `Transfer`, `EndToEnd` | the sender's messages, and the whole way from file to file |
| `SmallFile` | a file that fits one packet |
| `WizAppl` | the retry loops around `send` and `recv`, and the packet sender |
| `UdpCommand`, `UdpRequests` | the connect request, and which datagrams it is taken from with which sender |
| `PacketLog` | what the machine made of each packet: a log that accounts for all its traffic |
| `Rounds` | a round of the machine as a relation between states, and what follows for whole runs |
| `CommMachine` | the whole machine in place, step by step and over its main loop |
| `ArmMath` | fixed-point interpolation and circular buffers |
| `Tick` | the rate limiter |

The checksum and the cipher, placeholders in the firmware, are parameters: any checksum, and any
cipher that grows its input by eight bytes and can be undone. `PacketCodec.PlaceholderIsSound` shows
that the shipped placeholder is one of them.

## Where the code and its own documentation differ

* `contains_tcp_packet3_fragment` is documented, and called, as if it answered 0 for a window that
  holds no fragment (`w5500_udp_test/comm/comm_tcp3.c:173-174` and `:329`); its body answers -1, and
  the caller then copies nine bytes from one byte before an eight-byte buffer. Both readings are
  modelled: `Edition` is `AsWritten` or `AsDocumented`, and as written that copy is the outcome
  `Undefined`. Every framing theorem holds for both; `Framing.EditionsAgreeIff` says exactly when
  they are the same.
* The outcome of the search for the terminator of a fragment number is looked up in the wrong
  pointer (`w5500_udp_test/comm/comm_tcp3.c:1007`). As written a number without a terminator is `Undefined`,
  as documented it is rejected; `BigFileSafety.UndefinedIff` says exactly where a run can end there.
* The counters of a transfer are set by its first fragment, not by START
  (`w5500_udp_test/comm/comm_tcp3.c:988-996`). So a transfer announced with no fragments is delivered
  as zeros, and an END before the first fragment is judged by the counters of the transfer before.
  `BigFileSafety.DeliveredIsWhatWasAccepted` and `BigFileSafety.RefusedEndKeepsIff` have the exact
  conditions, `BigFileSafety.EmptyTransferDeliversZeros` and `BigFileSafety.FirstRejectionMatters`
  runs from the start in which it shows.
* The frame parser looks at the first separator byte of a rejected window only, so a decoy can hide a
  complete frame; `Resync.DecoyHidesFrame` is such a stream. `Resync.FirstHeaderIsReachedIff` has the
  exact condition on the garbage in front of the first header of a stream, whatever its length.
* `comm_udp_server` receives into forty bytes, and `recvfrom` writes the sender's address with the
  first slice of a datagram only (`w5500_udp_test/comm/comm_udp.c:20-41`,
  `w5500_udp_test/ioLibrary_Driver/Ethernet/socket.c:654-688`). A request that begins forty bytes, or
  a multiple of forty, into a datagram is verified and stored with whatever address was on the stack;
  `UdpRequests.RequestsAreStoredRightIff` says that this is the only case,
  `UdpRequests.HiddenRequestIsStoredWrong` is such a datagram.
* A tick counter that wraps to exactly 0 leaves the rate limiter without a stored tick, so the next
  call only stores one; `Tick.WrappedTickFiresOnce` has both cases.
* `wiz_recvb` asks for a size through a 16-bit parameter, and so does `wiz_sendb`: neither ever
  succeeds with a size of 65536 or more.
* The overlapping `memcpy` at `w5500_udp_test/comm/comm_tcp3.c:335` is modelled as a move.
* The frame parser's statics outlive a connection. What is proved about it is about everything
  received since the start, over all connections; `Resync.NextConnectionIff` says for which leftovers
  of a broken connection the next one's first packet is still found.
* `comm_tcp_client` hangs up when it finds the peer's half closed and does not receive any more
  (`w5500_udp_test/comm/comm_tcp3.c:1173-1179`): what was still waiting is lost, `Rounds.UnreadIsLost`.
* `tcp_packet3_processor` prints whether a packet's checksum is right and processes the packet in
  either case (`w5500_udp_test/comm/comm_tcp3.c:1067-1068`); `EndToEnd.FailedChecksumsAreAccepted` is
  a whole transfer with wrong checksums, delivered.

## What is assumed of the chip

A command has taken effect when the busy-wait on the command register ends. Between two host accesses
a socket may receive bytes, free transmit space, raise interrupt bits and change status; a closed
socket stays closed until the host opens it; datagrams are queued as whole records; a receive size and
the status behind it are read at one moment. While a call works on one socket only that socket moves,
which takes nothing from the calls that follow: each of them lets its socket move before it looks.

Calls that poll take `patience`, the number of rounds one looks at; `done` is false when a call is
still polling then, and its contract says what holds so far. On non-blocking sockets `done` is always
true, which is why a whole round of the machine only ever waits in a reply to the peer.

The driver keeps a log of what its calls have answered and of the status the application has read,
and the machine one of the packets it has handled. The chip records what it has shown whenever the
host looked. All of this exists for the contracts only: they tie what a loop or a step says it has
done to the calls it made, and what a call answers to what it was shown.

## Model

| member | source | states |
|---|---|---|
| PacketCodec.PacketRoundTrip | w5500_udp_test/comm/comm_tcp3.c:351-576 | a packet is built exactly for contents of up to 50000 bytes; built from 1 to 50000 bytes it fits its 16-bit size field, is recognised and restored field by field from its wire form, passes its checksum and gives its contents back, for every flag and type value |
| PacketCodec.WireFormat | w5500_udp_test/comm/comm_tcp3.c:485-576 | the bytes of a built packet: 1c 42 01, flags, type, size low byte first, 1d, then checksum, plain size and contents as the flags say |
| PacketCodec.EmptyWireFormat | w5500_udp_test/comm/comm_tcp3.c:485-558 | a packet without contents has zeros where its prefixes would be |
| PacketCodec.FieldsOffTheWire | w5500_udp_test/comm/comm_tcp3.c:56-87 | what is read off any header and data, byte by byte |
| PacketCodec.WireIsInjective | w5500_udp_test/comm/comm_tcp3.c:485-576 | packets with the same wire bytes carry the same contents, flags and type |
| PacketCodec.DataFieldParts | w5500_udp_test/comm/comm_tcp3.c:560-573 | checksum, plain size and contents stand where the flags say, and the checksum covers all that follows it |
| PacketCodec.FlagBitsSurviveMasking | w5500_udp_test/comm/comm_tcp3.c:490 | masking a flag value to a byte keeps both flag bits, for negative values too |
| PacketCodec.FlagBitsAre | w5500_udp_test/comm/comm_tcp3.c:73-82 | the checksum bit is the highest of the flag byte and the encryption bit the lowest |
| PacketCodec.FilledSizeIsCreated | w5500_udp_test/comm/comm_tcp3.c:79-86 | the plain size read off received data is the one the builder meant |
| PacketCodec.FilledChecksumIsCreated | w5500_udp_test/comm/comm_tcp3.c:73-77 | so is the checksum |
| PacketCodec.DamageShowsIff | w5500_udp_test/comm/comm_tcp3.c:360-368 | with another checksum in front of its data a packet is still received, well-formed and with its contents, and fails its verification exactly when that is not the checksum it was built with |
| PacketCodec.SizesAgreeIff | w5500_udp_test/comm/comm_tcp3.c:409-447 | extraction takes for granted exactly that the data holds its prefixes and that an encrypted body is as long as its plain size and eight bytes; a packet has contents exactly when more is left than that |
| PacketCodec.EmptyContentsVerifyIff | w5500_udp_test/comm/comm_tcp3.c:557-558 | a packet without contents verifies exactly when it has no checksum flag or the checksum of its zeroed prefix is zero |
| PacketCodec.PlaceholderRejectsEmptyFlagged | w5500_udp_test/comm/comm_tcp3.c:351-368 | with the shipped checksum a flagged empty packet always fails its own verification |
| PacketCodec.PlaceholderIsSound | w5500_udp_test/comm/comm_tcp3.c:386-407 | the shipped cipher can be undone and grows its input by eight bytes |
| TcpPacket.PacketRec.constructor | w5500_udp_test/comm/comm_tcp3.c:191-215 | an allocated record is zeroed but for its header, whose fields it holds |
| TcpPacket.PacketRec.FillDataField | w5500_udp_test/comm/comm_tcp3.c:63-87 | checksum and plain size are read off the data, and nothing else changes |
| TcpPacket.CreateTcpPacket | w5500_udp_test/comm/comm_tcp3.c:505-576 | the record filled in place is the packet of the codec, or null exactly when that refuses |
| TcpPacket.CoveredIsLaidOut | w5500_udp_test/comm/comm_tcp3.c:560-566 | the copies of contents and plain size, at their offsets, make up the part under the checksum |
| TcpPacket.SumIsLaidOut | w5500_udp_test/comm/comm_tcp3.c:568-573 | the copy of the checksum in front completes the data |
| Framing.FragmentIsFound | w5500_udp_test/comm/comm_tcp3.c:173-189 | the search answers with the first separator behind the first byte exactly when that is the last byte or followed by the magic byte, and otherwise with none |
| Framing.HeaderIsTakenIff | w5500_udp_test/comm/comm_tcp3.c:161-171 | any eight bytes at the start of a frame are taken for a header exactly when the first is 1c, the second 42 and the last 1d; the sixth and seventh say how much data is received next |
| Framing.ParseAppend | w5500_udp_test/comm/comm_tcp3.c:246-349 | a stream may be parsed in two goes, what the first leaves over going in front of the rest |
| Framing.ParseRestIsFixed | w5500_udp_test/comm/comm_tcp3.c:246-349 | what is left over holds no frame and no window to reject |
| Framing.StepRefines | w5500_udp_test/comm/comm_tcp3.c:264-348 | one call hands out what the parser finds in the pending bytes and the slice received, and keeps what it leaves over |
| Framing.RunRefines | w5500_udp_test/comm/comm_tcp3.c:246-349 | over any run of calls, whatever slices recv delivers, the packets handed out are those the whole-stream parser finds in what was read, and the statics are what it leaves over; as written up to the first blank window |
| Framing.ChunkIndependence | w5500_udp_test/comm/comm_tcp3.c:246-349 | two slicings that have read equally far, errors and empty reads included, have handed out the same packets and left the same statics |
| Framing.PendingDeterminesReader | w5500_udp_test/comm/comm_tcp3.c:254-257 | the bytes received but not accounted for determine mode, counter and pending packet |
| Framing.EditionsAgreeIff | w5500_udp_test/comm/comm_tcp3.c:173-189 | the code as written does what is documented over a whole stream exactly when the stream meets no blank window |
| Resync.ShiftLosesNothing | w5500_udp_test/comm/comm_tcp3.c:324-338 | a shift of a rejected window goes to the first offset at which a header could begin |
| Resync.BrokenHeaderIsRejected | w5500_udp_test/comm/comm_tcp3.c:302-338 | a framed packet with another first, second or last header byte is never found where it stands |
| Resync.FirstHeaderIsReachedIff | w5500_udp_test/comm/comm_tcp3.c:298-338 | the parser comes to look at the first header of a stream exactly when no window with a decoy separator reaches beyond the garbage in front of it; then it finds what it would find without the garbage, otherwise it goes on inside the header |
| Resync.FrameBehindGarbageIff | w5500_udp_test/comm/comm_tcp3.c:298-338 | so a frame with no separator behind its first byte is found exactly then, and otherwise nothing is |
| Resync.ShortGarbageInStepIff | w5500_udp_test/comm/comm_tcp3.c:324-338 | less than a window of garbage without a separator before a magic byte does no harm exactly when no separator stands behind its first byte |
| Resync.DecoyHidesFrame | w5500_udp_test/comm/comm_tcp3.c:175-189 | a stream in which a complete frame is lost that way |
| Resync.SeparatorFreeLeads | w5500_udp_test/comm/comm_tcp3.c:298-338 | garbage free of the separator keeps the parser in step whatever its length; as written it is defined exactly below eight bytes of it |
| Resync.NoisyFramesAreFound | w5500_udp_test/comm/comm_tcp3.c:298-338 | a stream of frames with any garbage before each that keeps the parser in step parses into exactly those frames; as written it is defined exactly when no stretch of garbage holds a blank window |
| Resync.NextConnectionIff | w5500_udp_test/comm/comm_tcp3.c:254-348 | after a connection that broke off, the next one's first header is reached exactly when the garbage in front of it completes the packet begun and then keeps the parser in step; with none, never if the break was inside a packet's data |
| Resync.FramesBehindRest | w5500_udp_test/comm/comm_tcp3.c:254-348 | then all frames of the next connection are found, behind at most one packet made up of what was left and garbage |
| Resync.ZerosAreUndefined | w5500_udp_test/comm/comm_tcp3.c:329-337 | a window of zeros is enough for the code as written to leave the C semantics |
| Receiver.PacketReceiver.RecvTcpPacket | w5500_udp_test/comm/comm_tcp3.c:246-349 | over a socket, any connections and any number of calls, packets handed out and statics agree with the whole-stream parser on everything received; a call receives nothing only if nothing was there or the chip has shown that the connection is gone |
| Receiver.PacketReceiver.OneCall | w5500_udp_test/comm/comm_tcp3.c:264-348 | one call in place is one step of the parsing machine on the bytes recv took off the stream |
| Receiver.PacketReceiver.EndWindow | w5500_udp_test/comm/comm_tcp3.c:302-338 | a full header buffer becomes a pending packet, a complete one, a shifted window or an empty one |
| Receiver.PacketReceiver.EndPacket | w5500_udp_test/comm/comm_tcp3.c:280-286 | a packet whose data is complete is handed out with its fields filled, and the statics are back at the start |
| SocketBits.SetBit | w5500_udp_test/ioLibrary_Driver/Ethernet/socket.c:379 | setting a socket's bit sets that bit and no other |
| SocketBits.ClearBit | w5500_udp_test/ioLibrary_Driver/Ethernet/socket.c:233-235 | clearing a socket's bit clears that bit and no other |
| SocketBits.BitIs | w5500_udp_test/ioLibrary_Driver/Ethernet/socket.c:75-79 | a bit is what division of the word by its weight leaves odd |
| SocketBits.SetFits16 | w5500_udp_test/ioLibrary_Driver/Ethernet/socket.c:63-64 | a socket's bit fits the 16-bit word |
| SocketBits.WordIsIndependentBits | w5500_udp_test/ioLibrary_Driver/Ethernet/socket.c:63-64 | over any run of updates for any sockets each bit is what a boolean kept for its socket alone would be |
| Datagrams.TakeRefines | w5500_udp_test/ioLibrary_Driver/Ethernet/socket.c:651-706 | one call on the queue's bytes is one call on the datagrams: the head goes with the first slice only, no slice crosses the end of a datagram, and the counter is the unread tail |
| Datagrams.WholeRecordsDecode | w5500_udp_test/ioLibrary_Driver/Ethernet/socket.c:654-688 | a queue of whole records is the encoding of some datagrams |
| Datagrams.RunAccounts | w5500_udp_test/ioLibrary_Driver/Ethernet/socket.c:639-706 | over any run of calls of any lengths with arrivals in between, what a receiver puts together is the datagrams that arrived, whole and in order, short only of what is still queued |
| Datagrams.DrainedRunDelivers | w5500_udp_test/ioLibrary_Driver/Ethernet/socket.c:639-783 | once the queue is empty that is exactly what arrived |
| Datagrams.CallIsRun | w5500_udp_test/ioLibrary_Driver/Ethernet/socket.c:605-784 | what a call of recvfrom guarantees is a stretch of such a run |
| SocketDriver.SendsAreAcknowledged | w5500_udp_test/ioLibrary_Driver/Ethernet/socket.c:328-352 | between two SEND commands of one connection the completion of the first was seen and cleared |
| SocketDriver.NthPortValue | w5500_udp_test/ioLibrary_Driver/Ethernet/socket.c:176-180 | the k-th ephemeral port counts up from 0xC000 and wraps after 0xFFEF |
| SocketDriver.EphemeralPortsDistinct | w5500_udp_test/ioLibrary_Driver/Ethernet/socket.c:176-180 | any 0x3FF0 consecutive ephemeral ports are pairwise distinct, and the next one repeats the first |
| SocketDriver.Driver.TakePort | w5500_udp_test/ioLibrary_Driver/Ethernet/socket.c:176-180 | an open with port 0 gets the next ephemeral port and moves on by one |
| SocketDriver.Driver.Socket | w5500_udp_test/ioLibrary_Driver/Ethernet/socket.c:105-197 | refusals, in their order, change nothing; otherwise the socket is open in its mode with fresh statics, and no other socket is touched |
| SocketDriver.SocketIsRefusedIff | w5500_udp_test/ioLibrary_Driver/Ethernet/socket.c:104-165 | the refusals exactly, with their errors: TCP without an address, any but four protocols, and three combinations of flag bits |
| SocketDriver.Driver.CloseSocket | w5500_udp_test/ioLibrary_Driver/Ethernet/socket.c:199-240 | the socket is closed, its interrupts cleared and its share of the statics released, and no other socket is touched |
| SocketDriver.Driver.ConnectTo | w5500_udp_test/ioLibrary_Driver/Ethernet/socket.c:258-296 | the chip is told to connect to that address and port exactly when all checks pass, the status it shows included; each answer is decided by what the chip has shown; the answer is logged |
| SocketDriver.AddressIsRefusedIff | w5500_udp_test/ioLibrary_Driver/Ethernet/socket.c:264-273 | the addresses refused are the one of all zeros and the one of all ones |
| SocketDriver.Driver.Disconnect | w5500_udp_test/ioLibrary_Driver/Ethernet/socket.c:298-316 | on a TCP socket a disconnect has been issued and no SEND is outstanding afterwards; a blocking call ends with the socket closed, because the chip has shown it closed or a timeout |
| SocketDriver.Driver.SendBytes | w5500_udp_test/ioLibrary_Driver/Ethernet/socket.c:318-383 | the answer is decided by what the chip has shown: its status, whether an earlier SEND is acknowledged, free space and status again; what is handed over is a prefix of the request, the whole of it up to the transmit buffer's size or nothing, never more than there is room for, and one SEND is issued exactly for it, with no earlier one outstanding; the answer is logged |
| SocketDriver.Driver.AwaitSend | w5500_udp_test/ioLibrary_Driver/Ethernet/socket.c:328-352 | sending goes on only once an earlier SEND is acknowledged |
| SocketDriver.Driver.RecvBytes | w5500_udp_test/ioLibrary_Driver/Ethernet/socket.c:386-489 | the answer is decided by what the chip has shown: the socket is given up only in a status without a connection, or half closed with nothing waiting and all sent; what lands in the buffer is the next bytes of the stream, off the front of what was waiting, as many as asked for, as the buffer memory allows or as there are, and the rest of the buffer is untouched; nothing waiting is lost; the read is committed; the answer is logged |
| SocketDriver.Driver.RecvFrom | w5500_udp_test/ioLibrary_Driver/Ethernet/socket.c:605-784 | a call either changes nothing or is one slice off the queue it found, and logs it; address and port are written on the first slice only; the packet flag says complete exactly when nothing remains; nothing is taken only if nothing was there or the chip has shown the socket closed |
| SocketDriver.Driver.TakeRaw | w5500_udp_test/ioLibrary_Driver/Ethernet/socket.c:707-756 | on raw sockets a call takes the head if a datagram starts and then the next bytes of it, no more than remain; a frame announced longer than 1514 bytes closes the socket |
| SocketDriver.RawRecordIsRead | w5500_udp_test/ioLibrary_Driver/Ethernet/socket.c:707-756 | a raw datagram is read back to its sender and payload, a frame exactly up to 1514 bytes |
| SocketDriver.FrameIsRefusedIff | w5500_udp_test/ioLibrary_Driver/Ethernet/socket.c:738-746 | a frame is refused exactly when its announced length does not cover itself or covers more than 1514 bytes |
| SocketDriver.Driver.CtlSocket | w5500_udp_test/ioLibrary_Driver/Ethernet/socket.c:787-831 | the I/O mode of that socket alone is set or reported, and arguments out of range are refused; clearing interrupts clears exactly those asked for |
| BigFile.ScanIsFirst | w5500_udp_test/comm/comm_tcp3.c:1006 | the search finds the first terminator of its range, and none exactly when there is none |
| BigFileSafety.StepKeepsInv | w5500_udp_test/comm/comm_tcp3.c:855-1051 | every call keeps the account of the open transfer |
| BigFileSafety.RunKeepsInv | w5500_udp_test/comm/comm_tcp3.c:988-1048 | in every reachable state with a fragment accepted, bytes written and remaining make up the size, fragments accepted and remaining the count, and the region holds the accepted bytes in order |
| BigFileSafety.DeliveredIsWhatWasAccepted | w5500_udp_test/comm/comm_tcp3.c:945-986 | whatever is delivered, by END or by extraction, is of the announced transfer: exactly its fragments 0 to count-1, accepted since its START under its id, in order; END pads nothing exactly when the count is above zero or the size is zero |
| BigFileSafety.ExtractedIsWhatWasAcceptedIff | w5500_udp_test/comm/comm_tcp3.c:808-847 | extraction gives what was accepted exactly when that is as long as announced |
| BigFileSafety.DeliveredAtMostOnce | w5500_udp_test/comm/comm_tcp3.c:979-983 | a caller that takes everything gets each announced file at most once |
| BigFileSafety.OpensAndEnds | w5500_udp_test/comm/comm_tcp3.c:894-986 | what opens a transfer and what ends one: a START that can be read; one that cannot, a message lost for lack of heap, an END that is not refused for lack of fragments or heap, a file taken whole; nothing else |
| BigFileSafety.RejectedFragmentStutters | w5500_udp_test/comm/comm_tcp3.c:935-1042 | a rejected fragment leaves every static as it was exactly when it is for another transfer, one of this transfer has been accepted before, or the counters already stand at its start |
| BigFileSafety.IdlePacketsCanBeDeleted | w5500_udp_test/comm/comm_tcp3.c:918-1042 | deleting from a run the packets that are none of the open transfer's business, other types, other ids, and fragments rejected after the first, changes neither its end nor any other reply |
| BigFileSafety.FirstRejectionMatters | w5500_udp_test/comm/comm_tcp3.c:949-956 | in two runs from the start a rejected fragment decides whether a refused END keeps the transfer open |
| BigFileSafety.RunKeepsCounters | w5500_udp_test/comm/comm_tcp3.c:988-1048 | over any run the two counters are what is still lacking of the transfer for which a fragment was last looked at, whatever has been announced since |
| BigFileSafety.RefusedEndKeepsIff | w5500_udp_test/comm/comm_tcp3.c:945-986 | after any run an END of the open transfer is judged by the transfer for which a fragment was last looked at, which may be an earlier one: it is refused exactly when that one is not finished, a checksum is asked for, the open one lacks a fragment or a copy finds no memory, and then keeps the transfer open exactly when that one is finished and no checksum is asked for |
| BigFileSafety.EmptyTransferDeliversZeros | w5500_udp_test/comm/comm_tcp3.c:945-986 | a transfer announced with five bytes in no fragments is delivered as five zeros |
| BigFileSafety.BareFragmentIsUndefined | w5500_udp_test/comm/comm_tcp3.c:1005-1023 | a fragment message that is nothing but an id leaves the C semantics as written and is rejected as documented |
| BigFileSafety.RegionHoldsFileIff | w5500_udp_test/comm/comm_tcp3.c:781 | the region holds the announced size exactly when the record's size does not wrap in 32 bits |
| BigFileSafety.RoomIs | w5500_udp_test/comm/comm_tcp3.c:781-800 | the room for contents for every size, wrapped or not, and the sizes for which the record does not hold its name |
| BigFileSafety.UndefinedIff | w5500_udp_test/comm/comm_tcp3.c:1005-1023 | with regions large enough a call leaves the C semantics only as written and for the expected number without a terminator, or for a START whose record wraps to less than its name takes |
| BigFileSafety.DocumentedRunIsDefined | w5500_udp_test/comm/comm_tcp3.c:1043 | as documented every fragment copy of every run lands inside its region |
| BigFileReceiver.FileReceiver.ReceivePacket | w5500_udp_test/comm/comm_tcp3.c:855-1051 | the function in place is one step of the state machine, whatever the packet |
| BigFileReceiver.FileReceiver.ExtractOnly | w5500_udp_test/comm/comm_tcp3.c:872-890 | so it is without a packet |
| BigFileReceiver.FileReceiver.ExtractFile | w5500_udp_test/comm/comm_tcp3.c:808-847 | a complete file is taken as asked for, and released once all of it has been; an allocation that fails on the way keeps it |
| BigFileReceiver.FileReceiver.Store | w5500_udp_test/comm/comm_tcp3.c:1043-1048 | an accepted fragment goes behind those before it, and cursor and counters move by its size and by one |
| BigFileReceiver.VerdictIsTaken | w5500_udp_test/comm/comm_tcp3.c:998-1042 | checking a fragment in the source's order comes to what reading it as a whole does |
| Messages.KindDecides | w5500_udp_test/comm/comm_tcp3.c:892-931 | types 3, 4 and 5 are START, fragment and END, anything else and anything without data is passed over; without heap a START opens nothing and the others are lost |
| Messages.EndIsRead | w5500_udp_test/comm/comm_tcp3.c:945-947 | an END is read as its id and its checksum type, whatever follows |
| Messages.ChecksumIsRefused | w5500_udp_test/comm/comm_tcp3.c:958-965 | a whole transfer ended by an END that asks for a checksum is refused and leaves nothing open |
| Messages.FragmentIsReadIff | w5500_udp_test/comm/comm_tcp3.c:1005-1042 | a body is read as a fragment exactly when it is an id, a terminated number, a 16-bit length and that many bytes |
| Messages.UnterminatedIff | w5500_udp_test/comm/comm_tcp3.c:1005-1014 | its number has no terminator exactly when the body has none behind its id |
| Messages.StartIsReadIff | w5500_udp_test/comm/comm_tcp3.c:737-777 | a body is read as a START exactly when it begins with an id and three strings that end within the searches' reach, the second and third taken for numbers |
| Transfer.StartIsRead | w5500_udp_test/comm/comm_tcp3.c:737-777 | a START message is read back to its id, name, size and count, whatever lies behind it in memory |
| Transfer.FragmentIsRead | w5500_udp_test/comm/comm_tcp3.c:1005-1042 | a fragment message is read back to its number and bytes |
| Transfer.TransferDelivers | w5500_udp_test/comm/comm_tcp3.c:855-1051 | from any state a whole transfer is accepted message by message and END delivers name, size and contents, leaving nothing open |
| Decimal.AtoiOfText | w5500_udp_test/comm/comm_tcp3.c:776-777 | decimal text is read back to its number, whatever follows its end |
| Decimal.AtoiOfSigned | w5500_udp_test/comm/comm_tcp3.c:776-777 | so it is behind spaces and a sign, clamped to an int |
| Decimal.AtoiStops | w5500_udp_test/comm/comm_tcp3.c:776-777 | what is behind a string's terminator does not matter |
| EndToEnd.PacketsAreRead | w5500_udp_test/comm/comm_tcp3.c:737-1051 | the packets of a transfer are read as the messages they were built from |
| EndToEnd.StreamCarriesPackets | w5500_udp_test/comm/comm_tcp3.c:246-349 | a receiver in agreement with the parser has handed out the first of the packets on the stream, and all of them once it has read all |
| EndToEnd.EndToEndDelivery | w5500_udp_test/comm/comm_tcp3.c:246-1051 | for every file, every split into fragments that fit a packet, every choice of flags, any garbage before each packet that keeps the parser in step and any slicing of the stream, the packets handed out are at any moment the first of those sent and in the end exactly those, all verify, and reassembly delivers name, size and contents once |
| EndToEnd.SeparatorFreeCarries | w5500_udp_test/comm/comm_tcp3.c:298-338 | garbage free of the separator is such garbage, as written in stretches shorter than a header |
| EndToEnd.FailedChecksumsAreAccepted | w5500_udp_test/comm/comm_tcp3.c:1067-1132 | whatever checksums stand in front of the data of a transfer's packets, those that are wrong fail their verification, and all messages are accepted one by one and the file is delivered |
| EndToEnd.EndToEndCompletes | w5500_udp_test/comm/comm_tcp3.c:246-349 | some slicing reads the whole stream, one byte a call for instance |
| SmallFile.ReadIffEncoded | w5500_udp_test/comm/comm_tcp3.c:670-734 | contents are read as a file exactly when they are its encoding, whatever lies behind them in memory |
| SmallFile.SizeTellsIff | w5500_udp_test/comm/comm_tcp3.c:667-680 | the returned size tells a file from an error exactly when the file is not empty |
| WizAppl.WizSendb | w5500_udp_test/tester/wiz_appl.c:114-135 | what has been handed over is a prefix of the buffer as long as send has answered, and the result is the whole size or the first error send has answered |
| WizAppl.WizRecvb | w5500_udp_test/tester/wiz_appl.c:140-171 | the next bytes of the stream, as many as recv has answered, are at the front of the buffer, the rest of which is untouched; the result is the size after at most four negative answers of recv, or on the fifth what has been received, if anything, and otherwise that answer |
| WizAppl.SendTcpPacket | w5500_udp_test/comm/comm_tcp3.c:635-656 | what goes out is a prefix of the packet's wire form, all of it exactly on success, which is when no send has failed |
| UdpCommand.RequestIsRead | w5500_udp_test/comm/comm_udp.c:59-80 | every port is recovered from the request that announces it |
| UdpCommand.ConnectPortIff | w5500_udp_test/comm/comm_udp.c:59-80 | a datagram is taken for a connect request exactly when it begins with "ew con ", and its first two tokens before a terminator are a port and "w5500"; the port is the number the first says |
| UdpCommand.OthersAreRefused | w5500_udp_test/comm/comm_udp.c:59-80 | in particular a request for another id, one without an id, and anything that begins otherwise are refused |
| UdpCommand.TokenIff | w5500_udp_test/comm/comm_udp.c:64-67 | the next token is what strtok says, and there is none exactly when there are only spaces |
| UdpRequests.StoredAddressIff | w5500_udp_test/ioLibrary_Driver/Ethernet/socket.c:651-688 | the address stored for a slice is that of its datagram, whatever the stack holds, exactly when the call starts the datagram |
| UdpRequests.SlicesAreTaken | w5500_udp_test/comm/comm_udp.c:37-46 | a datagram comes in the slices of forty bytes that as many calls of recvfrom hand out |
| UdpRequests.RequestsAreStoredRightIff | w5500_udp_test/comm/comm_udp.c:20-80 | all requests taken from a datagram are stored with its own address exactly when none begins forty bytes, or a multiple of forty, into its payload |
| UdpRequests.HiddenRequestIsStoredWrong | w5500_udp_test/comm/comm_udp.c:20-80 | a datagram of which the second slice is taken for a request, from whatever address the stack holds |
| PacketLog.OneMoreHandled | w5500_udp_test/comm/comm_tcp3.c:1053-1140 | a log that accounts for all traffic still does with the entry for the packet in the queue |
| PacketLog.LogIsRun | w5500_udp_test/comm/comm_tcp3.c:855-1051 | the messages and replies of such a log are a run of the reassembly |
| PacketLog.MessageIsFedIff | w5500_udp_test/comm/comm_tcp3.c:1118-1132 | a packet that has been handled has been fed to the reassembly exactly when it is well-formed and of type 3, 4 or 5, whatever its flags |
| PacketLog.RepliesIff | w5500_udp_test/comm/comm_tcp3.c:1071-1109 | something is sent back exactly for an encrypted packet whose contents fit one, its plain form, and for type 1, the packet as it came |
| PacketLog.FaultsIff | w5500_udp_test/comm/comm_tcp3.c:409-447 | the packets the machine cannot go on after, in terms of the sizes they announce |
| PacketLog.TransferIsDelivered | w5500_udp_test/comm/comm_tcp3.c:246-1140 | if the bytes received end with a whole transfer, behind whatever came before that lets its first header be reached, the last entries of such a log are its packets, all were fed to the reassembly, their messages were accepted one after the other and the file was delivered |
| PacketLog.TransferCanBeLogged | w5500_udp_test/comm/comm_tcp3.c:246-1140 | every transfer, whatever its flags, has a log that accounts for it, so the row above is not about logs that cannot exist |
| Rounds.AttemptsAreRequested | w5500_udp_test/comm/comm_tcp3.c:1205-1210 | attempts are at most as many as the requests, and each is for the host of a later request than the one before |
| Rounds.ConnectionIsRequested | w5500_udp_test/comm/comm_base.c:44-49 | connect has been called exactly once for each attempt and answered what the attempt says; no more hosts are dialed than that, those for which it got as far as the command, and no more attempts made than requests received; each attempt is for a host stored for one of them, each time a later one |
| Rounds.WaitingIsTaken | w5500_udp_test/comm/comm_tcp3.c:1158-1171 | over rounds in which the client finds its connection established and the chip does not show otherwise, as many rounds as bytes are waiting take all of them, in order |
| Rounds.UnreadIsLost | w5500_udp_test/comm/comm_tcp3.c:1173-1196 | over rounds in which it does not find it established nothing is taken, and once it has found its socket closed and opened it again nothing is left: what waits when the peer closes is lost |
| Rounds.PendingIsTried | w5500_udp_test/comm/comm_tcp3.c:1198-1211 | a round calls connect only if it found the socket ready, and then, when a request is pending, exactly once, for the host stored last, which uses the request up |
| CommMachine.CommHandler.HandleDatagram | w5500_udp_test/comm/comm_udp.c:59-80 | a connect request stores its port with the sender at hand and asks for a connection; anything else leaves the connection alone |
| CommMachine.CommHandler.UdpServer | w5500_udp_test/comm/comm_udp.c:18-101 | the status is read once; a closed socket is opened on the server's port; bytes waiting give a slice unless the socket closes; verified requests stay exactly the requests among the slices received, each stored with its port and, for a first slice, the sender in its datagram's head |
| CommMachine.CommHandler.TryConnect | w5500_udp_test/comm/comm_tcp3.c:1198-1211 | a pending request is used up by exactly one call of connect, for the stored host, whose answer says whether the chip was told; without a request there is no call |
| CommMachine.CommHandler.ServiceSocket | w5500_udp_test/comm/comm_tcp3.c:1173-1215 | in each state but established: a disconnect is issued and nothing else, or the socket is open again on a port from 2000 to 31999 with an empty queue, or without an address the board goes for one, or a pending request is tried, or nothing happens |
| CommMachine.CommHandler.TcpClient | w5500_udp_test/comm/comm_tcp3.c:1149-1218 | the status is read once and the client does what belongs to it; established, bytes waiting are taken off the front unless the socket closes, and a packet they complete is the one in the queue |
| CommMachine.CommHandler.Echo | w5500_udp_test/comm/comm_tcp3.c:1071-1109 | what is sent back is the plain form of an encrypted packet, then a command line as it came, both whole unless a send has failed |
| CommMachine.CommHandler.ProcessPacket | w5500_udp_test/comm/comm_tcp3.c:1053-1140 | a packet is answered, and a big-file packet is one step of the reassembly for its contents, whether or not its checksum is right; the machine cannot go on after a packet whose contents are not what its sizes announce or a big-file packet without contents, and goes on after any other without contents; it stops for no other reason than that, an undefined reassembly, or a reply that is not through after as many sends as one looks at |
| CommMachine.CommHandler.Step | w5500_udp_test/comm/comm_base.c:35-52 | whatever the chip does meanwhile a step is a round: the board gets an address, or the server has its turn and then the client; the queue is empty afterwards, at most one packet has been handled, and everything taken, sent, requested and dialed is accounted for |
| CommMachine.CommHandler.EventLoop | w5500_udp_test/tester/event_loop.c:37-46 | as many rounds as asked for follow one another, unless the machine cannot go on for one of those reasons, from the moment before the loop to the one after it; hosts dialed are at most as many as calls of connect, and those as requests received |
| CommMachine.MachineDelivers | w5500_udp_test/comm/comm_base.c:35-52 | whenever what the machine has taken ends with a whole transfer, behind whatever came before that lets its first header be reached, it has handled exactly the packets before it and its own, encrypted or not, fed them all to the reassembly, which accepted its messages one after the other and delivered name, size and contents |
| CommMachine.WaitingIsDelivered | w5500_udp_test/comm/comm_base.c:35-52 | so a transfer that is waiting on the client's socket is delivered within as many rounds as bytes are waiting |
| ArmMath.BlendFits | w5500_udp_test/Drivers/CMSIS/Include/arm_math.h:5524-5530 | the sum of the two rounded products and its doubling never overflow 32 bits |
| ArmMath.InterpolationIsClose | w5500_udp_test/Drivers/CMSIS/Include/arm_math.h:5503-5530 | on segment i of the table the result is at most one unit above and less than five below the exact interpolation at x |
| ArmMath.NearNeighbours | w5500_udp_test/Drivers/CMSIS/Include/arm_math.h:5515-5530 | so it lies between the two table values, but for four units below and one above |
| ArmMath.OutsideIsClamped | w5500_udp_test/Drivers/CMSIS/Include/arm_math.h:5503-5512 | outside the interior the table's end values are returned |
| ArmMath.CircularWriteQ15 | w5500_udp_test/Drivers/CMSIS/Include/arm_math.h:5905-5943 | the ring is written cell by cell from the offset on, and the offset stays inside it |
| ArmMath.CircularReadQ15 | w5500_udp_test/Drivers/CMSIS/Include/arm_math.h:5949-5999 | the destination is filled from the ring cell by cell, and the offset stays inside the ring |
| ArmMath.OffsetAfterIsModular | w5500_udp_test/Drivers/CMSIS/Include/arm_math.h:5932-5935 | after a block the offset has gone around the ring by the total increment |
| ArmMath.WrittenCell | w5500_udp_test/Drivers/CMSIS/Include/arm_math.h:5924-5939 | with unit steps each cell of the block's stretch holds its element and every other cell is untouched |
| ArmMath.SampledAt | w5500_udp_test/Drivers/CMSIS/Include/arm_math.h:5924-5930 | with any stride the block is the source's elements a stride apart |
| ArmMath.ReadCell | w5500_udp_test/Drivers/CMSIS/Include/arm_math.h:5966-5990 | the destination is a ring too: each cell of the stretch read to holds its element, and every other is untouched |
| ArmMath.StridedCell | w5500_udp_test/Drivers/CMSIS/Include/arm_math.h:5966-5990 | with any strides the elements read go to positions a stride apart and come from where the ring's stride leads |
| ArmMath.ReadReturnsWritten | w5500_udp_test/Drivers/CMSIS/Include/arm_math.h:5949-5999 | a read from where a write started returns exactly the block written, and the rest of the destination is untouched |
| Tick.StoredTick.RunPerXTicks | w5500_udp_test/support/tick.c:51-76 | a call fires, and stores the tick, as the rate limiter says |
| Tick.StoredTick.RunPerXSeconds | w5500_udp_test/support/tick.c:18-43 | so does a call with a period in seconds |
| Tick.FiringsAreApart | w5500_udp_test/support/tick.c:51-76 | over any run with non-decreasing ticks two firings are at least a period apart |
| Tick.FiresIff | w5500_udp_test/support/tick.c:51-76 | no firing is missed: after a firing the next call to fire is the first whose tick is a period later or has gone back |
| Tick.FirstFiresIff | w5500_udp_test/support/tick.c:51-76 | nor is the first one, when a tick is stored to begin with |
| Tick.RateIsLimited | w5500_udp_test/support/tick.c:51-76 | firings times the period never exceed the ticks elapsed |
| Tick.WrappedTickFiresOnce | w5500_udp_test/support/tick.c:65-75 | a tick below the stored one fires at once; the next firing is exactly a period later, unless the tick fell to 0, after which the next call only stores its tick |
| Tick.RateIsLimitedAcrossWraps | w5500_udp_test/support/tick.c:51-76 | over any run of ticks whatever, firings times the period never exceed the way the tick has gone forward by more than a period for each time it went back |

## Left out

- SocketDriver.Driver.ConnectTo: termination of the blocking calls is stated for non-blocking sockets only; with a silent peer the source's loops do not end.
- CommMachine.CommHandler.ProcessPacket: three kinds of packet end the machine's run, because the source then reads memory it never wrote or past its buffers: data shorter than its prefixes, encrypted data whose length its plain size does not announce, and a big-file message without any contents that the reassembly looks at. Nothing is said about what follows. What a command line without contents prints does not appear.
- CommMachine.CommHandler.UdpServer: the replies to a hello and the echo of other datagrams (`sendto`), and the delay command, do not appear; they touch neither the connection nor the driver's statics.
- CommMachine.CommHandler.EventLoop: the loop's rate-limited log line and its delay do not appear.
- Receiver.PacketReceiver.RecvTcpPacket: allocation of a packet record always succeeds, so `eat_tcp_data` does not appear.
- TcpPacket.CreateTcpPacket: allocation always succeeds here too.
- Heap exhaustion elsewhere is modelled in the reassembly: extraction of a message's contents, allocation of the transfer record and the copies of a file's name and contents may fail. A failed extraction for a reply, which only skips the reply, does not appear.
- `sendto`, `listen`, `setsockopt`, `getsockopt` and the register-reading requests of `ctlsocket`: no state of the driver's own.
- The W5200 and W5300 arms of the socket layer, which the build leaves out.
- The random port of the TCP client is any port from 2000 to 31999; the DHCP exchange ends with any address or none.
- SPI, DMA, interrupts, clocks, the register accessors and the DHCP client are not part of this model.
- Printing, dumps and the remembered previous socket states, which only decide what is printed.
- `comm_tcp.c` and `comm_tcp2.c`, compiled out and superseded.
- The rest of `arm_math.h`: floating-point and bilinear members and declarations without a body.
- The size of the transfer record is that of the 32-bit target, 24 bytes.
