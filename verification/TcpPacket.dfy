/**
 The packet record of comm_tcp3.c in memory, and the code that fills it in place.
 */
module TcpPacket {
  import opened Bytes
  import opened PacketCodec

  /** Bytes the allocator leaves zeroed behind the data. */
  const MARGIN := 4

  class PacketRec {
    var version: byte
    var flag: byte
    var kind: byte
    var dataSize: u16
    var checksum: u16
    var orgSize: u16
    const header: array<byte>
    const data: array<byte>

    ghost predicate Valid()
      reads this, header, data
    {
      && header.Length == HEADER_SIZE && data.Length == dataSize + MARGIN && header != data
      && forall i :: dataSize <= i < data.Length ==> data[i] == 0
    }

    function View(): Packet
      requires Valid()
      reads this, header, data
    {
      Packet(version, flag, kind, dataSize, checksum, orgSize, header[..], data[..dataSize])
    }

    /** alloc_tcp_packet3_mem: a zeroed record with its header copied and the header's fields read. */
    constructor (h: bytes)
      requires |h| == HEADER_SIZE
      ensures Valid() && fresh(header) && fresh(data)
      ensures View() == Packet(h[2], h[3], h[4], HeaderDataSize(h), 0, 0, h, Zeros(HeaderDataSize(h)))
    {
      version, flag, kind := h[2], h[3], h[4];
      dataSize := HeaderDataSize(h);
      checksum, orgSize := 0, 0;
      header := new byte[HEADER_SIZE](i requires 0 <= i < HEADER_SIZE => h[i]);
      data := new byte[HeaderDataSize(h) + MARGIN](_ => 0);
      new;
      assert header[..] == h;
      assert data[..dataSize] == Zeros(dataSize);
    }

    /** fill_tcp_packet3_data_field. */
    method FillDataField()
      requires Valid()
      modifies this`checksum, this`orgSize
      ensures Valid()
      ensures View() == old(View()).(checksum := FilledChecksum(flag, data[..dataSize]),
                                     orgSize := FilledOrgSize(flag, data[..dataSize]))
    {
      var offset: nat := 0;
      checksum := 0;
      orgSize := 0;
      if dataSize == 0 {
        return;
      }
      ghost var d := data[..dataSize];
      assert forall i: nat :: i < MARGIN ==> data[i] == DataAt(d, i);
      if Checksummed(flag) {
        checksum := FromLe16(data[offset], data[offset + 1]);
        offset := offset + CHECKSUM_LEN;
      }
      if Encrypted(flag) {
        orgSize := FromLe16(data[offset], data[offset + 1]);
      } else {
        orgSize := Trunc16(dataSize - offset);
      }
    }
  }

  /** A memcpy into a packet's data area. */
  method CopyInto(dst: array<byte>, at: nat, src: bytes)
    requires at + |src| <= dst.Length
    modifies dst
    ensures dst[..] == Splice(old(dst[..]), at, src)
  {
    forall i | 0 <= i < |src| {
      dst[at + i] := src[i];
    }
  }

  /** The bytes the checksum stands in. */
  function SumRoom(flag: int): nat {
    if Checksummed(flag) then CHECKSUM_LEN else 0
  }

  /** Contents, then the plain size in front of them, make up the part under the checksum. */
  lemma CoveredIsLaidOut(a: Algos, flag: int, contents: bytes, buf: bytes, z: bytes)
    requires |contents| <= MAX_CONTENTS_SIZE
    requires buf == (if Encrypted(flag) then a.encrypt(contents) else contents)
    requires z == Zeros(PrefixSize(flag) + |buf| + MARGIN)
    ensures var once := Splice(z, PrefixSize(flag), buf);
            var twice := if Encrypted(flag) then Splice(once, SumRoom(flag), Le16(|contents|)) else once;
            twice == Zeros(SumRoom(flag)) + CoveredPart(a, flag, contents) + Zeros(MARGIN)
  {
    hide Checksummed, Encrypted, Le16;
  }

  /** The checksum in front of it completes the data. */
  lemma SumIsLaidOut(a: Algos, flag: int, contents: bytes, z: bytes)
    requires var covered := CoveredPart(a, flag, contents);
             z == Zeros(SumRoom(flag)) + covered + Zeros(MARGIN)
    ensures var covered := CoveredPart(a, flag, contents);
            var whole := DataField(a, flag, contents) + Zeros(MARGIN);
            if Checksummed(flag) then
              && |z| == CHECKSUM_LEN + |covered| + MARGIN && z[CHECKSUM_LEN..CHECKSUM_LEN + |covered|] == covered
              && Splice(z, 0, Le16(a.checksum(covered))) == whole
            else z == whole
  {
    hide Checksummed, Encrypted, Le16;
  }

  /** The part of create_tcp_packet3 that lays out the data of a zeroed record: contents at their
      offset, then the plain size in front of them, then the checksum over both. */
  method LayOut(a: Algos, flag: int, contents: bytes, buf: bytes, offset: nat, p: PacketRec)
    requires Sound(a) && contents != [] && |contents| <= MAX_CONTENTS_SIZE
    requires buf == (if Encrypted(flag) then a.encrypt(contents) else contents) && offset == PrefixSize(flag)
    requires p.Valid() && p.dataSize == offset + |buf| && p.data[..] == Zeros(offset + |buf| + MARGIN)
    modifies p`checksum, p`orgSize, p.data
    ensures p.data[..] == DataField(a, flag, contents) + Zeros(MARGIN)
    ensures p.orgSize == |contents|
    ensures p.checksum == if Checksummed(flag) then a.checksum(CoveredPart(a, flag, contents)) else old(p.checksum)
  {
    PutContents(a, flag, contents, buf, offset, p);
    if Checksummed(flag) {
      PutChecksum(a, flag, contents, p);
    } else {
      SumIsLaidOut(a, flag, contents, p.data[..]);
    }
  }

  method PutContents(a: Algos, flag: int, contents: bytes, buf: bytes, offset: nat, p: PacketRec)
    requires |contents| <= MAX_CONTENTS_SIZE
    requires buf == (if Encrypted(flag) then a.encrypt(contents) else contents) && offset == PrefixSize(flag)
    requires p.data[..] == Zeros(offset + |buf| + MARGIN)
    modifies p`orgSize, p.data
    ensures p.data[..] == Zeros(SumRoom(flag)) + CoveredPart(a, flag, contents) + Zeros(MARGIN)
    ensures p.orgSize == |contents|
  {
    hide Checksummed, Encrypted, Le16, CoveredPart;
    CoveredIsLaidOut(a, flag, contents, buf, p.data[..]);
    CopyInto(p.data, offset, buf);
    p.orgSize := Trunc16(|contents|);
    if Encrypted(flag) {
      CopyInto(p.data, offset - SIZE_LEN, Le16(p.orgSize));
    }
  }

  method PutChecksum(a: Algos, flag: int, contents: bytes, p: PacketRec)
    requires Checksummed(flag) && p.dataSize + MARGIN == p.data.Length
    requires p.data[..] == Zeros(SumRoom(flag)) + CoveredPart(a, flag, contents) + Zeros(MARGIN)
    modifies p`checksum, p.data
    ensures p.data[..] == DataField(a, flag, contents) + Zeros(MARGIN)
    ensures p.checksum == a.checksum(CoveredPart(a, flag, contents))
  {
    hide Encrypted, Le16, CoveredPart, DataField;
    SumIsLaidOut(a, flag, contents, p.data[..]);
    p.checksum := a.checksum(p.data[CHECKSUM_LEN..p.dataSize]);
    CopyInto(p.data, 0, Le16(p.checksum));
  }

  /** The bytes create_tcp_packet3 stores for the contents and where they go. */
  method Body(a: Algos, flag: int, contents: bytes) returns (buf: bytes, offset: nat)
    ensures contents == [] ==> buf == [] && offset == 0
    ensures contents != [] ==> buf == (if Encrypted(flag) then a.encrypt(contents) else contents) && offset == PrefixSize(flag)
  {
    buf, offset := [], 0;
    if contents != [] {
      if Encrypted(flag) {
        buf := a.encrypt(contents);
        offset := offset + SIZE_LEN;
      } else {
        buf := contents;
      }
      if Checksummed(flag) {
        offset := offset + CHECKSUM_LEN;
      }
    }
  }

  /** create_tcp_packet3_header and the allocation of a record for its size. */
  method Allocate(flag: int, kind: int, dataSize: u16) returns (p: PacketRec)
    ensures fresh(p) && fresh(p.header) && fresh(p.data) && p.Valid()
    ensures p.View() == Packet(VERSION, Trunc8(flag), Trunc8(kind), dataSize, 0, 0,
                               MakeHeader(flag, kind, dataSize), Zeros(dataSize))
    ensures p.data[..] == Zeros(dataSize + MARGIN)
  {
    var header := MakeHeader(flag, kind, dataSize);
    HeaderCarriesSize(flag, kind, dataSize);
    p := new PacketRec(header);
    assert p.data[..p.dataSize] == Zeros(dataSize);
  }

  /** create_tcp_packet3. */
  method CreateTcpPacket(a: Algos, flag: int, kind: int, contents: bytes) returns (p: PacketRec?)
    requires Sound(a)
    ensures p == null <==> Create(a, flag, kind, contents).None?
    ensures p != null ==> fresh(p) && fresh(p.header) && fresh(p.data)
    ensures p != null ==> p.Valid() && p.View() == Create(a, flag, kind, contents).value
  {
    if |contents| > MAX_CONTENTS_SIZE {
      return null;
    }
    var buf, offset := Body(a, flag, contents);
    p := Allocate(flag, kind, Trunc16(|buf| + PrefixSize(flag)));
    if contents == [] {
      return;
    }
    Fill(a, flag, kind, contents, buf, offset, p);
  }

  /** The packet of non-empty contents, from its allocated record. */
  method Fill(a: Algos, flag: int, kind: int, contents: bytes, buf: bytes, offset: nat, p: PacketRec)
    requires Sound(a) && contents != [] && |contents| <= MAX_CONTENTS_SIZE
    requires buf == (if Encrypted(flag) then a.encrypt(contents) else contents) && offset == PrefixSize(flag)
    requires p.Valid() && p.data[..] == Zeros(offset + |buf| + MARGIN)
    requires var size := offset + |buf|;
             p.View() == Packet(VERSION, Trunc8(flag), Trunc8(kind), size, 0, 0,
                                MakeHeader(flag, kind, size), Zeros(size))
    modifies p`checksum, p`orgSize, p.data
    ensures p.Valid() && p.View() == Create(a, flag, kind, contents).value
  {
    hide Checksummed, Encrypted, Le16, CoveredPart, DataField, MakeHeader;
    DataFieldSize(a, flag, contents);
    LayOut(a, flag, contents, buf, offset, p);
    assert p.data[..p.dataSize] == DataField(a, flag, contents);
    forall i | p.dataSize <= i < p.data.Length ensures p.data[i] == 0 {
      assert p.data[..][i] == 0;
    }
  }
}
