/**
 The framed packet of comm_tcp3.c as a value: how a packet is built, how the fields are
 recovered from the wire, and the proof that the two undo each other.
 */
module PacketCodec {
  import opened Bytes

  const HEADER_SIZE := 8
  const CHECKSUM_LEN := 2
  const SIZE_LEN := 2
  const MAX_CONTENTS_SIZE := 50000
  const VERSION: byte := 1
  const CIPHER_GROWTH := 8

  const TYPE_CMDLINE: byte := 1
  const TYPE_SMALLFILE: byte := 2
  const TYPE_BIGFILE_START: byte := 3
  const TYPE_BIGFILE_FRAG: byte := 4
  const TYPE_BIGFILE_END: byte := 5

  const RC_MAGIC: byte := 0x42
  const RC_FS: byte := 0x1c
  const RC_GS: byte := 0x1d

  /** The checksum and the cipher, both placeholders in the source, are parameters here. */
  datatype Algos = Algos(checksum: bytes -> u16, encrypt: bytes -> bytes, decrypt: bytes -> bytes)

  /** What the codec needs of a cipher: it grows its input by eight bytes and can be undone, and
      undoing it drops eight bytes. */
  ghost predicate Sound(a: Algos) {
    && (forall b: bytes :: |a.encrypt(b)| == |b| + CIPHER_GROWTH && a.decrypt(a.encrypt(b)) == b)
    && (forall c: bytes :: |c| >= CIPHER_GROWTH ==> |a.decrypt(c)| == |c| - CIPHER_GROWTH)
  }

  /** `struct tcp_packet3_rec`; `data` is the first `dataSize` bytes of its data area. */
  datatype Packet = Packet(
    version: byte, flag: byte, kind: byte, dataSize: u16,
    checksum: u16, orgSize: u16, header: bytes, data: bytes)

  /** The checksum bit, `flag & 0x80`, of a two's complement `flag`. */
  predicate Checksummed(flag: int) {
    flag / 0x80 % 2 == 1
  }

  /** The encryption bit, `flag & 0x01`. */
  predicate Encrypted(flag: int) {
    flag % 2 == 1
  }

  /** The bytes in front of the contents: checksum, then plain size, each only when flagged. */
  function PrefixSize(flag: int): nat {
    (if Checksummed(flag) then CHECKSUM_LEN else 0) + (if Encrypted(flag) then SIZE_LEN else 0)
  }

  predicate IsHeader(h: bytes)
    requires |h| == HEADER_SIZE
  {
    h[0] == RC_FS && h[1] == RC_MAGIC && h[7] == RC_GS
  }

  function HeaderDataSize(h: bytes): u16
    requires |h| == HEADER_SIZE
  {
    FromLe16(h[5], h[6])
  }

  /** The header create_tcp_packet3_header writes; the size is truncated to 16 bits. */
  function MakeHeader(flag: int, kind: int, dataSize: u16): (h: bytes)
    ensures |h| == HEADER_SIZE
  {
    [RC_FS, RC_MAGIC, VERSION, Trunc8(flag), Trunc8(kind)] + Le16(dataSize) + [RC_GS]
  }

  /** The data area without the checksum: the part the checksum covers. */
  function CoveredPart(a: Algos, flag: int, contents: bytes): bytes {
    if Encrypted(flag) then Le16(Trunc16(|contents|)) + a.encrypt(contents) else contents
  }

  function DataField(a: Algos, flag: int, contents: bytes): bytes {
    var covered := CoveredPart(a, flag, contents);
    if Checksummed(flag) then Le16(a.checksum(covered)) + covered else covered
  }

  /** create_tcp_packet3: nothing for oversized contents, zeroed prefixes for empty ones. */
  function Create(a: Algos, flag: int, kind: int, contents: bytes): Option<Packet> {
    if |contents| > MAX_CONTENTS_SIZE then None
    else if contents == [] then
      var size := PrefixSize(flag);
      Some(Packet(VERSION, Trunc8(flag), Trunc8(kind), size, 0, 0,
                  MakeHeader(flag, kind, size), Zeros(size)))
    else
      var data := DataField(a, flag, contents);
      var size := Trunc16(|data|);
      Some(Packet(VERSION, Trunc8(flag), Trunc8(kind), size,
                  if Checksummed(flag) then a.checksum(CoveredPart(a, flag, contents)) else 0,
                  Trunc16(|contents|), MakeHeader(flag, kind, size), data))
  }

  /** A read inside the zeroed four-byte margin the allocator leaves behind the data. */
  function DataAt(data: bytes, i: nat): byte {
    if i < |data| then data[i] else 0
  }

  /** The checksum and plain-size fields fill_tcp_packet3_data_field reads off the data. */
  function FilledChecksum(flag: byte, data: bytes): u16 {
    if data != [] && Checksummed(flag) then FromLe16(DataAt(data, 0), DataAt(data, 1)) else 0
  }

  function FilledOrgSize(flag: byte, data: bytes): u16 {
    var offset: nat := if Checksummed(flag) then CHECKSUM_LEN else 0;
    if data == [] then 0
    else if Encrypted(flag) then FromLe16(DataAt(data, offset), DataAt(data, offset + 1))
    else Trunc16(|data| - offset)
  }

  /** What the receiver stores for a header followed by its announced data. */
  function FromWire(header: bytes, data: bytes): Packet
    requires |header| == HEADER_SIZE && |data| == HeaderDataSize(header)
  {
    Packet(header[2], header[3], header[4], |data|,
           FilledChecksum(header[3], data), FilledOrgSize(header[3], data), header, data)
  }

  /** veryfy_tcp_packet3_checksum. */
  predicate ChecksumOk(a: Algos, p: Packet)
    requires |p.data| == p.dataSize
  {
    p.dataSize > 0 && Checksummed(p.flag) ==>
      a.checksum(if p.dataSize < CHECKSUM_LEN then [] else p.data[CHECKSUM_LEN..]) == p.checksum
  }

  /** The data holds the prefixes its flags announce, and an encrypted body has the length its plain
      size announces: what extracting the contents takes for granted. */
  predicate SizesAgree(p: Packet) {
    && |p.data| == p.dataSize
    && PrefixSize(p.flag) <= p.dataSize
    && (Encrypted(p.flag) ==> p.dataSize - PrefixSize(p.flag) == p.orgSize + CIPHER_GROWTH)
  }

  /** And there is at least one byte of contents. */
  predicate WellFormed(p: Packet) {
    && SizesAgree(p)
    && PrefixSize(p.flag) < p.dataSize
    && (Encrypted(p.flag) ==> p.orgSize > 0)
  }

  /** extract_packet_contents on a packet with data. */
  function Contents(a: Algos, p: Packet): bytes
    requires SizesAgree(p)
  {
    var body := p.data[PrefixSize(p.flag)..];
    if Encrypted(p.flag) then a.decrypt(body) else body
  }

  /** The bytes send_tcp_packet3 puts on the wire. */
  function Wire(p: Packet): bytes {
    p.header + p.data
  }

  // ---------------------------------------------------------------------------------------

  lemma FlagBitsSurviveMasking(flag: int)
    ensures Checksummed(Trunc8(flag)) == Checksummed(flag)
    ensures Encrypted(Trunc8(flag)) == Encrypted(flag)
  {
    hide Checksummed, Encrypted, Trunc8;
    HighBitSurvives(flag);
    LowBitSurvives(flag);
  }

  lemma HighBitSurvives(flag: int)
    ensures Checksummed(Trunc8(flag)) == Checksummed(flag)
  {
    var q, h, r := flag / 0x100, flag % 0x100 / 0x80, flag % 0x80;
    assert flag == 0x80 * (2 * q + h) + r;
    OddPart(2 * q + h, q, h);
  }

  lemma LowBitSurvives(flag: int)
    ensures Encrypted(Trunc8(flag)) == Encrypted(flag)
  {
    var q, r := flag / 0x100, flag % 0x100;
    OddPart(flag, 0x80 * q, r);
  }

  lemma OddPart(x: int, k: int, r: int)
    requires x == 2 * k + r
    ensures x % 2 == r % 2
  {
  }

  lemma LittleEndianRoundTrip(v: u16)
    ensures FromLe16(Le16(v)[0], Le16(v)[1]) == v
  {
  }

  lemma HeaderCarriesSize(flag: int, kind: int, size: u16)
    ensures var h := MakeHeader(flag, kind, size);
            IsHeader(h) && HeaderDataSize(h) == size
            && h[2] == VERSION && h[3] == Trunc8(flag) && h[4] == Trunc8(kind)
  {
    LittleEndianRoundTrip(size);
  }

  lemma DataFieldSize(a: Algos, flag: int, contents: bytes)
    requires Sound(a)
    ensures |DataField(a, flag, contents)| ==
            |contents| + PrefixSize(flag) + (if Encrypted(flag) then CIPHER_GROWTH else 0)
  {
    hide Checksummed, Encrypted;
  }

  lemma DataFieldParts(a: Algos, flag: int, contents: bytes)
    requires Sound(a)
    ensures var data := DataField(a, flag, contents);
            var covered := CoveredPart(a, flag, contents);
            var offset: nat := if Checksummed(flag) then CHECKSUM_LEN else 0;
            && |data| == offset + |covered|
            && data[offset..] == covered
            && data[PrefixSize(flag)..] == (if Encrypted(flag) then a.encrypt(contents) else contents)
            && (Checksummed(flag) ==> FromLe16(data[0], data[1]) == a.checksum(covered))
            && (Encrypted(flag) ==> FromLe16(data[offset], data[offset + 1]) == Trunc16(|contents|))
  {
    hide Checksummed, Encrypted, Le16, FromLe16;
    var covered := CoveredPart(a, flag, contents);
    LittleEndianRoundTrip(a.checksum(covered));
    LittleEndianRoundTrip(Trunc16(|contents|));
    if Encrypted(flag) {
      assert covered[SIZE_LEN..] == a.encrypt(contents);
    }
  }

  lemma CreatedPacket(a: Algos, flag: int, kind: int, contents: bytes)
    requires Sound(a)
    requires 1 <= |contents| <= MAX_CONTENTS_SIZE
    ensures Create(a, flag, kind, contents).Some?
    ensures var p := Create(a, flag, kind, contents).value;
            && p.data == DataField(a, flag, contents)
            && p.dataSize == |p.data| == |contents| + PrefixSize(flag) + (if Encrypted(flag) then CIPHER_GROWTH else 0)
            && |p.header| == HEADER_SIZE && IsHeader(p.header)
            && HeaderDataSize(p.header) == p.dataSize
            && p.header[2] == VERSION && p.header[3] == Trunc8(flag) && p.header[4] == Trunc8(kind)
            && p.version == VERSION && p.flag == Trunc8(flag) && p.kind == Trunc8(kind)
            && p.orgSize == |contents|
  {
    hide Checksummed, Encrypted, DataField, CoveredPart, MakeHeader, IsHeader, HeaderDataSize, Sound;
    DataFieldSize(a, flag, contents);
    HeaderCarriesSize(flag, kind, Trunc16(|DataField(a, flag, contents)|));
  }

  lemma FilledSizeIsCreated(a: Algos, flag: int, contents: bytes)
    requires Sound(a)
    requires 1 <= |contents| <= MAX_CONTENTS_SIZE
    ensures FilledOrgSize(Trunc8(flag), DataField(a, flag, contents)) == |contents|
  {
    hide Checksummed, Encrypted, DataField, CoveredPart, FromLe16;
    DataFieldSize(a, flag, contents);
    DataFieldParts(a, flag, contents);
    FlagBitsSurviveMasking(flag);
  }

  lemma FilledChecksumIsCreated(a: Algos, flag: int, contents: bytes)
    requires Sound(a)
    requires 1 <= |contents| <= MAX_CONTENTS_SIZE
    ensures FilledChecksum(Trunc8(flag), DataField(a, flag, contents)) ==
            if Checksummed(flag) then a.checksum(CoveredPart(a, flag, contents)) else 0
  {
    hide Checksummed, Encrypted, DataField, CoveredPart, FromLe16;
    DataFieldParts(a, flag, contents);
    FlagBitsSurviveMasking(flag);
  }

  lemma CreatedPacketVerifies(a: Algos, flag: int, kind: int, contents: bytes)
    requires Sound(a)
    requires 1 <= |contents| <= MAX_CONTENTS_SIZE
    ensures var p := Create(a, flag, kind, contents).value;
            WellFormed(p) && ChecksumOk(a, p) && Contents(a, p) == contents
  {
    hide Checksummed, Encrypted, DataField, CoveredPart, FromLe16;
    CreatedPacket(a, flag, kind, contents);
    DataFieldParts(a, flag, contents);
    FlagBitsSurviveMasking(flag);
  }

  /** Main result: a packet is built exactly for contents up to the limit, and every packet built
      from some contents fits its 16-bit size field, is recognised and restored field by field from
      its wire form, passes its checksum and gives its contents back, for every flag and type
      value. */
  lemma PacketRoundTrip(a: Algos, flag: int, kind: int, contents: bytes)
    requires Sound(a)
    ensures Create(a, flag, kind, contents).Some? <==> |contents| <= MAX_CONTENTS_SIZE
    ensures 1 <= |contents| <= MAX_CONTENTS_SIZE ==>
              Restored(a, flag, kind, contents, Create(a, flag, kind, contents).value)
  {
    hide Checksummed, Encrypted, DataField, CoveredPart, FromLe16, IsHeader, HeaderDataSize;
    if 1 <= |contents| <= MAX_CONTENTS_SIZE {
      CreatedPacket(a, flag, kind, contents);
      FilledSizeIsCreated(a, flag, contents);
      FilledChecksumIsCreated(a, flag, contents);
      CreatedPacketVerifies(a, flag, kind, contents);
    }
  }

  /** What a receiver makes of a packet built from these arguments. */
  ghost predicate Restored(a: Algos, flag: int, kind: int, contents: bytes, p: Packet) {
    && |p.header| == HEADER_SIZE && IsHeader(p.header)
    && HeaderDataSize(p.header) == |p.data| == p.dataSize
    && p.dataSize == |contents| + PrefixSize(flag) + (if Encrypted(flag) then CIPHER_GROWTH else 0)
    && p.version == VERSION && p.flag == Trunc8(flag) && p.kind == Trunc8(kind)
    && p.orgSize == |contents|
    && FromWire(p.header, p.data) == p
    && WellFormed(p) && ChecksumOk(a, p) && Contents(a, p) == contents
  }

  /** A packet with another checksum in front of its data. */
  function Damaged(p: Packet, lo: byte, hi: byte): Packet {
    if |p.data| < CHECKSUM_LEN then p
    else p.(checksum := FromLe16(lo, hi), data := [lo, hi] + p.data[CHECKSUM_LEN..])
  }

  /** It is what is received then, and fails its verification exactly when that is not the checksum it
      was built with; in all other respects it is as good as before. */
  lemma DamageShowsIff(a: Algos, flag: int, kind: int, contents: bytes, lo: byte, hi: byte)
    requires Sound(a) && Checksummed(flag) && 1 <= |contents| <= MAX_CONTENTS_SIZE
    ensures var p := Create(a, flag, kind, contents).value; var q := Damaged(p, lo, hi);
            && |q.header| == HEADER_SIZE && IsHeader(q.header) && HeaderDataSize(q.header) == |q.data|
            && FromWire(q.header, q.data) == q
            && WellFormed(q) && q.kind == p.kind && Contents(a, q) == contents
            && (ChecksumOk(a, q) <==> FromLe16(lo, hi) == p.checksum)
  {
    hide Checksummed, Encrypted, DataField, CoveredPart, FromLe16, IsHeader, HeaderDataSize, MakeHeader, Create;
    CreatedPacket(a, flag, kind, contents);
    CreatedPacketVerifies(a, flag, kind, contents);
    FilledSizeIsCreated(a, flag, contents);
    FlagBitsSurviveMasking(flag);
    var p := Create(a, flag, kind, contents).value;
    var q := Damaged(p, lo, hi);
    SameBehindChecksum(p.data, q.data, p.flag);
    assert q.data[CHECKSUM_LEN..] == p.data[CHECKSUM_LEN..];
    assert q.data[PrefixSize(q.flag)..] == p.data[PrefixSize(q.flag)..];
  }

  lemma SameBehindChecksum(d: bytes, d': bytes, flag: byte)
    requires Checksummed(flag) && |d| == |d'| >= CHECKSUM_LEN && d[CHECKSUM_LEN..] == d'[CHECKSUM_LEN..]
    ensures FilledOrgSize(flag, d) == FilledOrgSize(flag, d')
    ensures FilledChecksum(flag, d') == FromLe16(d'[0], d'[1])
  {
    hide Checksummed, Encrypted, FromLe16;
    forall i: nat | i >= CHECKSUM_LEN ensures DataAt(d, i) == DataAt(d', i) {
      if i < |d| {
        assert d[i] == d[CHECKSUM_LEN..][i - CHECKSUM_LEN];
      }
    }
  }

  /** Two packets with the same wire bytes carry the same contents, flags and type. */
  lemma WireIsInjective(a: Algos, flag: int, kind: int, c: bytes, flag': int, kind': int, c': bytes)
    requires Sound(a)
    requires 1 <= |c| <= MAX_CONTENTS_SIZE && 1 <= |c'| <= MAX_CONTENTS_SIZE
    requires Wire(Create(a, flag, kind, c).value) == Wire(Create(a, flag', kind', c').value)
    ensures c == c' && Trunc8(flag) == Trunc8(flag') && Trunc8(kind) == Trunc8(kind')
  {
    PacketRoundTrip(a, flag, kind, c);
    PacketRoundTrip(a, flag', kind', c');
    var p, p' := Create(a, flag, kind, c).value, Create(a, flag', kind', c').value;
    assert p.header == Wire(p)[..HEADER_SIZE] == p'.header;
    assert p.data == Wire(p)[HEADER_SIZE..] == p'.data;
  }

  /** Empty contents are outside the round trip: the builder leaves the checksum field zero, so
      such a packet verifies exactly when it is unflagged or the checksum of what follows the
      field happens to be zero. */
  lemma EmptyContentsVerifyIff(a: Algos, flag: int, kind: int)
    ensures var p := Create(a, flag, kind, []).value;
            && |p.data| == p.dataSize == PrefixSize(flag)
            && (ChecksumOk(a, p) <==>
                Checksummed(flag) ==> a.checksum(Zeros(PrefixSize(flag) - CHECKSUM_LEN)) == 0)
  {
    FlagBitsSurviveMasking(flag);
    if Checksummed(flag) {
      assert Zeros(PrefixSize(flag))[CHECKSUM_LEN..] == Zeros(PrefixSize(flag) - CHECKSUM_LEN);
    }
  }

  // ---------------------------------------------------------------------------------------
  // The format in bytes.

  /** The two flag bits of a byte: the highest and the lowest. */
  lemma FlagBitsAre(flag: byte)
    ensures Checksummed(flag) <==> flag >= 0x80
    ensures Encrypted(flag) <==> flag == 2 * (flag / 2) + 1
  {
  }

  /** Which eight bytes are a header, and the size they announce. */
  lemma HeaderIsIff(h: bytes)
    requires |h| == 8
    ensures IsHeader(h) <==> h[0] == 0x1c && h[1] == 0x42 && h[7] == 0x1d
    ensures HeaderDataSize(h) == h[5] + 0x100 * (h[6] as int)
  {
  }

  function TwoBytes(v: u16): (s: bytes) {
    [v - v / 0x100 * 0x100, v / 0x100]
  }

  lemma TwoBytesAre(v: u16)
    ensures Le16(v) == TwoBytes(v)
  {
  }

  lemma DataFormat(a: Algos, flag: byte, contents: bytes)
    requires |contents| <= 50000
    ensures var body := if flag % 2 == 1 then TwoBytes(|contents|) + a.encrypt(contents) else contents;
            DataField(a, flag, contents) == if flag >= 0x80 then TwoBytes(a.checksum(body)) + body else body
  {
    FlagBitsAre(flag);
    hide Checksummed, Encrypted, Le16, TwoBytes;
    TwoBytesAre(|contents|);
    TwoBytesAre(a.checksum(CoveredPart(a, flag, contents)));
  }

  /** What a packet looks like on the wire: the header, then the checksum of all behind it, then the plain
      size, then the contents, the middle two only when flagged. */
  lemma WireFormat(a: Algos, flag: byte, kind: byte, contents: bytes)
    requires Sound(a) && 1 <= |contents| <= 50000
    ensures Create(a, flag, kind, contents).Some?
    ensures var body := if flag % 2 == 1 then TwoBytes(|contents|) + a.encrypt(contents) else contents;
            var data := if flag >= 0x80 then TwoBytes(a.checksum(body)) + body else body;
            && |data| < 0x1_0000
            && Wire(Create(a, flag, kind, contents).value) ==
               [0x1c, 0x42, 1, flag, kind] + TwoBytes(|data|) + [0x1d] + data
  {
    hide Checksummed, Encrypted, DataField, CoveredPart, Le16, TwoBytes, Sound;
    DataFormat(a, flag, contents);
    CreatedPacket(a, flag, kind, contents);
    TwoBytesAre(|DataField(a, flag, contents)|);
  }

  /** Without contents there are zeros where the prefixes would be. */
  lemma EmptyWireFormat(a: Algos, flag: byte, kind: byte)
    ensures var n := (if flag >= 0x80 then 2 else 0) + (if flag % 2 == 1 then 2 else 0);
            Create(a, flag, kind, []).Some? &&
            Wire(Create(a, flag, kind, []).value) == [0x1c, 0x42, 1, flag, kind] + TwoBytes(n) + [0x1d] + Zeros(n)
  {
    hide Checksummed, Encrypted;
    FlagBitsAre(flag);
    TwoBytesAre(PrefixSize(flag));
  }

  /** What is read off the wire: three fields of the header, the checksum from the first two bytes of the
      data when flagged, and the plain size from the two behind it, or what is left of the data. A byte
      that is not there is read as zero. */
  lemma FieldsOffTheWire(h: bytes, d: bytes)
    requires |h| == 8 && |d| == HeaderDataSize(h)
    ensures var p := FromWire(h, d); var m := d + [0, 0, 0, 0]; var at := if h[3] >= 0x80 then 2 else 0;
            && p.version == h[2] && p.flag == h[3] && p.kind == h[4] && p.dataSize == |d| && p.header == h && p.data == d
            && p.checksum == (if d != [] && h[3] >= 0x80 then m[0] + 0x100 * (m[1] as int) else 0)
            && p.orgSize == if d == [] then 0
                            else if h[3] % 2 == 1 then m[at] + 0x100 * (m[at + 1] as int)
                            else if |d| >= at then |d| - at else 0xFFFF
  {
    hide Checksummed, Encrypted;
    FlagBitsAre(h[3]);
  }

  /** Which packets extraction takes for granted, and which of them have contents: `n` bytes are left
      behind what the flags announce. */
  lemma SizesAgreeIff(p: Packet)
    requires |p.data| == p.dataSize
    ensures var n := p.dataSize - (if p.flag >= 0x80 then 2 else 0) - (if p.flag % 2 == 1 then 2 else 0);
            && (SizesAgree(p) <==> n >= 0 && (p.flag % 2 == 1 ==> n == p.orgSize + 8))
            && (WellFormed(p) <==> SizesAgree(p) && n > if p.flag % 2 == 1 then 8 else 0)
  {
    hide Checksummed, Encrypted;
    FlagBitsAre(p.flag);
  }

  // ---------------------------------------------------------------------------------------
  // The placeholders the source ships with.

  const CIPHER_TAG: bytes := [0x65, 0x6e, 0x63, 0x72, 0x79, 0x70, 0x74, 0x20]

  function TagEncrypt(b: bytes): bytes {
    CIPHER_TAG + b
  }

  function TagDecrypt(b: bytes): bytes {
    if |b| < CIPHER_GROWTH then [] else b[CIPHER_GROWTH..]
  }

  /** The first byte plus 0x0100; past an empty range the source reads the zeroed margin. */
  function FirstByteChecksum(b: bytes): u16 {
    DataAt(b, 0) + 0x0100
  }

  /** The placeholder cipher is one of the ciphers every theorem here is stated for. */
  lemma PlaceholderIsSound()
    ensures Sound(Algos(FirstByteChecksum, TagEncrypt, TagDecrypt))
  {
    forall b: bytes ensures TagDecrypt(TagEncrypt(b)) == b {
    }
  }

  /** With the shipped checksum a flagged empty packet always fails its own verification. */
  lemma PlaceholderRejectsEmptyFlagged(flag: int, kind: int)
    requires Checksummed(flag)
    ensures var a := Algos(FirstByteChecksum, TagEncrypt, TagDecrypt);
            var p := Create(a, flag, kind, []).value;
            |p.data| == p.dataSize && !ChecksumOk(a, p)
  {
    EmptyContentsVerifyIff(Algos(FirstByteChecksum, TagEncrypt, TagDecrypt), flag, kind);
  }
}
