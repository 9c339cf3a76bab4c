/** A file that fits one packet: its name, a terminator, its 16-bit size and its bytes. */
module SmallFile {
  import opened Bytes
  import opened PacketCodec
  import opened BigFile
  import opened Transfer

  datatype Named = Named(name: bytes, data: bytes)

  function Encode(f: Named): bytes
    requires |f.data| < 0x1_0000
  {
    f.name + [0] + Le16(|f.data|) + f.data
  }

  /** get_file_from_packet on extracted contents; `past` is the memory behind them. */
  function GetFile(body: bytes, past: bytes): Option<Named> {
    var mem, n := body + past, |body|;
    match Scan(mem, 0, n)
    case None => None
    case Some(end) =>
      var at := end + 1;
      var size := FromLe16(ByteAt(mem, at), ByteAt(mem, at + 1));
      if size != n - at - SIZE_LEN then None
      else Some(Named(mem[..end], mem[at + SIZE_LEN..n]))
  }

  /** The size it returns; no file is size 0. */
  function FileSize(f: Option<Named>): nat {
    if f.None? then 0 else |f.value.data|
  }

  lemma EncodedIsRead(f: Named, past: bytes)
    requires 0 !in f.name && |f.data| < 0x1_0000
    ensures GetFile(Encode(f), past) == Some(f)
  {
    var mem, n := Encode(f) + past, |Encode(f)|;
    assert mem[0..|f.name|] == f.name && mem[|f.name|] == 0;
    ScanFinds(mem, 0, n, f.name);
    LittleEndianRoundTrip(|f.data|);
    var at := |f.name| + 1;
    assert mem[at] == Le16(|f.data|)[0] && mem[at + 1] == Le16(|f.data|)[1];
    assert mem[at + 2..n] == f.data;
  }

  lemma ReadIsEncoded(body: bytes, past: bytes)
    requires GetFile(body, past).Some?
    ensures var f := GetFile(body, past).value;
            0 !in f.name && |f.data| < 0x1_0000 && body == Encode(f)
  {
    var mem, n := body + past, |body|;
    ScanIsFirst(mem, 0, n);
    var end := Scan(mem, 0, n).value;
    var f := GetFile(body, past).value;
    assert f.name == mem[0..end];
    var lo, hi := mem[end + 1], mem[end + 2];
    assert Le16(FromLe16(lo, hi)) == [lo, hi];
    assert mem[..n] == body;
    assert mem[..n] == mem[..end] + [mem[end]] + [lo, hi] + mem[end + 3..n];
  }

  /** Main result: contents are read as a file exactly when they are its encoding, whatever lies
      behind them in memory. */
  lemma ReadIffEncoded(body: bytes, past: bytes, f: Named)
    ensures GetFile(body, past) == Some(f) <==> 0 !in f.name && |f.data| < 0x1_0000 && body == Encode(f)
  {
    if GetFile(body, past) == Some(f) {
      ReadIsEncoded(body, past);
    }
    if 0 !in f.name && |f.data| < 0x1_0000 && body == Encode(f) {
      EncodedIsRead(f, past);
    }
  }

  /** The returned size tells a file from an error exactly when the file is not empty. */
  lemma SizeTellsIff(f: Named, past: bytes)
    requires 0 !in f.name && |f.data| < 0x1_0000
    ensures FileSize(GetFile(Encode(f), past)) != FileSize(None) <==> f.data != []
  {
    EncodedIsRead(f, past);
  }
}
