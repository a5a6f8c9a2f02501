/** The byte stream of an SBus message: three integers, the metadata text and the message text. */
module SbusWire {
  import opened Basics
  import opened Datagrams

  const MAX_MSG_LENGTH := 4096

  /** A non-negative int in memory, lowest byte first. */
  function IntBytes(n: nat): (bs: seq<Byte>)
    requires n <= MAX_INT
    ensures |bs| == 4
  {
    [n % 256, n / 256 % 256, n / 65536 % 256, n / 16777216]
  }

  function ExtractInteger(bs: seq<Byte>): (r: int)
    requires |bs| == 4
    ensures MIN_INT <= r <= MAX_INT
    ensures (bs[0] as int) + 256 * (bs[1] as int) + 65536 * (bs[2] as int) +
              16777216 * (bs[3] as int) - r in {0, 4294967296}
  {
    var n: int := (bs[0] as int) + 256 * (bs[1] as int) + 65536 * (bs[2] as int) + 16777216 * (bs[3] as int);
    if n <= MAX_INT then n else n - 2 * (MAX_INT + 1)
  }

  lemma IntegerRoundTrip(n: nat)
    requires n <= MAX_INT
    ensures ExtractInteger(IntBytes(n)) == n
  {
    var a, b := n / 256, n / 65536;
    assert n == 256 * a + n % 256;
    assert a / 256 == b && a == 256 * b + a % 256;
    assert b / 256 == n / 16777216 && b == 256 * (b / 256) + b % 256;
  }

  function Header(nFiles: nat, metadata: seq<Byte>, message: seq<Byte>): (h: seq<Byte>)
    requires nFiles <= MAX_INT && |metadata| <= MAX_INT && |message| <= MAX_INT
    ensures |h| == 12
  {
    IntBytes(nFiles) + IntBytes(|metadata|) + IntBytes(|message|)
  }

  /** What is sent, without the unset last byte. */
  function Packed(nFiles: nat, metadata: seq<Byte>, message: seq<Byte>): seq<Byte>
    requires nFiles <= MAX_INT && |metadata| <= MAX_INT && |message| <= MAX_INT
  {
    Header(nFiles, metadata, message) + metadata + message
  }

  method Memcpy(dst: array<Byte>, offset: nat, src: seq<Byte>)
    requires offset + |src| <= dst.Length
    modifies dst
    ensures dst[..] == old(dst[..offset]) + src + old(dst[offset + |src|..])
  {
    var i := 0;
    while i < |src|
      invariant 0 <= i <= |src|
      invariant forall k :: 0 <= k < offset ==> dst[k] == old(dst[k])
      invariant forall k :: 0 <= k < i ==> dst[offset + k] == src[k]
      invariant forall k :: offset + i <= k < dst.Length ==> dst[k] == old(dst[k])
    {
      dst[offset + i] := src[i];
      i := i + 1;
    }
  }

  /** dump_data_to_bytestream: one byte longer than its contents, and that byte is never set. */
  method DumpDataToBytestream(nFiles: nat, metadata: seq<Byte>, message: seq<Byte>) returns (bytestream: array<Byte>)
    requires nFiles <= MAX_INT && |metadata| <= MAX_INT && |message| <= MAX_INT
    ensures fresh(bytestream) && bytestream.Length == |metadata| + |message| + 13
    ensures bytestream[..bytestream.Length - 1] == Packed(nFiles, metadata, message)
  {
    bytestream := new Byte[|metadata| + |message| + 13];
    var nOffset := 0;
    Append(bytestream, nOffset, IntBytes(nFiles), []);
    nOffset := nOffset + 4;
    Append(bytestream, nOffset, IntBytes(|metadata|), IntBytes(nFiles));
    nOffset := nOffset + 4;
    Append(bytestream, nOffset, IntBytes(|message|), IntBytes(nFiles) + IntBytes(|metadata|));
    nOffset := nOffset + 4;
    Append(bytestream, nOffset, metadata, Header(nFiles, metadata, message));
    nOffset := nOffset + |metadata|;
    Append(bytestream, nOffset, message, Header(nFiles, metadata, message) + metadata);
  }

  method Append(dst: array<Byte>, offset: nat, src: seq<Byte>, ghost done: seq<Byte>)
    requires offset + |src| <= dst.Length && dst[..offset] == done
    modifies dst
    ensures dst[..offset + |src|] == done + src
  {
    Memcpy(dst, offset, src);
  }

  /** A received message; a length of zero leaves its text out. */
  datatype Message = Message(nFiles: int, metadata: seq<Byte>, message: seq<Byte>)

  /** The unpacking half of sbus_recv_msg, on the buffer the message was received into. `None` stands for
      lengths that point outside the buffer. */
  method Unpack(buffer: array<Byte>) returns (r: Option<Message>)
    requires buffer.Length == MAX_MSG_LENGTH
    ensures r == Unpacked(buffer[..])
  {
    var lengths := new int[3];
    var i := 0;
    while i < 3
      invariant 0 <= i <= 3
      invariant forall k :: 0 <= k < i ==> lengths[k] == ExtractInteger(buffer[..][4 * k..4 * k + 4])
    {
      assert buffer[4 * i..4 * i + 4] == buffer[..][4 * i..4 * i + 4];
      lengths[i] := ExtractInteger(buffer[4 * i..4 * i + 4]);
      i := i + 1;
    }
    hide ExtractInteger;
    var nOffset := 12;
    var metadata: seq<Byte>, message: seq<Byte> := [], [];
    if lengths[1] < 0 || lengths[2] < 0 || nOffset + lengths[1] + lengths[2] > MAX_MSG_LENGTH { return None; }
    if 0 < lengths[1] {
      metadata := buffer[nOffset..nOffset + lengths[1]];
    }
    nOffset := nOffset + lengths[1];
    if 0 < lengths[2] {
      message := buffer[nOffset..nOffset + lengths[2]];
    }
    ghost var b := buffer[..];
    assert b[0..4] == b[..4] && metadata == b[12..12 + lengths[1]] && message == b[nOffset..nOffset + lengths[2]];
    r := Some(Message(lengths[0], metadata, message));
  }

  function Unpacked(buffer: seq<Byte>): Option<Message>
    requires |buffer| == MAX_MSG_LENGTH
  {
    var n, m := ExtractInteger(buffer[4..8]), ExtractInteger(buffer[8..12]);
    if n < 0 || m < 0 || 12 + n + m > MAX_MSG_LENGTH then None
    else Some(Message(ExtractInteger(buffer[0..4]), buffer[12..12 + n], buffer[12 + n..12 + n + m]))
  }

  /** How a number is laid out: four bytes, the lowest first. */
  lemma LowestFirst(n: nat)
    requires n <= MAX_INT
    ensures var b := IntBytes(n);
            (b[0] as int) + 256 * (b[1] as int) + 65536 * (b[2] as int) + 16777216 * (b[3] as int) == n
  {
    IntegerRoundTrip(n);
    var b := IntBytes(n);
    hide IntBytes;
    assert ExtractInteger(b) == n && b[3] <= 255;
    TopByte(n);
    hide ExtractInteger;
  }

  lemma TopByte(n: nat)
    requires n <= MAX_INT
    ensures IntBytes(n)[3] <= 127
  {
  }

  /** A message that fits the receive buffer is unpacked to what was packed, whatever follows it there. */
  lemma WireRoundTrip(nFiles: nat, metadata: seq<Byte>, message: seq<Byte>, buffer: seq<Byte>)
    requires nFiles <= MAX_INT && 12 + |metadata| + |message| <= 4096 == |buffer|
    requires Packed(nFiles, metadata, message) <= buffer
    ensures Unpacked(buffer) == Some(Message(nFiles, metadata, message))
  {
    hide ExtractInteger, IntBytes;
    IntegerRoundTrip(nFiles);
    IntegerRoundTrip(|metadata|);
    IntegerRoundTrip(|message|);
    Layout(nFiles, metadata, message, buffer);
  }

  lemma Layout(nFiles: nat, metadata: seq<Byte>, message: seq<Byte>, buffer: seq<Byte>)
    requires nFiles <= MAX_INT && |metadata| <= MAX_INT && |message| <= MAX_INT
    requires Packed(nFiles, metadata, message) <= buffer
    ensures buffer[0..4] == IntBytes(nFiles) && buffer[4..8] == IntBytes(|metadata|) &&
            buffer[8..12] == IntBytes(|message|)
    ensures buffer[12..12 + |metadata|] == metadata
    ensures buffer[12 + |metadata|..12 + |metadata| + |message|] == message
  {
    hide IntBytes;
    var p := Packed(nFiles, metadata, message);
    var h := Header(nFiles, metadata, message);
    assert buffer[..|p|] == p;
    assert p[..12] == h;
    assert h[0..4] == IntBytes(nFiles) && h[4..8] == IntBytes(|metadata|) && h[8..12] == IntBytes(|message|);
    assert p[12..12 + |metadata|] == metadata;
    assert p[12 + |metadata|..] == message;
  }

  /** A message that does not fit is cut, and then no unpacking can recover it: another message of the same
      lengths is received as the very same bytes. */
  lemma TooLongIsLost(nFiles: nat, metadata: seq<Byte>, message: seq<Byte>)
    returns (metadata': seq<Byte>, message': seq<Byte>)
    requires nFiles <= MAX_INT && |metadata| <= MAX_INT && |message| <= MAX_INT
    requires 12 + |metadata| + |message| > MAX_MSG_LENGTH
    ensures |metadata'| == |metadata| && |message'| == |message| && (metadata', message') != (metadata, message)
    ensures Packed(nFiles, metadata', message')[..MAX_MSG_LENGTH] == Packed(nFiles, metadata, message)[..MAX_MSG_LENGTH]
  {
    hide IntBytes;
    metadata', message' := metadata, message;
    if |message| > 0 {
      var n := |message| - 1;
      message' := message[n := if message[n] == 0 then 1 else 0];
      assert message'[n] != message[n];
    } else {
      var n := |metadata| - 1;
      metadata' := metadata[n := if metadata[n] == 0 then 1 else 0];
      assert metadata'[n] != metadata[n];
    }
  }

  /** The whole trip of a datagram: to JSON, to bytes, through the receive buffer and back. `dumps` and
      `loads` are the JSON library, of which only that it reads back what it wrote is used. */
  lemma OverTheBus(d: Datagram, filenos: seq<int>, dumps: Json -> seq<Byte>, loads: seq<Byte> -> Json,
                   buffer: seq<Byte>)
    requires forall j :: loads(dumps(j)) == j
    requires Accepted(d.command, d.sfds) && |filenos| == |d.sfds| <= MAX_INT
    requires var metadata, command := dumps(JArray(MetadataJsons(d.sfds))), dumps(CommandJson(d));
             12 + |metadata| + |command| <= MAX_MSG_LENGTH == |buffer| && Packed(|d.sfds|, metadata, command) <= buffer
    ensures var m := Unpacked(buffer);
            m.Some? && m.value.nFiles == |filenos| &&
            Decode(filenos, loads(m.value.metadata), loads(m.value.message)) ==
            Ok(Datagram(d.command, DeliveredAll(d.sfds, filenos),
                        if d.params.Some? && d.params.value == map[] then None else d.params,
                        if d.taskId == Some("") then None else d.taskId))
  {
    hide Packed, Unpacked, Decode, Accepted, MetadataJsons, CommandJson;
    WireRoundTrip(|d.sfds|, dumps(JArray(MetadataJsons(d.sfds))), dumps(CommandJson(d)), buffer);
    DatagramRoundTrip(d, filenos);
  }
}
