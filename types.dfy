/** The records of the client: torrent metainfo, the tracker query
    parameters with their defaults, and the 68-byte handshake record. */
module Types {
  import opened Base
  import opened Decimal

  datatype TorrentFileInfo = TorrentFileInfo(length: int, name: seq<byte>, pieceLength: int, pieces: seq<byte>)

  /** A torrent as the client holds it; `infoHash` is hex text. */
  datatype TorrentFile = TorrentFile(announce: seq<byte>, info: TorrentFileInfo, infoHash: seq<byte>)

  /** Tracker query parameters, every one of them text. */
  datatype TrackerClientParams = TrackerClientParams(
    infoHash: seq<byte>,
    peerId: seq<byte>,
    port: seq<byte>,
    uploaded: seq<byte>,
    downloaded: seq<byte>,
    left: seq<byte>,
    compact: seq<byte>)

  /** The peer id every default query announces. */
  const DefaultPeerId: seq<byte> := Ascii("00112233445566778899")

  /** `DefaultTrackerClientParams`: the info hash is passed through, `Left`
      is the whole file length written in decimal (nothing downloaded yet),
      and the other fields are fixed. */
  function DefaultTrackerClientParams(infoHash: seq<byte>, fileLength: int64): (p: TrackerClientParams)
    ensures p.infoHash == infoHash
    ensures p.left == Itoa(fileLength) && Atoi(p.left) == Ok(fileLength)
    ensures p.peerId == DefaultPeerId && |p.peerId| == HashLength
    ensures p.port == Itoa(6881) && Atoi(p.port) == Ok(6881)
    ensures p.uploaded == Itoa(0) && Atoi(p.uploaded) == Ok(0)
    ensures p.downloaded == Itoa(0) && Atoi(p.downloaded) == Ok(0)
    ensures p.compact == Itoa(1) && Atoi(p.compact) == Ok(1)
  {
    AtoiItoa(fileLength);
    DefaultLiterals();
    TrackerClientParams(
      infoHash := infoHash,
      peerId := DefaultPeerId,
      port := Ascii("6881"),
      uploaded := Ascii("0"),
      downloaded := Ascii("0"),
      left := Itoa(fileLength),
      compact := Ascii("1"))
  }

  /** The fixed decimal fields are the texts `strconv.Itoa` writes for
      6881, 0 and 1, and read back as those numbers. */
  lemma DefaultLiterals()
    ensures Ascii("6881") == Itoa(6881) && Atoi(Ascii("6881")) == Ok(6881)
    ensures Ascii("0") == Itoa(0) && Atoi(Ascii("0")) == Ok(0)
    ensures Ascii("1") == Itoa(1) && Atoi(Ascii("1")) == Ok(1)
    ensures |DefaultPeerId| == HashLength
  {
    PortLiteral();
    DigitLiteral(0, Ascii("0"));
    DigitLiteral(1, Ascii("1"));
  }

  /** "6881" is how `strconv.Itoa` writes 6881, and it reads back as 6881. */
  lemma PortLiteral()
    ensures Ascii("6881") == Itoa(6881) && Atoi(Ascii("6881")) == Ok(6881)
  {
    var port := Ascii("6881");
    assert port == [54, 56, 56, 49] by {
      assert port[0] == 54 && port[1] == 56 && port[2] == 56 && port[3] == 49;
    }
    assert Itoa(6881) == [54, 56, 56, 49] by {
      assert Digits(6881) == Digits(688) + [49];
      assert Digits(688) == Digits(68) + [56];
      assert Digits(68) == Digits(6) + [56];
    }
    AtoiItoa(6881);
  }

  /** A one-digit literal is how `strconv.Itoa` writes its digit, and it
      reads back as that digit. */
  lemma DigitLiteral(n: int64, s: seq<byte>)
    requires 0 <= n < 10 && s == [48 + n as int]
    ensures s == Itoa(n) && Atoi(s) == Ok(n)
  {
    assert Itoa(n) == s;
    AtoiItoa(n);
  }

  // ---------------------------------------------------------------------
  // The handshake record

  const ProtocolLength: nat := 19
  const ReservedLength: nat := 8
  const HashLength: nat := 20
  /** 1 + 19 + 8 + 20 + 20 */
  const HandshakeLength: nat := 68

  type Protocol = s: seq<byte> | |s| == ProtocolLength witness Zeros(ProtocolLength)
  type Reserved = s: seq<byte> | |s| == ReservedLength witness Zeros(ReservedLength)
  type Hash = s: seq<byte> | |s| == HashLength witness Zeros(HashLength)

  /** `PeerHandshakeMessage`: fixed-width fields, in declaration order. */
  datatype PeerHandshakeMessage = PeerHandshakeMessage(
    protocolLength: byte,
    protocol: Protocol,
    reserved: Reserved,
    infoHash: Hash,
    peerId: Hash)

  /** The record as `binary.Write` lays it out: the fields back to back. */
  function Serialize(m: PeerHandshakeMessage): seq<byte>
  {
    [m.protocolLength] + m.protocol + m.reserved + m.infoHash + m.peerId
  }

  /** The record as `binary.Read` fills it from a byte stream: the first 68
      bytes, cut at the field widths; a shorter stream is an error. */
  function Parse(b: seq<byte>): Result<PeerHandshakeMessage>
  {
    if |b| < HandshakeLength then Err(EndOfStream)
    else Ok(PeerHandshakeMessage(b[0], b[1..20], b[20..28], b[28..48], b[48..68]))
  }

  /** The record is 68 bytes; InfoHash sits at bytes 28..47 and PeerId at
      bytes 48..67, the slice the client takes from a reply. */
  lemma SerializeLayout(m: PeerHandshakeMessage)
    ensures |Serialize(m)| == HandshakeLength
    ensures Serialize(m)[0] == m.protocolLength
    ensures Serialize(m)[1..20] == m.protocol
    ensures Serialize(m)[20..28] == m.reserved
    ensures Serialize(m)[28..48] == m.infoHash
    ensures Serialize(m)[48..68] == m.peerId
  {
    var s := Serialize(m);
    assert s == [m.protocolLength] + m.protocol + m.reserved + m.infoHash + m.peerId;
  }

  /** Writing a record and reading it back gives the same record. */
  lemma ParseSerialize(m: PeerHandshakeMessage, rest: seq<byte>)
    ensures Parse(Serialize(m) + rest) == Ok(m)
  {
    SerializeLayout(m);
    var b := Serialize(m) + rest;
    assert b[..68] == Serialize(m);
    assert b[1..20] == Serialize(m)[1..20];
    assert b[20..28] == Serialize(m)[20..28];
    assert b[28..48] == Serialize(m)[28..48];
    assert b[48..68] == Serialize(m)[48..68];
  }

  /** Reading 68 bytes as a record and writing it back gives the same bytes. */
  lemma SerializeParse(b: seq<byte>)
    requires |b| >= HandshakeLength
    ensures Parse(b).Ok? && Serialize(Parse(b).value) == b[..HandshakeLength]
  {
    var m := Parse(b).value;
    assert Serialize(m) == [b[0]] + b[1..20] + b[20..28] + b[28..48] + b[48..68];
  }
}
