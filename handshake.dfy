/** The client side of the BitTorrent handshake (section "peer protocol"
    of BEP 3): the bytes `Handshake` writes and how it reads the reply. */
module Handshake {
  import opened Base
  import opened Hex
  import opened Wire
  import opened Types

  /** "BitTorrent protocol" */
  const ProtocolName: seq<byte> := Ascii("BitTorrent protocol")

  /** The handshake `Handshake` writes, built by successive appends: the
      protocol name length 19, the name, eight zero reserved bytes, the
      decoded info hash and the client's peer id. */
  function HandshakeBytes(infoHash: seq<byte>, peerId: seq<byte>): seq<byte>
  {
    [ProtocolLength as byte] + ProtocolName + Zeros(ReservedLength) + infoHash + peerId
  }

  /** The offset of the peer id in a reply: 1 + 19 + 8 + 20. */
  const PeerIdOffset: nat := 48

  /** One handshake on a connection: decode the hex info hash, write the
      handshake, read a 68-byte reply, and return the hex text of reply
      bytes 48..67. */
  function Exchange(c: Conn, infoHashHex: seq<byte>, peerId: seq<byte>): (s: Step<seq<byte>>)
    ensures s.result.Ok? ==> |s.result.value| == 2 * HashLength
  {
    match DecodeString(infoHashHex)
    case Err(e) => Step(Err(e), c)
    case Ok(infoHash) =>
      var sent := Write(c, HandshakeBytes(infoHash, peerId));
      if sent.result.Err? then Step(Err(sent.result.error), sent.conn)
      else
        var reply := Read(sent.conn, HandshakeLength);
        if reply.result.Err? then Step(Err(reply.result.error), reply.conn)
        else Step(Ok(EncodeToString(reply.result.value[PeerIdOffset..HandshakeLength])), reply.conn)
  }

  // ---------------------------------------------------------------------
  // Properties

  /** With a 20-byte info hash and peer id the bytes written are exactly the
      68-byte `PeerHandshakeMessage` record for them. */
  lemma HandshakeIsRecord(infoHash: seq<byte>, peerId: seq<byte>)
    requires |infoHash| == HashLength && |peerId| == HashLength
    ensures |HandshakeBytes(infoHash, peerId)| == HandshakeLength
    ensures HandshakeBytes(infoHash, peerId)
      == Serialize(PeerHandshakeMessage(19, ProtocolName, Zeros(ReservedLength), infoHash, peerId))
  {
  }

  /** A reply of at least 68 bytes: the result is the hex text of the peer
      id that `binary.Read` of the record would give; the reply's protocol
      and info hash are not checked. */
  lemma ExchangeReturnsParsedPeerId(c: Conn, infoHashHex: seq<byte>, peerId: seq<byte>)
    requires c.open && |c.inbox| >= HandshakeLength
    requires DecodeString(infoHashHex).Ok?
    ensures var infoHash := DecodeString(infoHashHex).value;
      Exchange(c, infoHashHex, peerId) == Step(
        Ok(EncodeToString(Parse(c.inbox).value.peerId)),
        Conn(c.inbox[HandshakeLength..], c.outbox + HandshakeBytes(infoHash, peerId), true))
  {
    assert c.inbox[..HandshakeLength][PeerIdOffset..HandshakeLength] == c.inbox[PeerIdOffset..HandshakeLength];
  }

  /** A peer that answers with its own handshake record: the client gets
      that peer's id, in hex, and the stream after the record is left. */
  lemma ExchangeWithPeer(c: Conn, infoHashHex: seq<byte>, peerId: seq<byte>, remote: PeerHandshakeMessage, rest: seq<byte>)
    requires c.open && c.inbox == Serialize(remote) + rest
    requires DecodeString(infoHashHex).Ok?
    ensures Exchange(c, infoHashHex, peerId).result == Ok(EncodeToString(remote.peerId))
    ensures DecodeString(EncodeToString(remote.peerId)).Ok?
    ensures DecodeString(EncodeToString(remote.peerId)).value == remote.peerId
    ensures Exchange(c, infoHashHex, peerId).conn.inbox == rest
  {
    SerializeLayout(remote);
    ParseSerialize(remote, rest);
    ExchangeReturnsParsedPeerId(c, infoHashHex, peerId);
    assert c.inbox[HandshakeLength..] == rest;
    Hex.DecodeEncode(remote.peerId);
  }

  /** An info hash that is not hex text fails before anything is written. */
  lemma BadInfoHashWritesNothing(c: Conn, infoHashHex: seq<byte>, peerId: seq<byte>)
    requires DecodeString(infoHashHex).Err?
    ensures Exchange(c, infoHashHex, peerId) == Step(Err(InvalidHex), c)
  {
  }
}
