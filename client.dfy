/** `Client`: the peer connections of one torrent download, kept in a map
    from peer address to connection, and the operations that talk to a
    peer over them. */
module Torrent {
  import opened Base
  import opened BigEndian
  import opened Hex
  import opened Wire
  import opened Types
  import opened Pieces
  import opened Download
  import opened Handshake

  /** Updating a map twice at one key keeps only the second value. */
  lemma UpdateTwice<K, V>(m: map<K, V>, key: K, first: V, second: V)
    ensures m[key := first][key := second] == m[key := second]
  {
  }

  /** `copy(data[begin:], block)` on the piece buffer. */
  method CopyInto(data: array<byte>, begin: nat, block: seq<byte>)
    requires begin <= data.Length
    modifies data
    ensures data[..] == Copy(old(data[..]), begin, block)
  {
    var n := Min(|block|, data.Length - begin);
    forall j | begin <= j < begin + n {
      data[j] := block[j - begin];
    }
  }

  class Client {
    const meta: TorrentFile
    const peerId: seq<byte>
    const port: int
    var conns: map<seq<byte>, Conn>

    /** `NewClient`: no connections yet. */
    constructor(meta: TorrentFile, peerId: seq<byte>, port: int)
      ensures this.meta == meta && this.peerId == peerId && this.port == port
      ensures conns == map[]
    {
      this.meta := meta;
      this.peerId := peerId;
      this.port := port;
      conns := map[];
    }

    /** `Dial`: `peer` is what `net.Dial` gives, the bytes the peer will
        send on the new connection, or None when dialling fails. A new
        connection replaces any earlier one to the same address. */
    method Dial(address: seq<byte>, peer: Option<seq<byte>>) returns (r: Result<()>)
      modifies this
      ensures peer.None? ==> r == Err(DialFailed) && conns == old(conns)
      ensures peer.Some? ==> r == Ok(()) && conns == old(conns)[address := Conn(peer.value, [], true)]
    {
      if peer.None? {
        return Err(DialFailed);
      }
      conns := conns[address := Conn(peer.value, [], true)];
      return Ok(());
    }

    /** `Close`: closes the connection but keeps it in the map, so later
        operations on the address fail on the closed connection. */
    method Close(address: seq<byte>)
      modifies this
      ensures address !in old(conns) ==> conns == old(conns)
      ensures address in old(conns) ==>
        conns == old(conns)[address := old(conns)[address].(open := false)]
    {
      if address !in conns {
        return;
      }
      conns := conns[address := conns[address].(open := false)];
    }

    /** `Handshake`: the handshake exchange on the address's connection,
        specified by `Handshake.Exchange`. */
    method Handshake(address: seq<byte>) returns (r: Result<seq<byte>>)
      modifies this
      ensures address !in old(conns) ==> r == Err(NoConnection(address)) && conns == old(conns)
      ensures address in old(conns) ==>
        var s := Exchange(old(conns)[address], meta.infoHash, peerId);
        r == s.result && conns == old(conns)[address := s.conn]
    {
      if address !in conns {
        return Err(NoConnection(address));
      }
      var conn := conns[address];
      var infoHash := DecodeString(meta.infoHash);
      if infoHash.Err? {
        return Err(infoHash.error);
      }
      var data: seq<byte> := [];
      data := data + [19];
      data := data + ProtocolName;
      data := data + Zeros(8);
      data := data + infoHash.value;
      data := data + peerId;
      assert data == HandshakeBytes(infoHash.value, peerId);
      var sent := Write(conn, data);
      conns := conns[address := sent.conn];
      if sent.result.Err? {
        return Err(sent.result.error);
      }
      var reply := Read(sent.conn, HandshakeLength);
      conns := conns[address := reply.conn];
      if reply.result.Err? {
        return Err(reply.result.error);
      }
      var id := reply.result.value[48..48 + 20];
      return Ok(EncodeToString(id));
    }

    /** `RecieveMessage`: the length prefix, the type byte, then the
        payload; specified by `Wire.ReceiveMessage`. */
    method RecieveMessage(address: seq<byte>) returns (r: Result<Message>)
      modifies this
      ensures address !in old(conns) ==> r == Err(NoConnection(address)) && conns == old(conns)
      ensures address in old(conns) ==>
        var s := Wire.ReceiveMessage(old(conns)[address]);
        r == s.result && conns == old(conns)[address := s.conn]
    {
      if address !in conns {
        return Err(NoConnection(address));
      }
      var lengthBytes := Read(conns[address], 4);
      conns := conns[address := lengthBytes.conn];
      if lengthBytes.result.Err? {
        return Err(lengthBytes.result.error);
      }
      var length: int := Decode(lengthBytes.result.value);
      var messageType := Read(conns[address], 1);
      conns := conns[address := messageType.conn];
      if messageType.result.Err? {
        return Err(messageType.result.error);
      }
      length := Uint32(length - 1);
      var message := Read(conns[address], length);
      conns := conns[address := message.conn];
      if message.result.Err? {
        return Err(message.result.error);
      }
      return Ok(Message(messageType.result.value[0], message.result.value));
    }

    /** `SendMessage`: the frame is built by appending the 4-byte length,
        the type and the payload, then written; specified by
        `Wire.SendMessage`. */
    method SendMessage(address: seq<byte>, messageType: byte, message: seq<byte>) returns (r: Result<()>)
      modifies this
      ensures address !in old(conns) ==> r == Err(NoConnection(address)) && conns == old(conns)
      ensures address in old(conns) ==>
        var s := Wire.SendMessage(old(conns)[address], messageType, message);
        r == s.result && conns == old(conns)[address := s.conn]
    {
      if address !in conns {
        return Err(NoConnection(address));
      }
      var lengthBytes := PutUint32(|message| + 1);
      var data: seq<byte> := [];
      data := data + lengthBytes;
      data := data + [messageType];
      data := data + message;
      assert data == Frame(messageType, message);
      var sent := Write(conns[address], data);
      conns := conns[address := sent.conn];
      return sent.result;
    }

    /** `RecieveBitfield`, specified by `Wire.ReceiveBitfield`. */
    method RecieveBitfield(address: seq<byte>) returns (r: Result<seq<byte>>)
      modifies this
      ensures address !in old(conns) ==> r == Err(NoConnection(address)) && conns == old(conns)
      ensures address in old(conns) ==>
        var s := ReceiveBitfield(old(conns)[address]);
        r == s.result && conns == old(conns)[address := s.conn]
    {
      var m := RecieveMessage(address);
      if m.Err? {
        return Err(m.error);
      }
      if m.value.messageType != MessageBitfield {
        return Err(WrongMessageType(m.value.messageType));
      }
      return Ok(m.value.payload);
    }

    /** `RecieveUnchoke`, specified by `Wire.ReceiveUnchoke`. */
    method RecieveUnchoke(address: seq<byte>) returns (r: Result<()>)
      modifies this
      ensures address !in old(conns) ==> r == Err(NoConnection(address)) && conns == old(conns)
      ensures address in old(conns) ==>
        var s := ReceiveUnchoke(old(conns)[address]);
        r == s.result && conns == old(conns)[address := s.conn]
    {
      var m := RecieveMessage(address);
      if m.Err? {
        return Err(m.error);
      }
      if m.value.messageType != MessageUnchoke {
        return Err(WrongMessageType(m.value.messageType));
      }
      return Ok(());
    }

    /** `SendInterested`: a message of type 2 with an empty payload, sent
        as `Wire.SendMessage` specifies. */
    method SendInterested(address: seq<byte>) returns (r: Result<()>)
      modifies this
      ensures address !in old(conns) ==> r == Err(NoConnection(address)) && conns == old(conns)
      ensures address in old(conns) ==>
        var s := Wire.SendMessage(old(conns)[address], MessageInterested, []);
        r == s.result && conns == old(conns)[address := s.conn]
    {
      r := SendMessage(address, MessageInterested, []);
    }

    /** `SendRequest`: a message of type 6 carrying the three uint32
        fields, sent as `Wire.SendMessage` specifies. */
    method SendRequest(address: seq<byte>, pieceIndex: int, begin: int, length: int) returns (r: Result<()>)
      modifies this
      ensures address !in old(conns) ==> r == Err(NoConnection(address)) && conns == old(conns)
      ensures address in old(conns) ==>
        var s := Wire.SendMessage(old(conns)[address], MessageRequest, RequestPayload(pieceIndex, begin, length));
        r == s.result && conns == old(conns)[address := s.conn]
    {
      var message := PutUint32(pieceIndex) + PutUint32(begin) + PutUint32(length);
      r := SendMessage(address, MessageRequest, message);
    }

    /** `RecievePiece`, specified by `Wire.ReceivePiece`. */
    method RecievePiece(address: seq<byte>) returns (r: Result<Block>)
      modifies this
      ensures address !in old(conns) ==> r == Err(NoConnection(address)) && conns == old(conns)
      ensures address in old(conns) ==>
        var s := ReceivePiece(old(conns)[address]);
        r == s.result && conns == old(conns)[address := s.conn]
    {
      var m := RecieveMessage(address);
      if m.Err? {
        return Err(m.error);
      }
      if m.value.messageType != MessagePiece {
        return Err(WrongMessageType(m.value.messageType));
      }
      r := DecodePiece(m.value.payload);
    }

    /** `DownloadFile`: the length of the piece, then one request and one
        reply per block, each reply's block copied into a fresh buffer. */
    method DownloadFile(address: seq<byte>, pieceIndex: int) returns (r: Result<seq<byte>>)
      modifies this
      ensures meta.info.pieceLength == 0 ==>
        r == Err(Panic(IntegerDivideByZero)) && conns == old(conns)
      ensures meta.info.pieceLength != 0 ==>
        var size := PieceSize(meta.info.length, meta.info.pieceLength, pieceIndex);
        (size < 0 ==> r == Err(Panic(MakeLenOutOfRange)) && conns == old(conns)) &&
        (size >= 0 && address !in old(conns) ==>
          r == (if size == 0 then Ok([]) else Err(NoConnection(address))) && conns == old(conns)) &&
        (size >= 0 && address in old(conns) ==>
          var s := DownloadFrom(old(conns)[address], pieceIndex, size, 0, Zeros(size));
          r == s.result && conns == old(conns)[address := s.conn])
    {
      var pieceLength := meta.info.pieceLength;
      var length := meta.info.length;
      if pieceLength == 0 {
        return Err(Panic(IntegerDivideByZero));
      }
      if pieceIndex >= Quot(length, pieceLength) {
        pieceLength := length - pieceLength * pieceIndex;
      }
      if pieceLength < 0 {
        return Err(Panic(MakeLenOutOfRange));
      }
      var data := new byte[pieceLength](j => 0);
      assert data[..] == Zeros(pieceLength);
      if address !in conns {
        // the first request would fail; with no blocks there is none
        if pieceLength == 0 {
          return Ok([]);
        }
        return Err(NoConnection(address));
      }
      r := RequestBlocks(address, pieceIndex, data);
    }

    /** The block loop of `DownloadFile` on a zero-filled buffer of the
        piece's length. */
    method RequestBlocks(address: seq<byte>, pieceIndex: int, data: array<byte>) returns (r: Result<seq<byte>>)
      requires address in conns
      modifies this, data
      ensures var s := DownloadFrom(old(conns)[address], pieceIndex, data.Length, 0, old(data[..]));
        r == s.result && conns == old(conns)[address := s.conn]
      ensures r.Ok? ==> data[..] == r.value
    {
      ghost var spec := DownloadFrom(conns[address], pieceIndex, data.Length, 0, data[..]);
      var i: nat := 0;
      while i < data.Length
        invariant address in conns && conns == old(conns)[address := conns[address]]
        invariant DownloadFrom(conns[address], pieceIndex, data.Length, i, data[..]) == spec
        decreases data.Length - i
      {
        ghost var before := conns;
        var failure := AdvanceBlock(address, pieceIndex, data, i);
        UpdateTwice(old(conns), address, before[address], conns[address]);
        if failure.Some? {
          assert spec == Step(Err(failure.value), conns[address]);
          return Err(failure.value);
        }
        i := i + BlockSize;
      }
      DownloadDone(conns[address], pieceIndex, data.Length, i, data[..]);
      return Ok(data[..]);
    }

    /** One turn of the block loop as the loop sees it: the download either
        stops here with the turn's error, or is the download from the next
        offset on with the new connection and buffer. */
    method AdvanceBlock(address: seq<byte>, pieceIndex: int, data: array<byte>, i: nat)
      returns (failure: Option<Error>)
      requires address in conns && i < data.Length
      modifies this, data
      ensures address in conns && conns == old(conns)[address := conns[address]]
      ensures var s := DownloadFrom(old(conns)[address], pieceIndex, data.Length, i, old(data[..]));
        match failure
        case Some(e) => s == Step(Err(e), conns[address])
        case None => s == DownloadFrom(conns[address], pieceIndex, data.Length, i + BlockSize, data[..])
    {
      ghost var before, contents := conns[address], data[..];
      LoopUnfold(before, pieceIndex, data.Length, i, contents);
      failure := RequestBlock(address, pieceIndex, data, i);
    }

    /** One turn of the block loop: request the block at offset i, receive
        a piece, check its index and copy its block into the buffer. */
    method RequestBlock(address: seq<byte>, pieceIndex: int, data: array<byte>, i: nat)
      returns (failure: Option<Error>)
      requires address in conns && i < data.Length
      modifies this, data
      ensures address in conns && conns == old(conns)[address := conns[address]]
      ensures var t := Turn(old(conns)[address], pieceIndex, data.Length, i, old(data[..]));
        match failure
        case Some(e) => t == Stop(e, conns[address]) && data[..] == old(data[..])
        case None => t == Next(conns[address], data[..])
    {
      var pieceLength := data.Length;
      var blockLength := BlockSize;
      if i + BlockSize > pieceLength {
        blockLength := pieceLength - i;
        if blockLength > BlockSize {
          blockLength := BlockSize;
        }
      }
      ghost var before := conns[address];
      assert blockLength == RequestLength(pieceLength, i);
      var sent := SendRequest(address, pieceIndex, i, blockLength);
      ghost var sentStep := Wire.SendMessage(before, MessageRequest, RequestPayload(pieceIndex, i, blockLength));
      if sent.Err? {
        TurnCases(before, pieceIndex, pieceLength, i, data[..], sentStep, ReceivePiece(sentStep.conn));
        return Some(sent.error);
      }
      ghost var middle := conns[address];
      var reply := RecievePiece(address);
      TurnCases(before, pieceIndex, pieceLength, i, data[..], sentStep, ReceivePiece(middle));
      if reply.Err? {
        return Some(reply.error);
      }
      if reply.value.index != Uint32(pieceIndex) {
        return Some(MismatchedPieceIndex);
      }
      if reply.value.begin > pieceLength {
        return Some(Panic(SliceBoundsOutOfRange));
      }
      CopyInto(data, reply.value.begin, reply.value.data);
      return None;
    }
  }
}
