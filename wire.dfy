/** The peer-wire message codec of the client (the "peer messages" part of
    BEP 3) over one connection. A connection is modelled as the bytes the
    peer will still send (`inbox`), the bytes the client has written
    (`outbox`) and whether the client has closed it. */
module Wire {
  import opened Base
  import opened BigEndian

  const MessageUnchoke: byte := 1
  const MessageInterested: byte := 2
  const MessageBitfield: byte := 5
  const MessageRequest: byte := 6
  const MessagePiece: byte := 7

  /** The frame `SendMessage` writes: a 4-byte big-endian length that is
      `uint32(len(payload)) + 1` in 32-bit arithmetic, the type byte, then
      the payload. */
  function Frame(messageType: byte, payload: seq<byte>): seq<byte>
  {
    PutUint32(|payload| + 1) + [messageType] + payload
  }

  datatype Conn = Conn(inbox: seq<byte>, outbox: seq<byte>, open: bool)

  /** The outcome of one operation on a connection and the connection after it. */
  datatype Step<T> = Step(result: Result<T>, conn: Conn)

  /** `conn.Write(data)`. */
  function Write(c: Conn, data: seq<byte>): Step<()>
  {
    if c.open then Step(Ok(()), c.(outbox := c.outbox + data))
    else Step(Err(ConnectionClosed), c)
  }

  /** A read into an n-byte buffer (`conn.Read` or `io.ReadAtLeast`): it
      gets exactly n bytes; when the peer has fewer left, the read consumes
      them and fails. */
  function Read(c: Conn, n: nat): (s: Step<seq<byte>>)
    ensures s.result.Ok? ==> |s.result.value| == n
  {
    if !c.open then Step(Err(ConnectionClosed), c)
    else if |c.inbox| < n then Step(Err(EndOfStream), c.(inbox := []))
    else Step(Ok(c.inbox[..n]), c.(inbox := c.inbox[n..]))
  }

  datatype Message = Message(messageType: byte, payload: seq<byte>)

  /** What `RecieveMessage` does on the connection: read the 4-byte length L,
      read the type byte, decrement L as a uint32 and read that many bytes. */
  function ReceiveMessage(c: Conn): Step<Message>
  {
    var prefix := Read(c, 4);
    if prefix.result.Err? then Step(Err(prefix.result.error), prefix.conn)
    else
      var kind := Read(prefix.conn, 1);
      if kind.result.Err? then Step(Err(kind.result.error), kind.conn)
      else
        // `length--` on a uint32: a zero prefix wraps round to 2^32 - 1
        var length := Uint32(Decode(prefix.result.value) - 1);
        var body := Read(kind.conn, length);
        if body.result.Err? then Step(Err(body.result.error), body.conn)
        else Step(Ok(Message(kind.result.value[0], body.result.value)), body.conn)
  }

  /** What `SendMessage` does on the connection. */
  function SendMessage(c: Conn, messageType: byte, payload: seq<byte>): Step<()>
  {
    Write(c, Frame(messageType, payload))
  }

  /** `RecieveBitfield`: the payload of the next message, which must be a bitfield. */
  function ReceiveBitfield(c: Conn): Step<seq<byte>>
  {
    var m := ReceiveMessage(c);
    if m.result.Err? then Step(Err(m.result.error), m.conn)
    else if m.result.value.messageType != MessageBitfield then
      Step(Err(WrongMessageType(m.result.value.messageType)), m.conn)
    else Step(Ok(m.result.value.payload), m.conn)
  }

  /** `RecieveUnchoke`: the next message must be an unchoke; its payload is dropped. */
  function ReceiveUnchoke(c: Conn): Step<()>
  {
    var m := ReceiveMessage(c);
    if m.result.Err? then Step(Err(m.result.error), m.conn)
    else if m.result.value.messageType != MessageUnchoke then
      Step(Err(WrongMessageType(m.result.value.messageType)), m.conn)
    else Step(Ok(()), m.conn)
  }

  /** The 12-byte payload of `SendRequest`: uint32 piece index, begin and
      length, each big-endian. */
  function RequestPayload(index: int, begin: int, length: int): seq<byte>
  {
    PutUint32(index) + PutUint32(begin) + PutUint32(length)
  }

  /** The fields `RecievePiece` returns. */
  datatype Block = Block(index: nat, begin: nat, data: seq<byte>)

  /** How `RecievePiece` cuts a payload: `message[0:4]` and `message[4:8]`
      read as uint32, the rest is the block. The slices panic on a payload
      shorter than 8 bytes. */
  function DecodePiece(payload: seq<byte>): Result<Block>
  {
    if |payload| < 8 then Err(Panic(SliceBoundsOutOfRange))
    else Ok(Block(Decode(payload[..4]), Decode(payload[4..8]), payload[8..]))
  }

  /** A `piece` payload as the peer lays it out (section "peer messages" of
      BEP 3): index, begin, then the block. */
  function PiecePayload(index: int, begin: int, data: seq<byte>): seq<byte>
  {
    PutUint32(index) + PutUint32(begin) + data
  }

  /** `RecievePiece`: the next message must be a piece; its header is decoded. */
  function ReceivePiece(c: Conn): Step<Block>
  {
    var m := ReceiveMessage(c);
    if m.result.Err? then Step(Err(m.result.error), m.conn)
    else if m.result.value.messageType != MessagePiece then
      Step(Err(WrongMessageType(m.result.value.messageType)), m.conn)
    else Step(DecodePiece(m.result.value.payload), m.conn)
  }

  // ---------------------------------------------------------------------
  // Properties

  /** A frame is the payload length plus five bytes; its first four bytes
      hold len(payload) + 1 (as a uint32), the fifth the type. */
  lemma FrameLayout(messageType: byte, payload: seq<byte>)
    ensures |Frame(messageType, payload)| == |payload| + 5
    ensures Decode(Frame(messageType, payload)[..4]) == Uint32(|payload| + 1)
    ensures Frame(messageType, payload)[4] == messageType
    ensures Frame(messageType, payload)[5..] == payload
  {
    var f := Frame(messageType, payload);
    assert f[..4] == PutUint32(|payload| + 1);
    Uint32RoundTrip(|payload| + 1);
  }

  /** Sending appends exactly the frame to what the client has written, and
      fails only on a closed connection. */
  lemma SendAppendsFrame(c: Conn, messageType: byte, payload: seq<byte>)
    ensures SendMessage(c, messageType, payload).result.Ok? <==> c.open
    ensures c.open ==>
      SendMessage(c, messageType, payload).conn == c.(outbox := c.outbox + Frame(messageType, payload))
    ensures !c.open ==> SendMessage(c, messageType, payload).conn == c
  {
  }

  /** Round trip: receiving a frame gives back the type and payload it was
      built from, and leaves exactly the bytes after it. */
  lemma ReceiveFrame(messageType: byte, payload: seq<byte>, rest: seq<byte>, out: seq<byte>)
    requires |payload| + 1 < Uint32Limit
    ensures ReceiveMessage(Conn(Frame(messageType, payload) + rest, out, true))
      == Step(Ok(Message(messageType, payload)), Conn(rest, out, true))
  {
    var input := Frame(messageType, payload) + rest;
    FrameLayout(messageType, payload);
    assert input[..4] == Frame(messageType, payload)[..4];
    assert input[4..][..1] == [messageType];
    assert input[4..][1..] == payload + rest;
    assert (payload + rest)[..|payload|] == payload;
    assert (payload + rest)[|payload|..] == rest;
  }

  /** A zero length prefix (a keep-alive) is not special-cased: the decrement
      wraps and 2^32 - 1 payload bytes are expected after the type byte, so
      any shorter stream fails. */
  lemma ZeroPrefixWraps(rest: seq<byte>, out: seq<byte>)
    requires |rest| < Uint32Limit
    ensures ReceiveMessage(Conn([0, 0, 0, 0] + rest, out, true)).result == Err(EndOfStream)
  {
    var input := [0, 0, 0, 0] + rest;
    assert input[..4] == [0, 0, 0, 0];
    assert Decode([0, 0, 0, 0]) == 0 by {
      assert [0, 0, 0, 0] == Zeros(4);
      ZerosDecodeToZero(4);
    }
  }

  /** The request payload is 12 bytes whose three fields read back as the
      uint32 values of index, begin and length. */
  lemma RequestFields(index: int, begin: int, length: int)
    ensures |RequestPayload(index, begin, length)| == 12
    ensures Decode(RequestPayload(index, begin, length)[..4]) == Uint32(index)
    ensures Decode(RequestPayload(index, begin, length)[4..8]) == Uint32(begin)
    ensures Decode(RequestPayload(index, begin, length)[8..]) == Uint32(length)
  {
    var p := RequestPayload(index, begin, length);
    assert p[..4] == PutUint32(index);
    assert p[4..8] == PutUint32(begin);
    assert p[8..] == PutUint32(length);
    Uint32RoundTrip(index);
    Uint32RoundTrip(begin);
    Uint32RoundTrip(length);
  }

  /** Read the way `RecievePiece` reads a piece, a request payload gives back
      the piece index and begin, with the 4 length bytes as the block. */
  lemma RequestReadAsPiece(index: int, begin: int, length: int)
    ensures DecodePiece(RequestPayload(index, begin, length))
      == Ok(Block(Uint32(index), Uint32(begin), PutUint32(length)))
  {
    RequestFields(index, begin, length);
  }

  /** Round trip of a piece payload through `RecievePiece`'s decoding. */
  lemma PieceRoundTrip(index: int, begin: int, data: seq<byte>)
    ensures DecodePiece(PiecePayload(index, begin, data)) == Ok(Block(Uint32(index), Uint32(begin), data))
  {
    var p := PiecePayload(index, begin, data);
    assert p[..4] == PutUint32(index);
    assert p[4..8] == PutUint32(begin);
    assert p[8..] == data;
    Uint32RoundTrip(index);
    Uint32RoundTrip(begin);
  }

  /** `RecieveBitfield` on a frame: fails exactly when the type is not 5,
      and otherwise returns the payload unchanged. */
  lemma ReceiveBitfieldFrame(messageType: byte, payload: seq<byte>, rest: seq<byte>, out: seq<byte>)
    requires |payload| + 1 < Uint32Limit
    ensures ReceiveBitfield(Conn(Frame(messageType, payload) + rest, out, true)) == Step(
      if messageType == MessageBitfield then Ok(payload) else Err(WrongMessageType(messageType)),
      Conn(rest, out, true))
  {
    ReceiveFrame(messageType, payload, rest, out);
  }

  /** `RecieveUnchoke` on a frame: fails exactly when the type is not 1. */
  lemma ReceiveUnchokeFrame(messageType: byte, payload: seq<byte>, rest: seq<byte>, out: seq<byte>)
    requires |payload| + 1 < Uint32Limit
    ensures ReceiveUnchoke(Conn(Frame(messageType, payload) + rest, out, true)) == Step(
      if messageType == MessageUnchoke then Ok(()) else Err(WrongMessageType(messageType)),
      Conn(rest, out, true))
  {
    ReceiveFrame(messageType, payload, rest, out);
  }

  /** `RecievePiece` on a frame: fails exactly when the type is not 7, and
      on a piece message built by the peer returns its fields. */
  lemma ReceivePieceFrame(messageType: byte, index: int, begin: int, data: seq<byte>, rest: seq<byte>, out: seq<byte>)
    requires |data| + 9 < Uint32Limit
    ensures ReceivePiece(Conn(Frame(messageType, PiecePayload(index, begin, data)) + rest, out, true)) == Step(
      if messageType == MessagePiece then Ok(Block(Uint32(index), Uint32(begin), data))
      else Err(WrongMessageType(messageType)),
      Conn(rest, out, true))
  {
    ReceiveFrame(messageType, PiecePayload(index, begin, data), rest, out);
    PieceRoundTrip(index, begin, data);
  }

  /** `after` is `before` with a prefix of the peer's bytes consumed:
      nothing written, and the connection neither opened nor closed. */
  predicate OnlyConsumed(before: Conn, after: Conn) {
    after.outbox == before.outbox && after.open == before.open &&
    |after.inbox| <= |before.inbox| && after.inbox == before.inbox[|before.inbox| - |after.inbox|..]
  }

  /** Every receive never writes and never reopens or closes the
      connection; it only consumes a prefix of what the peer sent. */
  lemma ReceiveOnlyConsumes(c: Conn)
    ensures OnlyConsumed(c, ReceiveMessage(c).conn)
    ensures OnlyConsumed(c, ReceiveBitfield(c).conn)
    ensures OnlyConsumed(c, ReceiveUnchoke(c).conn)
    ensures OnlyConsumed(c, ReceivePiece(c).conn)
  {
    MessageOnlyConsumes(c);
  }

  /** Receiving one message only consumes a prefix of the inbox. */
  lemma MessageOnlyConsumes(c: Conn)
    ensures OnlyConsumed(c, ReceiveMessage(c).conn)
  {
    var p := Read(c, 4);
    var t := Read(p.conn, 1);
    assert p.conn.inbox == c.inbox[|c.inbox| - |p.conn.inbox|..];
    assert t.conn.inbox == c.inbox[|c.inbox| - |t.conn.inbox|..];
  }

  /** Nothing can be received on a closed connection, and the failed
      attempt leaves it as it was. */
  lemma ClosedConnReceivesNothing(c: Conn)
    requires !c.open
    ensures ReceiveMessage(c) == Step(Err(ConnectionClosed), c)
    ensures ReceiveBitfield(c) == Step(Err(ConnectionClosed), c)
    ensures ReceiveUnchoke(c) == Step(Err(ConnectionClosed), c)
    ensures ReceivePiece(c) == Step(Err(ConnectionClosed), c)
  {
  }
}
