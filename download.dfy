/** The block loop of `DownloadFile` on one connection: for each offset
    0, BlockSize, 2 * BlockSize, ... below the piece length, send a request,
    receive a piece message, check its index and copy its block into the
    piece buffer. */
module Download {
  import opened Base
  import opened BigEndian
  import opened Wire
  import opened Pieces

  /** The request frame the loop sends at `offset`. */
  function RequestFrame(index: int, size: nat, offset: nat): seq<byte>
  {
    Frame(MessageRequest, RequestPayload(index, offset, RequestLength(size, offset)))
  }

  /** The loop from `offset` on, with the buffer as it stands. */
  function DownloadFrom(c: Conn, index: int, size: nat, offset: nat, data: seq<byte>): (s: Step<seq<byte>>)
    requires |data| == size
    ensures s.result.Ok? ==> |s.result.value| == size
    decreases size - offset, 1
  {
    if offset >= size then Step(Ok(data), c) else BlockTurn(c, index, size, offset, data)
  }

  /** How one turn of the loop ends: it stops with an error, or it goes on
      with the connection and the buffer after the copy. */
  datatype TurnEnd = Stop(error: Error, conn: Conn) | Next(conn: Conn, data: seq<byte>)

  /** One turn of the loop at `offset`: request the block, receive a piece
      message, check its index and copy its block into the buffer. */
  function Turn(c: Conn, index: int, size: nat, offset: nat, data: seq<byte>): (t: TurnEnd)
    requires |data| == size && offset < size
    ensures t.Next? ==> |t.data| == size
  {
    var sent := SendMessage(c, MessageRequest, RequestPayload(index, offset, RequestLength(size, offset)));
    if sent.result.Err? then Stop(sent.result.error, sent.conn)
    else
      var reply := ReceivePiece(sent.conn);
      if reply.result.Err? then Stop(reply.result.error, reply.conn)
      else if reply.result.value.index != Uint32(index) then Stop(MismatchedPieceIndex, reply.conn)
      else if reply.result.value.begin > size then Stop(Panic(SliceBoundsOutOfRange), reply.conn)
      else Next(reply.conn, Copy(data, reply.result.value.begin, reply.result.value.data))
  }

  /** The loop from a turn at `offset` on. */
  function BlockTurn(c: Conn, index: int, size: nat, offset: nat, data: seq<byte>): (s: Step<seq<byte>>)
    requires |data| == size && offset < size
    ensures s.result.Ok? ==> |s.result.value| == size
    decreases size - offset, 0
  {
    match Turn(c, index, size, offset, data)
    case Stop(e, after) => Step(Err(e), after)
    case Next(after, next) => DownloadFrom(after, index, size, offset + BlockSize, next)
  }

  /** Before the end of the piece the loop is one turn, then the loop from
      the next offset unless the turn stopped it. */
  lemma LoopUnfold(c: Conn, index: int, size: nat, offset: nat, data: seq<byte>)
    requires |data| == size && offset < size
    ensures DownloadFrom(c, index, size, offset, data) == match Turn(c, index, size, offset, data)
      case Stop(e, after) => Step(Err(e), after)
      case Next(after, next) => DownloadFrom(after, index, size, offset + BlockSize, next)
  {
  }

  /** Past the end of the piece the loop returns the buffer as it stands. */
  lemma DownloadDone(c: Conn, index: int, size: nat, offset: nat, data: seq<byte>)
    requires |data| == size && offset >= size
    ensures DownloadFrom(c, index, size, offset, data) == Step(Ok(data), c)
  {
  }

  /** What one turn of the loop does, given the outcome of the request and
      of the reply. */
  lemma TurnCases(c: Conn, index: int, size: nat, offset: nat, data: seq<byte>, sent: Step<()>, reply: Step<Block>)
    requires |data| == size && offset < size
    requires sent == SendMessage(c, MessageRequest, RequestPayload(index, offset, RequestLength(size, offset)))
    requires sent.result.Ok? ==> reply == ReceivePiece(sent.conn)
    ensures sent.result.Err? ==> DownloadFrom(c, index, size, offset, data) == Step(Err(sent.result.error), sent.conn)
    ensures sent.result.Ok? && reply.result.Err? ==>
      DownloadFrom(c, index, size, offset, data) == Step(Err(reply.result.error), reply.conn)
    ensures sent.result.Ok? && reply.result.Ok? && reply.result.value.index != Uint32(index) ==>
      DownloadFrom(c, index, size, offset, data) == Step(Err(MismatchedPieceIndex), reply.conn)
    ensures (sent.result.Ok? && reply.result.Ok? && reply.result.value.index == Uint32(index) &&
             reply.result.value.begin > size) ==>
      DownloadFrom(c, index, size, offset, data) == Step(Err(Panic(SliceBoundsOutOfRange)), reply.conn)
    ensures (sent.result.Ok? && reply.result.Ok? && reply.result.value.index == Uint32(index) &&
             reply.result.value.begin <= size) ==>
      DownloadFrom(c, index, size, offset, data)
      == DownloadFrom(reply.conn, index, size, offset + BlockSize, Copy(data, reply.result.value.begin, reply.result.value.data))
  {
  }

  /** The request frames for the offsets from `offset` on, in order. */
  function RequestsFrom(index: int, size: nat, offset: nat): seq<byte>
    decreases size - offset
  {
    if offset >= size then [] else RequestFrame(index, size, offset) + RequestsFrom(index, size, offset + BlockSize)
  }

  /** The request frames from block k on are 17 bytes each (a 12-byte
      request payload behind a 5-byte header), one per remaining block: from
      block 0 the loop sends `piecesNum` requests. */
  lemma {:induction false} RequestCount(index: int, size: nat, k: nat)
    requires k <= BlockCount(size)
    ensures |RequestsFrom(index, size, BlockBegin(k))| == 17 * (BlockCount(size) - k)
    decreases BlockCount(size) - k
  {
    BlockCountIsSteps(size, k);
    if k < BlockCount(size) {
      var begin := BlockBegin(k);
      FrameLayout(MessageRequest, RequestPayload(index, begin, RequestLength(size, begin)));
      RequestFields(index, begin, RequestLength(size, begin));
      assert BlockBegin(k + 1) == begin + BlockSize;
      RequestCount(index, size, k + 1);
    }
  }

  /** The replies of a peer that holds the piece as `src`: one piece message
      per requested block, in the order requested. */
  function HonestReplies(index: int, size: nat, offset: nat, src: seq<byte>): seq<byte>
    requires |src| == size
    decreases size - offset
  {
    if offset >= size then []
    else
      var end := offset + RequestLength(size, offset);
      Frame(MessagePiece, PiecePayload(index, offset, src[offset..end])) + HonestReplies(index, size, offset + BlockSize, src)
  }

  /** Whatever the peer sends, a download that succeeds has sent exactly one
      request per block, in block order, and nothing else. */
  lemma {:induction false} SuccessSentEveryRequest(c: Conn, index: int, size: nat, offset: nat, data: seq<byte>)
    requires |data| == size
    requires DownloadFrom(c, index, size, offset, data).result.Ok?
    ensures DownloadFrom(c, index, size, offset, data).conn.outbox == c.outbox + RequestsFrom(index, size, offset)
    decreases size - offset
  {
    if offset >= size {
      SentNothingWhenDone(c, index, size, offset, data);
    } else {
      var after, next := SuccessTurn(c, index, size, offset, data);
      SuccessSentEveryRequest(after, index, size, offset + BlockSize, next);
      SentThisRequestFirst(c, index, size, offset, data, after, next);
    }
  }

  /** Past the end of the piece, a download sends nothing more. */
  lemma SentNothingWhenDone(c: Conn, index: int, size: nat, offset: nat, data: seq<byte>)
    requires |data| == size && offset >= size
    ensures DownloadFrom(c, index, size, offset, data).conn.outbox == c.outbox + RequestsFrom(index, size, offset)
  {
    DownloadDone(c, index, size, offset, data);
    assert c.outbox + [] == c.outbox;
  }

  /** The outbox after the turn at `offset`, followed by the later requests,
      is the outbox before it followed by the requests from `offset` on. */
  lemma SentThisRequestFirst(c: Conn, index: int, size: nat, offset: nat, data: seq<byte>, after: Conn, next: seq<byte>)
    requires |data| == size && |next| == size && offset < size
    requires DownloadFrom(c, index, size, offset, data) == DownloadFrom(after, index, size, offset + BlockSize, next)
    requires after.outbox == c.outbox + RequestFrame(index, size, offset)
    requires DownloadFrom(after, index, size, offset + BlockSize, next).conn.outbox
      == after.outbox + RequestsFrom(index, size, offset + BlockSize)
    ensures DownloadFrom(c, index, size, offset, data).conn.outbox == c.outbox + RequestsFrom(index, size, offset)
  {
    RequestsFromUnfold(c, index, size, offset);
  }

  /** A turn of a download that succeeds sends the request for `offset` and
      moves on to the next offset with the connection that results. */
  lemma SuccessTurn(c: Conn, index: int, size: nat, offset: nat, data: seq<byte>) returns (after: Conn, next: seq<byte>)
    requires |data| == size && offset < size
    requires DownloadFrom(c, index, size, offset, data).result.Ok?
    ensures |next| == size
    ensures DownloadFrom(c, index, size, offset, data) == DownloadFrom(after, index, size, offset + BlockSize, next)
    ensures after.outbox == c.outbox + RequestFrame(index, size, offset)
  {
    var sent := SendMessage(c, MessageRequest, RequestPayload(index, offset, RequestLength(size, offset)));
    var reply := ReceivePiece(sent.conn);
    TurnCases(c, index, size, offset, data, sent, reply);
    assert sent.result.Ok? && reply.result.Ok?;
    after := reply.conn;
    next := Copy(data, reply.result.value.begin, reply.result.value.data);
    ReceiveOnlyConsumes(sent.conn);
  }

  /** A reply carrying another piece's index stops the download after its
      single request. */
  lemma MismatchedIndexStops(c: Conn, index: int, size: nat, data: seq<byte>, other: int, begin: int, block: seq<byte>, rest: seq<byte>)
    requires |data| == size > 0 && c.open
    requires Uint32(other) != Uint32(index) && |block| + 9 < Uint32Limit
    requires c.inbox == Frame(MessagePiece, PiecePayload(other, begin, block)) + rest
    ensures DownloadFrom(c, index, size, 0, data)
      == Step(Err(MismatchedPieceIndex), Conn(rest, c.outbox + RequestFrame(index, size, 0), true))
  {
    ReceivePieceFrame(MessagePiece, other, begin, block, rest, c.outbox + RequestFrame(index, size, 0));
  }

  /** One turn of the loop against a reply for the requested block. */
  lemma StepOnReply(c: Conn, index: int, size: nat, offset: nat, data: seq<byte>, block: seq<byte>, later: seq<byte>)
    requires c.open && |data| == size && offset < size < Uint32Limit
    requires |block| <= BlockSize
    requires c.inbox == Frame(MessagePiece, PiecePayload(index, offset, block)) + later
    ensures DownloadFrom(c, index, size, offset, data)
      == DownloadFrom(Conn(later, c.outbox + RequestFrame(index, size, offset), true), index, size, offset + BlockSize,
                      Copy(data, offset, block))
  {
    var out := c.outbox + RequestFrame(index, size, offset);
    ReceivePieceFrame(MessagePiece, index, offset, block, later, out);
  }

  /** Copying the source's own block at its offset extends the prefix on
      which the buffer agrees with the source. */
  lemma CopyExtendsPrefix(data: seq<byte>, src: seq<byte>, size: nat, offset: nat, next: seq<byte>)
    requires |data| == size && |src| == size && offset < size
    requires forall j :: 0 <= j < offset ==> data[j] == src[j]
    requires next == Copy(data, offset, src[offset..offset + RequestLength(size, offset)])
    ensures forall j :: 0 <= j < Min(offset + BlockSize, size) ==> next[j] == src[j]
  {
  }

  /** One turn of the loop against an honest peer: the reply to the request
      at `offset` is the source's block there. */
  lemma HonestTurn(c: Conn, index: int, size: nat, offset: nat, data: seq<byte>, src: seq<byte>, rest: seq<byte>)
    requires c.open && size < Uint32Limit && |data| == size && |src| == size && offset < size
    requires c.inbox == HonestReplies(index, size, offset, src) + rest
    ensures DownloadFrom(c, index, size, offset, data)
      == DownloadFrom(Conn(HonestReplies(index, size, offset + BlockSize, src) + rest,
                           c.outbox + RequestFrame(index, size, offset), true),
                      index, size, offset + BlockSize, Copy(data, offset, src[offset..offset + RequestLength(size, offset)]))
  {
    var block := src[offset..offset + RequestLength(size, offset)];
    var later := HonestReplies(index, size, offset + BlockSize, src) + rest;
    assert c.inbox == Frame(MessagePiece, PiecePayload(index, offset, block)) + later;
    RequestLengthIsRemaining(size, offset);
    StepOnReply(c, index, size, offset, data, block, later);
  }

  /** The request frames from `offset` on start with the one for `offset`. */
  lemma RequestsFromUnfold(c: Conn, index: int, size: nat, offset: nat)
    requires offset < size
    ensures c.outbox + RequestFrame(index, size, offset) + RequestsFrom(index, size, offset + BlockSize)
      == c.outbox + RequestsFrom(index, size, offset)
  {
  }

  /** The inductive step of `HonestPeerDelivers`. */
  lemma HonestStep(c: Conn, index: int, size: nat, offset: nat, data: seq<byte>, src: seq<byte>, rest: seq<byte>)
    requires c.open && size < Uint32Limit && |data| == size && |src| == size && offset < size
    requires c.inbox == HonestReplies(index, size, offset, src) + rest
    requires DownloadFrom(Conn(HonestReplies(index, size, offset + BlockSize, src) + rest,
                               c.outbox + RequestFrame(index, size, offset), true),
                          index, size, offset + BlockSize, Copy(data, offset, src[offset..offset + RequestLength(size, offset)]))
      == Step(Ok(src), Conn(rest, c.outbox + RequestFrame(index, size, offset) + RequestsFrom(index, size, offset + BlockSize), true))
    ensures DownloadFrom(c, index, size, offset, data)
      == Step(Ok(src), Conn(rest, c.outbox + RequestsFrom(index, size, offset), true))
  {
    HonestTurn(c, index, size, offset, data, src, rest);
    RequestsFromUnfold(c, index, size, offset);
  }

  /** With a peer that answers every request with the right block, the
      download returns the peer's copy of the piece byte for byte, having
      sent one request per block and consumed exactly the replies. */
  lemma {:induction false} HonestPeerDelivers(c: Conn, index: int, size: nat, offset: nat, data: seq<byte>, src: seq<byte>, rest: seq<byte>)
    requires c.open && size < Uint32Limit
    requires |data| == size && |src| == size
    requires forall j :: 0 <= j < Min(offset, size) ==> data[j] == src[j]
    requires c.inbox == HonestReplies(index, size, offset, src) + rest
    ensures DownloadFrom(c, index, size, offset, data)
      == Step(Ok(src), Conn(rest, c.outbox + RequestsFrom(index, size, offset), true))
    decreases size - offset
  {
    if offset >= size {
      assert data == src by {
        assert forall j :: 0 <= j < size ==> data[j] == src[j];
      }
    } else {
      var next := Copy(data, offset, src[offset..offset + RequestLength(size, offset)]);
      var out := c.outbox + RequestFrame(index, size, offset);
      CopyExtendsPrefix(data, src, size, offset, next);
      HonestPeerDelivers(Conn(HonestReplies(index, size, offset + BlockSize, src) + rest, out, true),
                         index, size, offset + BlockSize, next, src, rest);
      HonestStep(c, index, size, offset, data, src, rest);
    }
  }
}
