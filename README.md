# A verified model of a minimal BitTorrent client's byte-level core

This project models in Dafny the part of a small Go BitTorrent client that works at the byte level. The model covers five areas.

- **Peer-wire codec** (`Wire`). A message is sent as a frame: a 4-byte big-endian length, a type byte and a payload. Receiving reads the frame back. The `request` payload has 12 bytes. The `piece` header has 8 bytes. Bitfield, unchoke and piece messages are each checked for their type.
- **Handshake** (`Handshake`, `Types`). The 68-byte handshake the client writes is the `PeerHandshakeMessage` record. The peer id is taken from bytes 48..67 of the reply and returned as hex.
- **Compact peer lists** (`Peers`). `ParsePeers` cuts a tracker's list into 6-byte records and renders each as `a.b.c.d:port`.
- **Piece download** (`Pieces`, `Download`, `Torrent`).
  - `DownloadFile` computes the length of a piece.
  - It requests the piece in 16 KiB blocks.
  - It copies each block that comes back into a buffer at the offset the reply declares.
- **Bencode scalars** (`Bencode`, `Decimal`). These are the hand-written string (`<len>:<bytes>`) and integer (`i<n>e`) branches of `DecodeBencode`.

## How the model is built

The client object is the class `Torrent.Client`. Its connection registry `Conns` is a `map` field, which `Dial`, `Close` and every message operation update in place.

A connection is a value `Conn(inbox, outbox, open)`:
- `inbox` holds the bytes the peer will still send;
- `outbox` holds every byte the client has written;
- `open` is false once the client has closed it.

Every pure step on a connection returns a `Step`, which pairs the outcome with the connection afterwards. Go errors and runtime panics are `Err` values:
- a slice out of range or `make` with a negative length gives `Err(Panic(...))`;
- a missing connection gives `Err(NoConnection(address))`.

So every operation is total, and no precondition stands in for a panic.

Integers are unbounded in Dafny, so every Go conversion to `uint32` is written out as reduction modulo 2^32. This covers the frame length, the request fields, the received index and the `length--` in `RecieveMessage`. Go's truncating division is `Pieces.Quot`.

The methods of `Torrent.Client` keep the source's branches, checks and error order. `DownloadFile` departs from the source's layout in the three ways listed under "## Left out". The methods are proved against pure specification functions in `Wire`, `Handshake` and `Download`. The lemmas about those functions carry the properties:
- round trips of frames, payloads, records and compact lists;
- block tiling and piece lengths;
- the requests a download sends;
- what an honest peer's replies produce.

### Where the model follows the code rather than the protocol

- The handshake reply is read but its protocol string and info hash are not checked. Only bytes 48..67 are used (`Handshake.ExchangeReturnsParsedPeerId`).
- A zero length prefix (a keep-alive) is not special-cased. The `uint32` decrement wraps, and 2^32 - 1 payload bytes are then expected (`Wire.ZeroPrefixWraps`).
- The integer branch of bencode uses `strconv.Atoi`, so it accepts `i03e`, `i+3e` and `i-0e`, which bencode forbids (`Bencode.LenientIntegers`).
- A missing colon in a string leaves the colon index at 0, so the empty length text is rejected by `Atoi` (`Bencode.NoColonIsInvalid`).
- A reply with another piece's index aborts the download; it is not retried (`Download.MismatchedIndexStops`).
- A reply's `begin` larger than the piece makes the slice panic (`Err(Panic(SliceBoundsOutOfRange))`).
- For a piece index at or past `Length / PieceLength` the piece length is `Length - PieceLength * index`. That is zero at the boundary when the file is a whole number of pieces (`Pieces.EmptyPieceAtBoundary`), and negative beyond it, where `make` panics (`Pieces.PieceSizeNegative`).

## Model

| member | source | states |
|---|---|---|
| Peers.ParsePeers | torrent/client.go:60-75 | the loop returns exactly one `a.b.c.d:port` string per whole 6-byte record of the input, in input order; a trailing partial record contributes nothing |
| Peers.RecordsIndex | torrent/client.go:64-68 | a list of n bytes holds n / 6 records, and record k is read from bytes 6k..6k+5 |
| Peers.RecordPort | torrent/client.go:69-70 | the port, read as a uint64 from six zero bytes and record bytes 4 and 5, is 256 * byte 4 + byte 5, so below 65536 |
| Peers.RecordRoundTrip | torrent/client.go:65-70 | a record a tracker writes for an address and port reads back as that address and port |
| Peers.ParseStep | torrent/client.go:64-72 | each turn of the loop appends the string of the next record to the strings of the records before it |
| Peers.CompactRoundTrip | torrent/client.go:64-73 | a compact list written for a sequence of peers, with any partial record after it, reads back as exactly those peers in order |
| Peers.ParsedCompactList | torrent/client.go:60-75 | for a tracker's compact list, string k of the result is the rendering of peer k, and there is one string per peer |
| Wire.FrameLayout | torrent/client.go:201-207 | a frame is the payload length plus 5 bytes; bytes 0..3 hold uint32(len(payload)) + 1 big-endian, byte 4 the type and the rest the payload |
| Wire.SendAppendsFrame | torrent/client.go:196-212 | sending succeeds exactly on an open connection, and then appends exactly the frame to what was written; on a closed one nothing changes |
| Wire.ReceiveFrame | torrent/client.go:174-195 | receiving a frame gives back the type and payload it was built from and leaves exactly the bytes after it |
| Wire.ZeroPrefixWraps | torrent/client.go:183-191 | a zero length prefix wraps to 2^32 - 1 payload bytes at `length--`, so any shorter stream fails with end of stream |
| Wire.RequestFields | torrent/client.go:237-243 | the request payload is 12 bytes whose three 4-byte fields read back as uint32 of the piece index, begin and length |
| Wire.RequestReadAsPiece | torrent/client.go:238-255 | decoding a request payload as a piece header returns its piece index and begin unchanged (as uint32), with the remaining 4 bytes as the block |
| Wire.PieceRoundTrip | torrent/client.go:252-254 | a piece payload decodes to the uint32 index and begin it was built from and to exactly its block bytes after byte 8 |
| Wire.ReceiveBitfieldFrame | torrent/client.go:214-223 | on a frame, `RecieveBitfield` fails exactly when the type is not 5 and otherwise returns the payload unchanged, consuming just the frame |
| Wire.ReceiveUnchokeFrame | torrent/client.go:224-233 | on a frame, `RecieveUnchoke` fails exactly when the type is not 1, consuming just the frame |
| Wire.ReceivePieceFrame | torrent/client.go:244-256 | on a frame, `RecievePiece` fails exactly when the type is not 7 and otherwise returns the peer's index, begin and block |
| Wire.ReceiveOnlyConsumes | torrent/client.go:174-256 | each of `RecieveMessage`, `RecieveBitfield`, `RecieveUnchoke` and `RecievePiece` writes nothing, leaves the connection open or closed as it was, and only removes a prefix of the peer's bytes |
| Wire.ClosedConnReceivesNothing | torrent/client.go:179-182 | on a closed connection every receive fails with the connection unchanged |
| Handshake.Exchange | torrent/client.go:149-172 | a successful handshake returns 40 characters, the hex of a 20-byte peer id |
| Handshake.HandshakeIsRecord | torrent/client.go:154-159 | with a 20-byte info hash and peer id the appended bytes are 68 long and are exactly the serialised `PeerHandshakeMessage` (19, "BitTorrent protocol", eight zeros, hash, id) |
| Handshake.ExchangeReturnsParsedPeerId | torrent/client.go:160-172 | with at least 68 bytes from the peer the result is the hex of the `PeerId` field of the record those bytes parse to, whatever its protocol and info hash; the handshake was appended to the output and 68 bytes consumed |
| Handshake.ExchangeWithPeer | torrent/client.go:144-172 | a peer answering with its own record yields that record's peer id in hex, which decodes back to the id, and leaves the bytes after the record |
| Handshake.BadInfoHashWritesNothing | torrent/client.go:149-152 | an info hash that is not hex text fails before anything is written |
| Types.DefaultTrackerClientParams | torrent/types.go:38-48 | the info hash is passed through; `Left` is exactly `strconv.Itoa` of the file length and reads back as it; the peer id is the fixed 20-byte id; port, uploaded, downloaded and compact are exactly the texts `strconv.Itoa` writes for 6881, 0, 0 and 1 |
| Types.DefaultLiterals | torrent/types.go:41-46 | the fixed literals "6881", "0" and "1" are exactly `strconv.Itoa`'s texts for 6881, 0 and 1 and read back as them, and the default peer id is 20 bytes, the width of the handshake's `PeerId` |
| Types.PortLiteral | torrent/types.go:42 | "6881" is exactly `strconv.Itoa(6881)` and reads back as 6881 |
| Types.SerializeLayout | torrent/types.go:50-56 | the record is 68 bytes, with InfoHash at bytes 28..47 and PeerId at bytes 48..67 |
| Types.ParseSerialize | torrent/types.go:50-56 | writing a record and reading the first 68 bytes back gives the same record |
| Types.SerializeParse | torrent/types.go:50-56 | reading any 68 bytes as a record and writing it back gives the same 68 bytes |
| Bencode.ColonIndex | torrent/decode.go:19-24 | the index found holds a ':' and no earlier byte does; none is found exactly when there is no ':' |
| Bencode.FirstColonAt | torrent/decode.go:17-24 | a ':' with no ':' before it is where the search stops |
| Bencode.DecodeBencode | torrent/decode.go:15-42 | the colon-search loop computes the decoding of the specification `DecodeSpec`: string branch on a leading digit, else integer, else the library, else an error |
| Bencode.StringRoundTrip | torrent/decode.go:17-33 | `decimal(len(t)) ":" t` followed by anything decodes to t |
| Bencode.NoColonIsInvalid | torrent/decode.go:17-31 | a leading digit with no ':' gives the empty length text, which is rejected |
| Bencode.LengthPastEndPanics | torrent/decode.go:26-33 | a declared length past the end of the input panics in the slice |
| Bencode.IntegerRoundTrip | torrent/decode.go:44-54 | `"i" decimal(n) "e"` decodes to n for every int64 n, negative ones included |
| Bencode.IntegerBranch | torrent/decode.go:34-52 | an input not starting with a digit decodes to the integer n exactly when it has at least 3 bytes, 'i' first, 'e' last, and `strconv.Atoi` of the text between gives n |
| Bencode.NumberRejects | torrent/decode.go:44-54 | `decodeBenEncdoedNumber` fails as too short under 3 bytes and as undelimited when 'i' is not first or 'e' not last; it succeeds only on the form 'i' ... 'e' |
| Bencode.LenientIntegers | torrent/decode.go:44-54 | `i03e`, `i+3e` and `i-0e` are accepted, as `strconv.Atoi` accepts them |
| Bencode.LibraryIsFallback | torrent/decode.go:34-41 | the library's result is used exactly for non-empty inputs that start with no digit and fail the integer checks |
| Decimal.AtoiItoa | torrent/decode.go:26-31 | `strconv.Atoi` reads back every int64 that `strconv.Itoa` writes |
| Hex.EncodeIsLowerHex | torrent/client.go:172 | the peer id's hex text is all lower-case hex digits |
| Hex.DecodeEncode | torrent/client.go:149-152 | decoding hex text made from bytes gives those bytes back |
| BigEndian.Uint32RoundTrip | torrent/client.go:239-241 | the 4 bytes `PutUint32` writes for x read back as uint32(x) |
| BigEndian.EncodeDecode | torrent/client.go:183 | the other direction: the bytes a `Uint32` reads, written back at the same width, are the same bytes, so a frame's length prefix is determined by the value read from it |
| BigEndian.DecodeLeadingZeros | torrent/client.go:69-70 | leading zero bytes do not change a big-endian value |
| Pieces.Quot | torrent/client.go:261 | Go's division truncates toward zero, and agrees with Euclidean division on a non-negative length |
| Pieces.PieceSizeBounds | torrent/client.go:258-263 | every index below ceil(Length / PieceLength) gets a length in (0, PieceLength]: PieceLength for all but the last, and the remainder for the last |
| Pieces.EmptyPieceAtBoundary | torrent/client.go:261-262 | when Length is a multiple of PieceLength, index Length / PieceLength still takes the short-piece branch and gets length 0 |
| Pieces.PieceSizeNegative | torrent/client.go:261-265 | the computed length is negative (`make` panics) exactly for indexes past Length / PieceLength |
| Pieces.TotalIsLength | torrent/client.go:258-263 | the lengths of pieces 0 .. ceil(Length / PieceLength) - 1 add up to Length |
| Pieces.RequestLengthIsRemaining | torrent/client.go:273-280 | the requested length is min(16384, what is left of the piece), and the re-clamp to BlockSize never fires |
| Pieces.BlockCountIsSteps | torrent/client.go:266-272 | offset k * 16384 is inside the piece exactly for k below `piecesNum` |
| Pieces.BlockCountIsCeiling | torrent/client.go:266-270 | `piecesNum` is ceil(pieceLength / 16384) |
| Pieces.BlocksTile | torrent/client.go:272-280 | the first block begins at 0, each block is 1..16384 bytes, each begins where the one before ends, and the last ends at the piece length |
| Pieces.EveryByteInOneBlock | torrent/client.go:272-280 | every byte of the piece lies in exactly one requested block, the one numbered offset / 16384 |
| Pieces.RequestedSumsToSize | torrent/client.go:272-281 | the requested lengths from any block on add up to the rest of the piece |
| Pieces.Copy | torrent/client.go:291 | `copy(data[begin:], block)` writes min(len(block), len(data) - begin) bytes at begin and keeps every other byte |
| Download.LoopUnfold | torrent/client.go:272-292 | before the end of the piece the loop is one turn (request, receive, index check, copy) followed by the loop from the next offset, unless that turn stopped with an error |
| Download.DownloadDone | torrent/client.go:272-293 | once the offset reaches the piece length the loop returns the buffer and touches the connection no more |
| Download.TurnCases | torrent/client.go:281-291 | one turn fails with the send error, the receive error, the mismatched-index error or the slice panic, in that order, and otherwise continues at the next offset with the copied buffer |
| Download.RequestCount | torrent/client.go:266-281 | the loop sends `piecesNum` requests of 17 bytes each, one per block |
| Download.SuccessSentEveryRequest | torrent/client.go:272-293 | whatever the peer sends, a download that succeeds has written exactly one request per block, at offsets 0, 16384, ... in order, and nothing else |
| Download.MismatchedIndexStops | torrent/client.go:288-290 | a first reply carrying another piece's index aborts after the single request, consuming that reply |
| Download.StepOnReply | torrent/client.go:281-291 | a reply for the requested block at the requested offset is copied there and the loop goes on with the bytes after it |
| Download.CopyExtendsPrefix | torrent/client.go:291 | copying the peer's block at its offset extends the prefix on which the buffer equals the peer's piece |
| Download.HonestPeerDelivers | torrent/client.go:272-293 | with a peer that answers each request with the right block, the result is the peer's piece byte for byte, the requests were sent in block order, and exactly the replies were consumed |
| Torrent.CopyInto | torrent/client.go:291 | copying a block into the piece array leaves it equal to `Copy` of its old contents |
| Torrent.Client.constructor | torrent/client.go:38-44 | a new client keeps its torrent and configuration and has no connections |
| Torrent.Client.Dial | torrent/client.go:129-136 | a failed dial changes nothing; a successful one maps the address to a fresh open connection, replacing any earlier one |
| Torrent.Client.Close | torrent/client.go:137-143 | an unknown address changes nothing; a known one has its connection closed but stays in the map |
| Torrent.Client.Handshake | torrent/client.go:144-173 | an unknown address fails without changing any connection; otherwise the result and the new connection are those of the handshake exchange |
| Torrent.Client.RecieveMessage | torrent/client.go:174-195 | an unknown address fails without changing any connection; otherwise the three reads give the result and new connection of `ReceiveMessage` |
| Torrent.Client.SendMessage | torrent/client.go:196-213 | an unknown address fails without writing; otherwise the appended frame is written on that connection only |
| Torrent.Client.RecieveBitfield | torrent/client.go:214-223 | an unknown address fails; otherwise the result is the next message's payload if it is a bitfield, else a wrong-type error |
| Torrent.Client.RecieveUnchoke | torrent/client.go:224-233 | an unknown address fails; otherwise the next message must be an unchoke |
| Torrent.Client.SendInterested | torrent/client.go:234-236 | writes a type-2 message with an empty payload on the address's connection, or fails without writing |
| Torrent.Client.SendRequest | torrent/client.go:237-243 | writes a type-6 message whose payload is the three uint32 fields, or fails without writing |
| Torrent.Client.RecievePiece | torrent/client.go:244-256 | an unknown address fails; otherwise the next message must be a piece, whose header is decoded |
| Torrent.Client.DownloadFile | torrent/client.go:257-295 | a zero PieceLength panics; a negative piece length panics before any I/O; otherwise the result and new connection are those of the block loop on a zero buffer of the piece length, and other connections are untouched |
| Torrent.Client.RequestBlocks | torrent/client.go:272-293 | the loop over offsets 0, 16384, ... on the piece array computes exactly the download specification `DownloadFrom`: the same result and connection, and on success the array holds the returned bytes |
| Torrent.Client.AdvanceBlock | torrent/client.go:273-292 | one turn of the loop on the array either stops with the specification's error or leaves the specification unchanged from the next offset on |
| Torrent.Client.RequestBlock | torrent/client.go:273-291 | one turn on the array is the turn `Download.Turn`: if it stops, the error and new connection are the turn's and the array is unchanged; otherwise the connection is the one after the reply and the array is `Copy` of its old contents with the reply's block at the reply's offset |

## Left out

- Sockets and HTTP: `net.Dial` is the parameter `peer` of `Dial`, the bytes the peer will send. `RequestPeers`, with its URL building, `http.Get` and JSON re-marshalling, is not part of this model.
- Short reads: every read of n bytes either gets n bytes or fails with end of stream. A `conn.Read` that returns fewer bytes without an error is not modelled.
- Write errors: a write fails only on a connection the client has closed. Network failures while writing are not modelled.
- `bencode.Decode`: the fallback library is the parameter `library`, standing for what it returns on the whole input. Its parsing of lists and dictionaries, and `Marshal`/`Unmarshal`, are not modelled.
- SHA-1 and torrent file reading: the info hash is given as hex text in `TorrentFile`.
- The command-line front end is not part of this model.
- Debug output (`fmt.Println`, `fmt.Printf`) is dropped.
- `Decimal.Atoi`: it returns a single `InvalidNumber` error where `strconv.Atoi` distinguishes syntax and range errors. `Hex.DecodeString` likewise has a single `InvalidHex` error.
- `Torrent.Client.DownloadFile`: the 64-bit overflow of `PieceLength * pieceIndex` and of the loop offset is not modelled; integers are unbounded.
- `Download.HonestPeerDelivers`: it assumes a piece shorter than 2^32 bytes, so that offsets fit in the uint32 fields.
- `Torrent.Client.DownloadFile`: it looks the address up in the connection map before the loop. For an unknown address it returns an empty piece when the piece length is 0, and `NoConnection` otherwise; Go reaches the same outcome through the first `SendRequest`, or returns the empty buffer when there is no block.
- `Torrent.Client.DownloadFile`: the body of the block loop is the method `Torrent.Client.RequestBlocks` and its turns are `Torrent.Client.AdvanceBlock` and `Torrent.Client.RequestBlock`, rather than one function body.
- `Torrent.Client.DownloadFile`: `lastBlockSize` and `piecesNum` are not computed, because the loop does not use them except in debug output. `Pieces.BlockCountIsCeiling` and `Pieces.BlockCountIsSteps` state what `piecesNum` would hold.
- Hash verification, choke handling, pipelining, retries, keep-alive handling and multi-peer scheduling are not modelled, because the client does none of them.
- Concurrency: the client has none.
