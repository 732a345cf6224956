/** The arithmetic of `DownloadFile`: how long a piece is, how it is cut
    into 16 KiB block requests, and how a returned block is copied into the
    piece buffer. */
module Pieces {
  import opened Base

  const BlockSize: nat := 16384

  function Min(a: int, b: int): int {
    if a <= b then a else b
  }

  /** Go's integer division, which truncates toward zero. */
  function Quot(a: int, b: int): (q: int)
    requires b != 0
    ensures a >= 0 && b > 0 ==> q == a / b
    ensures a < 0 && b > 0 ==> q == -((-a) / b)
  {
    var m := (if a < 0 then -a else a) / (if b < 0 then -b else b);
    if (a < 0) != (b < 0) then -m else m
  }

  /** Lengths that a torrent file gives: Go's integer division on them then
      agrees with Dafny's, and it never divides by zero. */
  predicate ValidLengths(length: int, pieceLength: int) {
    length >= 0 && pieceLength > 0
  }

  /** The piece length `DownloadFile` computes: PieceLength, except for an
      index at or past Length / PieceLength, which gets what is left of the
      file after `index` whole pieces. */
  function PieceSize(length: int, pieceLength: int, index: int): int
    requires pieceLength != 0
  {
    if index >= Quot(length, pieceLength) then length - pieceLength * index else pieceLength
  }

  /** ceil(Length / PieceLength): the number of pieces of the file. */
  function PieceCount(length: int, pieceLength: int): nat
    requires ValidLengths(length, pieceLength)
  {
    (length + pieceLength - 1) / pieceLength
  }

  /** The number of pieces is the number of whole pieces, plus one when a
      partial piece is left over. */
  lemma PieceCountSplit(length: int, pieceLength: int)
    requires ValidLengths(length, pieceLength)
    ensures length == pieceLength * (length / pieceLength) + length % pieceLength
    ensures PieceCount(length, pieceLength)
      == length / pieceLength + (if length % pieceLength == 0 then 0 else 1)
  {
    var q, r := length / pieceLength, length % pieceLength;
    var n := if r == 0 then q else q + 1;
    assert pieceLength * n <= length + pieceLength - 1 < pieceLength * (n + 1);
    DivUnique(length + pieceLength - 1, pieceLength, n);
  }

  /** Every piece of the file has a length in (0, PieceLength]: the full
      length for all but the last, and for the last what the other pieces
      leave over. */
  lemma PieceSizeBounds(length: int, pieceLength: int, index: int)
    requires ValidLengths(length, pieceLength)
    requires 0 <= index < PieceCount(length, pieceLength)
    ensures 0 < PieceSize(length, pieceLength, index) <= pieceLength
    ensures PieceSize(length, pieceLength, index) == if index == PieceCount(length, pieceLength) - 1
      then length - pieceLength * (PieceCount(length, pieceLength) - 1)
      else pieceLength
  {
    PieceCountSplit(length, pieceLength);
    var q := length / pieceLength;
    if index == q {
      assert length - pieceLength * index == length % pieceLength;
    }
  }

  /** When the file is a whole number of pieces, the index just past the
      last piece still passes the final-piece test and yields an empty piece. */
  lemma EmptyPieceAtBoundary(length: int, pieceLength: int)
    requires ValidLengths(length, pieceLength)
    requires length % pieceLength == 0
    ensures PieceSize(length, pieceLength, length / pieceLength) == 0
    ensures length / pieceLength == PieceCount(length, pieceLength)
  {
    PieceCountSplit(length, pieceLength);
  }

  /** The computed length is negative (so `make` panics) exactly for the
      indexes past Length / PieceLength. */
  lemma PieceSizeNegative(length: int, pieceLength: int, index: int)
    requires ValidLengths(length, pieceLength)
    ensures PieceSize(length, pieceLength, index) < 0 <==> index > length / pieceLength
  {
    var q, r := length / pieceLength, length % pieceLength;
    assert length == pieceLength * q + r && 0 <= r < pieceLength;
    if index > q {
      MulMonotone(pieceLength, q + 1, index);
      assert pieceLength * (q + 1) == pieceLength * q + pieceLength;
    }
  }

  /** The total length of pieces 0 .. n-1. */
  function TotalSize(length: int, pieceLength: int, n: nat): int
    requires ValidLengths(length, pieceLength)
  {
    if n == 0 then 0 else TotalSize(length, pieceLength, n - 1) + PieceSize(length, pieceLength, n - 1)
  }

  lemma {:induction false} TotalOfWholePieces(length: int, pieceLength: int, n: nat)
    requires ValidLengths(length, pieceLength)
    requires n <= length / pieceLength
    ensures TotalSize(length, pieceLength, n) == pieceLength * n
  {
    if n > 0 {
      TotalOfWholePieces(length, pieceLength, n - 1);
    }
  }

  /** The pieces' lengths add up to the file length. */
  lemma TotalIsLength(length: int, pieceLength: int)
    requires ValidLengths(length, pieceLength)
    ensures TotalSize(length, pieceLength, PieceCount(length, pieceLength)) == length
  {
    PieceCountSplit(length, pieceLength);
    var q := length / pieceLength;
    TotalOfWholePieces(length, pieceLength, q);
    if length % pieceLength != 0 {
      assert PieceSize(length, pieceLength, q) == length - pieceLength * q;
    }
  }

  // ---------------------------------------------------------------------
  // Blocks of a piece

  /** The length requested at `offset` inside a piece of `size` bytes:
      BlockSize, or what is left of the piece, re-clamped to BlockSize. */
  function RequestLength(size: int, offset: int): int
  {
    if offset + BlockSize > size then
      if size - offset > BlockSize then BlockSize else size - offset
    else BlockSize
  }

  /** `piecesNum` as `DownloadFile` computes it. */
  function BlockCount(size: nat): nat
  {
    var last := size % BlockSize;
    var whole := (size - last) / BlockSize;
    if last > 0 then whole + 1 else whole
  }

  /** The requested length is what is left of the piece capped at
      BlockSize; the re-clamp never changes it. */
  lemma RequestLengthIsRemaining(size: int, offset: int)
    requires 0 <= offset < size
    ensures RequestLength(size, offset) == Min(BlockSize, size - offset)
    ensures 0 < RequestLength(size, offset) <= BlockSize
    ensures offset + BlockSize > size ==> size - offset <= BlockSize
  {
  }

  /** The offsets the loop visits, 0, BlockSize, 2 * BlockSize, ..., stay
      below the piece length for exactly `piecesNum` steps. */
  lemma BlockCountIsSteps(size: nat, k: nat)
    ensures k * BlockSize < size <==> k < BlockCount(size)
  {
    var last := size % BlockSize;
    var whole := size / BlockSize;
    assert (size - last) / BlockSize == whole by {
      DivUnique(size - last, BlockSize, whole);
    }
    if k < whole {
      assert k * BlockSize <= (whole - 1) * BlockSize;
    } else if k == whole {
      assert k * BlockSize == size - last;
    } else {
      assert k * BlockSize >= (whole + 1) * BlockSize;
    }
  }

  /** `piecesNum` is ceil(size / BlockSize). */
  lemma BlockCountIsCeiling(size: nat)
    ensures BlockCount(size) == (size + BlockSize - 1) / BlockSize
  {
    var n := BlockCount(size);
    BlockCountIsSteps(size, n);
    if n > 0 {
      BlockCountIsSteps(size, n - 1);
      assert (n - 1) * BlockSize == n * BlockSize - BlockSize;
    }
    DivUnique(size + BlockSize - 1, BlockSize, n);
  }

  /** Block k of a piece: where it begins and how long it is. */
  function BlockBegin(k: nat): nat {
    k * BlockSize
  }

  function BlockEnd(size: nat, k: nat): int {
    BlockBegin(k) + RequestLength(size, BlockBegin(k))
  }

  /** The blocks tile the piece: the first begins at 0, each begins where the
      one before ends, and the last ends at the piece length. */
  lemma BlocksTile(size: nat, k: nat)
    requires k < BlockCount(size)
    ensures BlockBegin(0) == 0
    ensures 0 < BlockEnd(size, k) - BlockBegin(k) <= BlockSize
    ensures k + 1 < BlockCount(size) ==> BlockBegin(k + 1) == BlockEnd(size, k)
    ensures k + 1 == BlockCount(size) ==> BlockEnd(size, k) == size
  {
    BlockCountIsSteps(size, k);
    BlockCountIsSteps(size, k + 1);
  }

  /** Every byte of the piece lies in exactly one block: the one numbered
      offset / BlockSize. */
  lemma EveryByteInOneBlock(size: nat, offset: nat, k: nat)
    requires offset < size
    ensures k < BlockCount(size) && BlockBegin(k) <= offset < BlockEnd(size, k) <==> k == offset / BlockSize
  {
    BlockCountIsSteps(size, k);
    var j := offset / BlockSize;
    assert BlockBegin(j) <= offset < BlockBegin(j) + BlockSize;
    BlockCountIsSteps(size, j);
    if k < j {
      assert BlockBegin(k) + BlockSize <= BlockBegin(j);
    } else if k > j {
      assert BlockBegin(j) + BlockSize <= BlockBegin(k);
    }
  }

  /** The lengths of blocks k, k+1, ... add up to what is left of the piece
      after block k begins. */
  function RemainingRequested(size: nat, k: nat): int
    decreases size - k * BlockSize
  {
    if k * BlockSize >= size then 0
    else RequestLength(size, k * BlockSize) + RemainingRequested(size, k + 1)
  }

  lemma {:induction false} RequestedSumsToSize(size: nat, k: nat)
    requires k * BlockSize <= size
    ensures RemainingRequested(size, k) == size - k * BlockSize
    decreases size - k * BlockSize
  {
    if k * BlockSize < size {
      var begin := k * BlockSize;
      RequestLengthIsRemaining(size, begin);
      if begin + BlockSize <= size {
        RequestedSumsToSize(size, k + 1);
      } else {
        assert RemainingRequested(size, k + 1) == 0;
      }
    }
  }

  // ---------------------------------------------------------------------
  // Copying a block into the piece buffer

  /** `copy(data[begin:], block)`: min(len(block), len(data) - begin) bytes
      of the block land at `begin`; every other byte keeps its value. */
  function Copy(data: seq<byte>, begin: nat, block: seq<byte>): (r: seq<byte>)
    requires begin <= |data|
    ensures |r| == |data|
    ensures forall j :: 0 <= j < |data| ==>
      r[j] == if begin <= j < begin + Min(|block|, |data| - begin) then block[j - begin] else data[j]
  {
    var n := Min(|block|, |data| - begin);
    data[..begin] + block[..n] + data[begin + n..]
  }
}
