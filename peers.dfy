/** `ParsePeers`: the tracker's compact peer list (BEP 23), six bytes per
    peer, turned into "a.b.c.d:port" strings. */
module Peers {
  import opened Base
  import opened BigEndian
  import opened Decimal

  const PeerSize: nat := 6
  const Dot: byte := 46    // '.'
  const Colon: byte := 58  // ':'

  /** One peer of a compact list: an IPv4 address and a port. */
  datatype PeerAddress = PeerAddress(a: byte, b: byte, c: byte, d: byte, port: nat)

  /** A six-byte record as the loop reads it: the four address bytes, and
      the port as `binary.BigEndian.Uint64` of the eight bytes 0, 0, 0, 0,
      0, 0, r[4], r[5]. */
  function DecodeRecord(r: seq<byte>): PeerAddress
    requires |r| == PeerSize
  {
    PeerAddress(r[0], r[1], r[2], r[3], Decode([0, 0, 0, 0, 0, 0, r[4], r[5]]))
  }

  /** `fmt.Sprintf("%d.%d.%d.%d:%d", a, b, c, d, port)`. */
  function Format(p: PeerAddress): seq<byte>
  {
    Itoa(p.a) + [Dot] + Itoa(p.b) + [Dot] + Itoa(p.c) + [Dot] + Itoa(p.d) + [Colon] + Itoa(p.port)
  }

  /** How a tracker writes one peer: address bytes, then the port big-endian. */
  function EncodeRecord(p: PeerAddress): (r: seq<byte>)
    requires p.port < 0x1_0000
    ensures |r| == PeerSize
  {
    Pow256Values();
    [p.a, p.b, p.c, p.d] + Encode(p.port, 2)
  }

  /** The peers of a compact list, one per whole record; a trailing partial
      record is ignored. */
  function Records(raw: seq<byte>): seq<PeerAddress>
    decreases |raw|
  {
    if |raw| < PeerSize then [] else [DecodeRecord(raw[..PeerSize])] + Records(raw[PeerSize..])
  }

  /** The compact list a tracker sends for `peers`. */
  function Compact(peers: seq<PeerAddress>): seq<byte>
    requires forall i :: 0 <= i < |peers| ==> peers[i].port < 0x1_0000
  {
    if |peers| == 0 then [] else EncodeRecord(peers[0]) + Compact(peers[1..])
  }

  /** The strings of a list of peers, in order. */
  function FormatAll(peers: seq<PeerAddress>): (r: seq<seq<byte>>)
    ensures |r| == |peers|
  {
    seq(|peers|, k requires 0 <= k < |peers| => Format(peers[k]))
  }

  /** The loop of `ParsePeers`: one string per whole six-byte record, in
      order. */
  method ParsePeers(raw: seq<byte>) returns (peers: seq<seq<byte>>)
    ensures peers == FormatAll(Records(raw))
  {
    ghost var records := Records(raw);
    peers := [];
    var index := 0;
    while index + PeerSize <= |raw|
      invariant index == PeerSize * |peers| <= |raw|
      invariant |peers| <= |records| && peers == FormatAll(records[..|peers|])
    {
      var p := DecodeRecord(raw[index..index + PeerSize]);
      ghost var n := |peers|;
      ParseStep(raw, n, index);
      ghost var expected := FormatAll(records[..n + 1]);
      assert expected == peers + [Format(p)];
      peers := peers + [Format(p)];
      assert |peers| == n + 1;
      index := index + PeerSize;
    }
    RecordsIndex(raw);
    DivUnique(|raw|, PeerSize, |peers|);
    assert records[..|peers|] == records;
  }

  // ---------------------------------------------------------------------
  // Properties

  /** The port of a record is byte 4 times 256 plus byte 5, so below 65536. */
  lemma RecordPort(r: seq<byte>)
    requires |r| == PeerSize
    ensures DecodeRecord(r).port == 256 * (r[4] as int) + r[5] as int < 0x1_0000
  {
    assert [0, 0, 0, 0, 0, 0, r[4], r[5]] == Zeros(6) + r[4..6];
    DecodeLeadingZeros(6, r[4..6]);
    assert r[4..6][..1] == [r[4]];
    assert [r[4]][..0] == [];
  }

  /** A record a tracker writes reads back as the peer it was written for. */
  lemma RecordRoundTrip(p: PeerAddress)
    requires p.port < 0x1_0000
    ensures DecodeRecord(EncodeRecord(p)) == p
  {
    Pow256Values();
    var r := EncodeRecord(p);
    assert r[4..6] == Encode(p.port, 2);
    assert [0, 0, 0, 0, 0, 0, r[4], r[5]] == Zeros(6) + r[4..6];
    DecodeLeadingZeros(6, r[4..6]);
    DecodeEncode(p.port, 2);
  }

  /** Records k of a list is the record at bytes 6k..6k+5, and there are
      |raw| / 6 of them. */
  lemma {:induction false} RecordsIndex(raw: seq<byte>)
    ensures |Records(raw)| == |raw| / PeerSize
    ensures forall k :: 0 <= k < |Records(raw)| ==>
      Records(raw)[k] == DecodeRecord(raw[PeerSize * k..PeerSize * k + PeerSize])
    decreases |raw|
  {
    if |raw| >= PeerSize {
      var tail := raw[PeerSize..];
      RecordsIndex(tail);
      var records := Records(raw);
      assert records == [DecodeRecord(raw[..PeerSize])] + Records(tail);
      DivUnique(|raw|, PeerSize, |tail| / PeerSize + 1);
      forall k | 0 <= k < |records|
        ensures records[k] == DecodeRecord(raw[PeerSize * k..PeerSize * k + PeerSize])
      {
        if k > 0 {
          var lo := PeerSize * (k - 1);
          assert PeerSize * k == lo + PeerSize;
          assert tail[lo..lo + PeerSize] == raw[lo + PeerSize..lo + 2 * PeerSize];
          assert records[k] == Records(tail)[k - 1];
        }
      }
    }
  }

  /** One turn of the `ParsePeers` loop appends the string of the next record. */
  lemma ParseStep(raw: seq<byte>, n: nat, index: nat)
    requires index == PeerSize * n && index + PeerSize <= |raw|
    ensures n < |Records(raw)|
    ensures FormatAll(Records(raw)[..n + 1])
      == FormatAll(Records(raw)[..n]) + [Format(DecodeRecord(raw[index..index + PeerSize]))]
  {
    var records := Records(raw);
    var p := DecodeRecord(raw[index..index + PeerSize]);
    RecordAt(raw, n, index);
    var longer := FormatAll(records[..n + 1]);
    var shorter := FormatAll(records[..n]) + [Format(p)];
    forall i | 0 <= i < n + 1
      ensures longer[i] == shorter[i]
    {
      if i < n {
        assert records[..n + 1][i] == records[..n][i];
      }
    }
    assert longer == shorter;
  }

  /** The record at a given offset, from `RecordsIndex`. */
  lemma RecordAt(raw: seq<byte>, k: nat, offset: nat)
    requires offset == PeerSize * k && offset + PeerSize <= |raw|
    ensures k < |Records(raw)| && Records(raw)[k] == DecodeRecord(raw[offset..offset + PeerSize])
  {
    RecordsIndex(raw);
    var q := |raw| / PeerSize;
    if q <= k {
      MulMonotone(PeerSize, q, k);
    }
  }

  /** A tracker's compact list, with any partial record after it, reads back
      as the peers it was written for, in order. */
  lemma {:induction false} CompactRoundTrip(peers: seq<PeerAddress>, tail: seq<byte>)
    requires forall i :: 0 <= i < |peers| ==> peers[i].port < 0x1_0000
    requires |tail| < PeerSize
    ensures Records(Compact(peers) + tail) == peers
    decreases |peers|
  {
    if |peers| > 0 {
      var raw := Compact(peers) + tail;
      var first := EncodeRecord(peers[0]);
      assert raw == first + (Compact(peers[1..]) + tail);
      assert raw[..PeerSize] == first;
      assert raw[PeerSize..] == Compact(peers[1..]) + tail;
      RecordRoundTrip(peers[0]);
      CompactRoundTrip(peers[1..], tail);
    }
  }

  /** What `ParsePeers` returns for a tracker's compact list: the formatted
      peers, in order. */
  lemma ParsedCompactList(peers: seq<PeerAddress>, tail: seq<byte>)
    requires forall i :: 0 <= i < |peers| ==> peers[i].port < 0x1_0000
    requires |tail| < PeerSize
    ensures |FormatAll(Records(Compact(peers) + tail))| == |peers|
    ensures forall k :: 0 <= k < |peers| ==>
      FormatAll(Records(Compact(peers) + tail))[k] == Format(peers[k])
  {
    CompactRoundTrip(peers, tail);
  }
}
