/** Go's `encoding/binary.BigEndian` on unsigned integers, and the
    truncating `uint32(x)` conversion. */
module BigEndian {
  import opened Base

  const Uint32Limit: nat := 0x1_0000_0000

  function Pow256(n: nat): (r: nat)
    ensures r > 0
  {
    if n == 0 then 1 else 256 * Pow256(n - 1)
  }

  lemma Pow256Values()
    ensures Pow256(2) == 0x1_0000
    ensures Pow256(4) == Uint32Limit
    ensures Pow256(8) == 0x1_0000_0000_0000_0000
  {
  }

  /** `binary.BigEndian.Uint16/Uint32/Uint64`: the value of a byte string,
      most significant byte first. */
  function Decode(b: seq<byte>): (v: nat)
    ensures v < Pow256(|b|)
  {
    if |b| == 0 then 0 else Decode(b[..|b| - 1]) * 256 + b[|b| - 1]
  }

  /** `binary.BigEndian.PutUint16/PutUint32/PutUint64`: `width` bytes holding
      `v`, most significant byte first. */
  function Encode(v: nat, width: nat): (b: seq<byte>)
    requires v < Pow256(width)
    ensures |b| == width
  {
    if width == 0 then [] else Encode(v / 256, width - 1) + [v % 256]
  }

  /** Reading back what was written gives the same value. */
  lemma {:induction false} DecodeEncode(v: nat, width: nat)
    requires v < Pow256(width)
    ensures Decode(Encode(v, width)) == v
  {
    if width > 0 {
      var e := Encode(v, width);
      assert e[..|e| - 1] == Encode(v / 256, width - 1);
      DecodeEncode(v / 256, width - 1);
    }
  }

  /** Writing back what was read gives the same bytes. */
  lemma {:induction false} EncodeDecode(b: seq<byte>)
    ensures Encode(Decode(b), |b|) == b
  {
    if |b| > 0 {
      var init := b[..|b| - 1];
      var v := Decode(b);
      assert v / 256 == Decode(init) && v % 256 == b[|b| - 1];
      EncodeDecode(init);
      assert b == init + [b[|b| - 1]];
    }
  }

  /** Leading zero bytes do not change the value: this is how the port of a
      compact peer entry is read through `Uint64` of six zeros and two bytes. */
  lemma {:induction false} DecodeLeadingZeros(n: nat, b: seq<byte>)
    ensures Decode(Zeros(n) + b) == Decode(b)
  {
    if |b| > 0 {
      var init := b[..|b| - 1];
      assert (Zeros(n) + b)[..|Zeros(n) + b| - 1] == Zeros(n) + init;
      DecodeLeadingZeros(n, init);
    } else {
      assert Zeros(n) + b == Zeros(n);
      ZerosDecodeToZero(n);
    }
  }

  lemma {:induction false} ZerosDecodeToZero(n: nat)
    ensures Decode(Zeros(n)) == 0
  {
    if n > 0 {
      assert Zeros(n)[..n - 1] == Zeros(n - 1);
      ZerosDecodeToZero(n - 1);
    }
  }

  /** Go's `uint32(x)` for an `int` x: the low 32 bits, read unsigned. */
  function Uint32(x: int): (r: nat)
    ensures r < Uint32Limit
    ensures 0 <= x < Uint32Limit ==> r == x
  {
    x % Uint32Limit
  }

  /** `binary.BigEndian.PutUint32(buf, uint32(x))`. */
  function PutUint32(x: int): (b: seq<byte>)
    ensures |b| == 4
  {
    Pow256Values();
    Encode(Uint32(x), 4)
  }

  /** The 4-byte field written for x reads back as `uint32(x)`. */
  lemma Uint32RoundTrip(x: int)
    ensures Decode(PutUint32(x)) == Uint32(x)
  {
    Pow256Values();
    DecodeEncode(Uint32(x), 4);
  }
}
