/** Big-endian conversions between Go's fixed-width integers and byte slices. Encoders
    return a fresh slice of exactly N/8 bytes; decoders read the first N/8 bytes of
    their argument (Go panics on a shorter slice, so callers must supply enough). The
    signed variants reinterpret the unsigned bit pattern in two's complement. */
module ExNum {
  import opened Bytes

  type int16 = x: int | -0x8000 <= x < 0x8000
  type int32 = x: int | -0x8000_0000 <= x < 0x8000_0000
  type int64 = x: int | -0x8000_0000_0000_0000 <= x < 0x8000_0000_0000_0000

  function BytesToUint16(b: seq<byte>): (r: uint16)
    requires |b| >= 2
    ensures Uint16ToBytes(r) == b[..2]
  {
    ToBEFromBE(b[..2]);
    FromBE(b[..2])
  }

  function Uint16ToBytes(u: uint16): (r: seq<byte>)
    ensures |r| == 2
    ensures r[0] == u / 0x100 && r[1] == u % 0x100
  {
    ToBEDigit(u, 2, 0);
    ToBEDigit(u, 2, 1);
    ToBE(u, 2)
  }

  function BytesToUint32(b: seq<byte>): (r: uint32)
    requires |b| >= 4
    ensures Uint32ToBytes(r) == b[..4]
  {
    ToBEFromBE(b[..4]);
    FromBE(b[..4])
  }

  function Uint32ToBytes(u: uint32): (r: seq<byte>)
    ensures |r| == 4
    ensures forall i | 0 <= i < 4 :: r[i] == (u / Pow256(3 - i)) % 0x100
  {
    forall i | 0 <= i < 4 ensures ToBE(u, 4)[i] == (u / Pow256(3 - i)) % 0x100 {
      ToBEDigit(u, 4, i);
    }
    ToBE(u, 4)
  }

  function BytesToUint64(b: seq<byte>): (r: uint64)
    requires |b| >= 8
    ensures Uint64ToBytes(r) == b[..8]
  {
    ToBEFromBE(b[..8]);
    FromBE(b[..8])
  }

  function Uint64ToBytes(u: uint64): (r: seq<byte>)
    ensures |r| == 8
    ensures forall i | 0 <= i < 8 :: r[i] == (u / Pow256(7 - i)) % 0x100
  {
    forall i | 0 <= i < 8 ensures ToBE(u, 8)[i] == (u / Pow256(7 - i)) % 0x100 {
      ToBEDigit(u, 8, i);
    }
    ToBE(u, 8)
  }

  /** Go's `uint16(v)` on an int16: the bit pattern read as unsigned. */
  function Uint16Of(v: int16): (r: uint16)
    ensures r % 0x1_0000 == v % 0x1_0000
  {
    if v < 0 then v + 0x1_0000 else v
  }

  /** Go's `int16(u)` on a uint16: the bit pattern read in two's complement. */
  function Int16Of(u: uint16): (r: int16)
    ensures r % 0x1_0000 == u
  {
    if u >= 0x8000 then u - 0x1_0000 else u
  }

  function Uint32Of(v: int32): (r: uint32)
    ensures r % 0x1_0000_0000 == v % 0x1_0000_0000
  {
    if v < 0 then v + 0x1_0000_0000 else v
  }

  function Int32Of(u: uint32): (r: int32)
    ensures r % 0x1_0000_0000 == u
  {
    if u >= 0x8000_0000 then u - 0x1_0000_0000 else u
  }

  function Uint64Of(v: int64): (r: uint64)
    ensures r % 0x1_0000_0000_0000_0000 == v % 0x1_0000_0000_0000_0000
  {
    if v < 0 then v + 0x1_0000_0000_0000_0000 else v
  }

  function Int64Of(u: uint64): (r: int64)
    ensures r % 0x1_0000_0000_0000_0000 == u
  {
    if u >= 0x8000_0000_0000_0000 then u - 0x1_0000_0000_0000_0000 else u
  }

  function BytesToInt16(b: seq<byte>): (r: int16)
    requires |b| >= 2
    ensures r % 0x1_0000 == BytesToUint16(b)
    ensures r < 0 <==> b[0] >= 0x80
  {
    Int16Of(BytesToUint16(b))
  }

  function Int16ToBytes(v: int16): (r: seq<byte>)
    ensures r == Uint16ToBytes(v % 0x1_0000)
  {
    var u := Uint16Of(v);
    assert u == v % 0x1_0000;
    Uint16ToBytes(u)
  }

  function BytesToInt32(b: seq<byte>): (r: int32)
    requires |b| >= 4
    ensures r % 0x1_0000_0000 == BytesToUint32(b)
  {
    Int32Of(BytesToUint32(b))
  }

  function Int32ToBytes(v: int32): (r: seq<byte>)
    ensures r == Uint32ToBytes(v % 0x1_0000_0000)
  {
    var u := Uint32Of(v);
    assert u == v % 0x1_0000_0000;
    Uint32ToBytes(u)
  }

  function BytesToInt64(b: seq<byte>): (r: int64)
    requires |b| >= 8
    ensures r % 0x1_0000_0000_0000_0000 == BytesToUint64(b)
  {
    Int64Of(BytesToUint64(b))
  }

  function Int64ToBytes(v: int64): (r: seq<byte>)
    ensures r == Uint64ToBytes(v % 0x1_0000_0000_0000_0000)
  {
    var u := Uint64Of(v);
    assert u == v % 0x1_0000_0000_0000_0000;
    Uint64ToBytes(u)
  }

  /** Decoding an encoding gives the value back, for every width. */
  lemma UnsignedRoundTrip(u16: uint16, u32: uint32, u64: uint64)
    ensures BytesToUint16(Uint16ToBytes(u16)) == u16
    ensures BytesToUint32(Uint32ToBytes(u32)) == u32
    ensures BytesToUint64(Uint64ToBytes(u64)) == u64
  {
    assert Uint16ToBytes(u16)[..2] == Uint16ToBytes(u16);
    assert Uint32ToBytes(u32)[..4] == Uint32ToBytes(u32);
    assert Uint64ToBytes(u64)[..8] == Uint64ToBytes(u64);
  }

  /** Two's complement round trip: a negative value survives the unsigned encoding. */
  lemma SignedRoundTrip(v16: int16, v32: int32, v64: int64)
    ensures BytesToInt16(Int16ToBytes(v16)) == v16
    ensures BytesToInt32(Int32ToBytes(v32)) == v32
    ensures BytesToInt64(Int64ToBytes(v64)) == v64
  {
    UnsignedRoundTrip(Uint16Of(v16), Uint32Of(v32), Uint64Of(v64));
  }

  /** Each decoder reads only its leading N/8 bytes: anything after them is ignored,
      whatever the length of the slice it is given. */
  lemma TrailingBytesIgnored16(b: seq<byte>, extra: seq<byte>)
    requires |b| >= 2
    ensures BytesToUint16(b + extra) == BytesToUint16(b)
    ensures BytesToInt16(b + extra) == BytesToInt16(b)
  {
    assert (b + extra)[..2] == b[..2];
  }

  lemma TrailingBytesIgnored32(b: seq<byte>, extra: seq<byte>)
    requires |b| >= 4
    ensures BytesToUint32(b + extra) == BytesToUint32(b)
    ensures BytesToInt32(b + extra) == BytesToInt32(b)
  {
    assert (b + extra)[..4] == b[..4];
  }

  lemma TrailingBytesIgnored64(b: seq<byte>, extra: seq<byte>)
    requires |b| >= 8
    ensures BytesToUint64(b + extra) == BytesToUint64(b)
    ensures BytesToInt64(b + extra) == BytesToInt64(b)
  {
    assert (b + extra)[..8] == b[..8];
  }
}
