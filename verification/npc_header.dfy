/** The fixed 36-byte header that precedes every npc message: seven fields stored
    little-endian at fixed offsets. `Marshal` and `Unmarshal` work on a caller's buffer
    that may be longer than the header; `Write` and `Read` wrap them around a 36-byte
    buffer. The Go methods mutate their receiver; here the receiver's new value is
    returned alongside the error. */
module NpcHeader {
  import opened Wrappers
  import opened Bytes

  const HeaderSize: nat := 36
  /** Declared beside the layout but never compared by `Unmarshal`. */
  const HeaderMagicNum: uint32 := 0xfb70_9394

  type Provider = p: seq<byte> | |p| == 16 witness [0, 0, 0, 0, 0, 0, 0, 0, 0, 0, 0, 0, 0, 0, 0, 0]

  datatype Header = Header(
    id: uint16,
    version: uint16,
    logId: uint32,
    provider: Provider,
    magicNum: uint32,
    reserved: uint32,
    bodyLen: uint32)

  datatype HeaderError =
    | IncompleteHeader   // "incomplete header"
    | NotEnoughBuffer    // "not enough buffer for header"
    | EndOfInput         // io.EOF: nothing could be read
    | UnexpectedEnd      // io.ErrUnexpectedEOF: part of a header could be read

  /** The 36 header bytes of `h` in wire order. */
  function Layout(h: Header): (r: seq<byte>)
    ensures |r| == HeaderSize
  {
    ToLE(h.id, 2) + ToLE(h.version, 2) + ToLE(h.logId, 4) + h.provider
    + ToLE(h.magicNum, 4) + ToLE(h.reserved, 4) + ToLE(h.bodyLen, 4)
  }

  /** Decodes the first 36 bytes of `b` into the receiver `h`. A short buffer is an error
      and leaves the receiver as it was; any MagicNum is accepted. */
  function Unmarshal(h: Header, b: seq<byte>): (r: (Header, Option<HeaderError>))
    ensures r.1 == None <==> |b| >= HeaderSize
    ensures r.1 != None ==> r == (h, Some(IncompleteHeader))
    ensures r.1 == None ==>
      && r.0.id == FromLE(b[0..2]) && r.0.version == FromLE(b[2..4])
      && r.0.logId == FromLE(b[4..8]) && r.0.provider == b[8..24]
      && r.0.magicNum == FromLE(b[24..28]) && r.0.reserved == FromLE(b[28..32])
      && r.0.bodyLen == FromLE(b[32..36])
  {
    if |b| < HeaderSize then (h, Some(IncompleteHeader))
    else
      (Header(FromLE(b[0..2]), FromLE(b[2..4]), FromLE(b[4..8]), b[8..24],
              FromLE(b[24..28]), FromLE(b[28..32]), FromLE(b[32..36])), None)
  }

  /** Encodes `h` into the first 36 bytes of `b`. A short buffer is an error and is
      returned untouched; otherwise every byte from offset 36 on is kept. */
  function Marshal(h: Header, b: seq<byte>): (r: (seq<byte>, Option<HeaderError>))
    ensures r.1 == None <==> |b| >= HeaderSize
    ensures r.1 != None ==> r == (b, Some(NotEnoughBuffer))
    ensures r.1 == None ==> |r.0| == |b| && r.0[HeaderSize..] == b[HeaderSize..]
  {
    if |b| < HeaderSize then (b, Some(NotEnoughBuffer))
    else (Layout(h) + b[HeaderSize..], None)
  }

  /** `Write`: the bytes handed to the writer, always exactly one header. The writer's own
      result is outside the model. */
  function Write(h: Header): (r: seq<byte>)
    ensures |r| == HeaderSize
    ensures Unmarshal(h, r) == (h, None)
  {
    var zero := seq(HeaderSize, _ => 0);
    UnmarshalMarshal(h, h, zero);
    Marshal(h, zero).0
  }

  /** `Read` over the bytes the reader can still supply: `io.ReadFull` of 36 bytes
      reports how many it got and fails unless it got all of them, and then the header
      is decoded from exactly those 36 bytes. */
  function Read(h: Header, input: seq<byte>): (r: (Header, nat, Option<HeaderError>))
    ensures r.2 == None <==> |input| >= HeaderSize
    ensures |input| == 0 ==> r == (h, 0, Some(EndOfInput))
    ensures 0 < |input| < HeaderSize ==> r == (h, |input|, Some(UnexpectedEnd))
    ensures |input| >= HeaderSize ==> r.1 == HeaderSize && Layout(r.0) == input[..HeaderSize]
  {
    if |input| == 0 then (h, 0, Some(EndOfInput))
    else if |input| < HeaderSize then (h, |input|, Some(UnexpectedEnd))
    else
      MarshalUnmarshal(h, input[..HeaderSize]);
      (Unmarshal(h, input[..HeaderSize]).0, HeaderSize, None)
  }

  /** Field offsets: Id at 0, Version at 2, LogId at 4, Provider at 8..24, MagicNum at 24,
      Reserved at 28, BodyLen at 32, each little-endian. */
  lemma LayoutOffsets(h: Header)
    ensures var l := Layout(h);
      && l[0..2] == ToLE(h.id, 2) && l[2..4] == ToLE(h.version, 2)
      && l[4..8] == ToLE(h.logId, 4) && l[8..24] == h.provider
      && l[24..28] == ToLE(h.magicNum, 4) && l[28..32] == ToLE(h.reserved, 4)
      && l[32..36] == ToLE(h.bodyLen, 4)
  {
    var l := Layout(h);
    var a, b, c := ToLE(h.id, 2), ToLE(h.version, 2), ToLE(h.logId, 4);
    var d, e, f := ToLE(h.magicNum, 4), ToLE(h.reserved, 4), ToLE(h.bodyLen, 4);
    assert l == a + b + c + h.provider + d + e + f;
    assert l[0..2] == a;
    assert l[2..4] == b;
    assert l[4..8] == c;
    assert l[8..24] == h.provider;
    assert l[24..28] == d;
    assert l[28..32] == e;
    var p := a + b + c + h.provider + d + e;
    assert l == p + f && |p| == 32 && |f| == 4;
    assert l[|p|..] == f;
    assert l[32..36] == l[32..];
  }

  /** Whatever the receiver held and whatever the buffer held, unmarshalling what
      `Marshal` wrote gives back the marshalled header. */
  lemma UnmarshalMarshal(h: Header, h0: Header, b: seq<byte>)
    requires |b| >= HeaderSize
    ensures Unmarshal(h0, Marshal(h, b).0) == (h, None)
  {
    var w := Marshal(h, b).0;
    LayoutOffsets(h);
    assert w[..HeaderSize] == Layout(h);
    assert w[0..2] == ToLE(h.id, 2);
    assert w[2..4] == ToLE(h.version, 2);
    assert w[4..8] == ToLE(h.logId, 4);
    assert w[8..24] == h.provider;
    assert w[24..28] == ToLE(h.magicNum, 4);
    assert w[28..32] == ToLE(h.reserved, 4);
    assert w[32..36] == ToLE(h.bodyLen, 4);
  }

  /** Re-encoding a decoded header reproduces the 36 bytes it was decoded from, so the
      header format has no field the decoder drops. */
  lemma MarshalUnmarshal(h0: Header, b: seq<byte>)
    requires |b| >= HeaderSize
    ensures Layout(Unmarshal(h0, b).0) == b[..HeaderSize]
  {
    var u := Unmarshal(h0, b).0;
    LayoutOffsets(u);
    ToLEFromLE(b[0..2]);
    ToLEFromLE(b[2..4]);
    ToLEFromLE(b[4..8]);
    ToLEFromLE(b[24..28]);
    ToLEFromLE(b[28..32]);
    ToLEFromLE(b[32..36]);
    var l := Layout(u);
    assert forall i | 0 <= i < HeaderSize :: l[i] == b[i] by {
      forall i | 0 <= i < HeaderSize ensures l[i] == b[i] {
        if i < 2 { assert l[i] == l[0..2][i]; }
        else if i < 4 { assert l[i] == l[2..4][i - 2]; }
        else if i < 8 { assert l[i] == l[4..8][i - 4]; }
        else if i < 24 { assert l[i] == l[8..24][i - 8]; }
        else if i < 28 { assert l[i] == l[24..28][i - 24]; }
        else if i < 32 { assert l[i] == l[28..32][i - 28]; }
        else { assert l[i] == l[32..36][i - 32]; }
      }
    }
  }

  /** Marshalling a header straight back into the buffer it was read from leaves the
      buffer as it was. */
  lemma MarshalOwnBufferIsIdentity(h0: Header, b: seq<byte>)
    requires |b| >= HeaderSize
    ensures Marshal(Unmarshal(h0, b).0, b) == (b, None)
  {
    MarshalUnmarshal(h0, b);
    assert b[..HeaderSize] + b[HeaderSize..] == b;
  }

  /** The decoder does not look at the magic number: overwriting bytes 24..28 with any
      value still decodes, and changes nothing but `magicNum`. */
  lemma AnyMagicAccepted(h0: Header, b: seq<byte>, m: uint32)
    requires |b| >= HeaderSize
    ensures var b' := b[..24] + ToLE(m, 4) + b[28..];
      && Unmarshal(h0, b').1 == None
      && Unmarshal(h0, b').0 == Unmarshal(h0, b).0.(magicNum := m)
  {
    var b' := b[..24] + ToLE(m, 4) + b[28..];
    assert b'[0..2] == b[0..2] && b'[2..4] == b[2..4] && b'[4..8] == b[4..8];
    assert b'[8..24] == b[8..24] && b'[24..28] == ToLE(m, 4);
    assert b'[28..32] == b[28..32] && b'[32..36] == b[32..36];
  }
}
