/** The three MTProto client framings as a streaming codec (src/stream/frame_codec.rs,
    src/protocol/constants.rs). */
module FrameCodec {
  import opened Bytes

  datatype ProtoTag = Abridged | Intermediate | Secure

  const HIGH_BIT := 0x8000_0000
  const U24 := 0x100_0000

  // ---- The wire format ----

  function Le24(n: int): (r: seq<byte>)
    requires 0 <= n < U24
    ensures |r| == 3
  {
    [n % 256, n / 256 % 256, n / 256 / 256]
  }

  function FromLe24(b: seq<byte>): (n: nat)
    requires |b| == 3
    ensures n < U24
  {
    var b0: int, b1: int, b2: int := b[0], b[1], b[2];
    b0 + 256 * (b1 + 256 * b2)
  }

  /** The low byte comes first. */
  lemma Le24Order(n: int)
    requires 0 <= n < U24
    ensures var r := Le24(n);
            var a: int, b: int, c: int := r[0], r[1], r[2];
            a + 0x100 * b + 0x1_0000 * c == n
  {
    var q := n / 256;
    assert n == 256 * q + n % 256 && q == 256 * (q / 256) + q % 256;
  }

  lemma Le24RoundTrip(n: int)
    requires 0 <= n < U24
    ensures FromLe24(Le24(n)) == n
  {
  }

  /** Whether the encoders take `data`; only `simple_ack` frames escape this. */
  predicate Encodable(tag: ProtoTag, data: seq<byte>) {
    match tag
    case Abridged => |data| % 4 == 0 && |data| / 4 < U24
    case Intermediate => true
    case Secure => |data| % 4 == 0
  }

  function HeaderBytes(tag: ProtoTag, len: nat, quickack: bool): seq<byte>
    requires tag.Abridged? ==> len / 4 < U24
  {
    if tag.Abridged? then
      var flag := if quickack then 0x80 else 0;
      if len / 4 < 0x7f then [len / 4 + flag] else [0x7f + flag] + Le24(len / 4)
    else
      var n := len % U32;
      Le32(if quickack && n < HIGH_BIT then n + HIGH_BIT else n)
  }

  /** A frame on the wire; `pad` is the random tail of secure framing. */
  function Wire(tag: ProtoTag, data: seq<byte>, quickack: bool, pad: seq<byte>): seq<byte>
    requires Encodable(tag, data) && (tag.Abridged? ==> pad == [])
  {
    HeaderBytes(tag, |data| + |pad|, quickack) + data + pad
  }

  predicate PadFits(tag: ProtoTag, pad: seq<byte>) {
    if tag.Secure? then 1 <= |pad| <= 3 else pad == []
  }

  /** The length of the random tail for a random draw. */
  function SecurePaddingLen(draw: nat): nat {
    draw % 3 + 1
  }

  /** The tails that are drawn are those that fit; they leave no frame a whole number of words, and are cut off
      by length alone. */
  lemma SecurePadding(data: seq<byte>, pad: seq<byte>)
    requires |data| % 4 == 0
    ensures PadFits(Secure, pad) <==> exists draw: nat :: |pad| == SecurePaddingLen(draw)
    ensures PadFits(Secure, pad) ==> (|data| + |pad|) % 4 != 0 && PayloadLen(Secure, |data| + |pad|) == |data|
  {
    if PadFits(Secure, pad) {
      assert |pad| == SecurePaddingLen(|pad| - 1);
      var words := |data| / 4;
      assert |data| == 4 * words;
      assert (|data| + |pad|) % 4 == |pad|;
    }
  }

  // ---- What a decoder makes of a buffer ----

  datatype Header = Short | Info(size: nat, len: nat, quickack: bool)

  function ReadHeader(tag: ProtoTag, src: seq<byte>): (h: Header)
    ensures h.Info? ==> 0 < h.size <= |src| && (tag.Abridged? ==> h.len % 4 == 0)
  {
    if tag.Abridged? then
      if src == [] then Short
      else
        var words: int := src[0] % 128;
        if words != 0x7f then Info(1, 4 * words, src[0] >= 128)
        else if |src| < 4 then Short
        else Info(4, 4 * FromLe24(src[1..4]), src[0] >= 128)
    else if |src| < 4 then Short
    else
      var n := FromLe32(src[..4]);
      Info(4, n % HIGH_BIT, n >= HIGH_BIT)
  }

  /** `secure_payload_len_from_wire_len` for lengths of at least four. */
  function PayloadLen(tag: ProtoTag, wireLen: nat): nat {
    if tag.Secure? then wireLen - wireLen % 4 else wireLen
  }

  datatype Decoded =
    | NeedMore
    | Got(data: seq<byte>, quickack: bool, paddingLen: nat)
    | Bad

  /** The outcome and the number of bytes it consumes. */
  function Parse(tag: ProtoTag, src: seq<byte>, max: nat): (r: (Decoded, nat))
    ensures r.1 <= |src|
    ensures !r.0.Got? ==> r.1 == 0
  {
    match ReadHeader(tag, src)
    case Short => (NeedMore, 0)
    case Info(size, len, quickack) =>
      if len > max then (Bad, 0)
      else if |src| < size + len then (NeedMore, 0)
      else if tag.Secure? && len < 4 then (Bad, 0)
      else
        var n := PayloadLen(tag, len);
        (Got(src[size..size + n], quickack, len - n), size + len)
  }

  /** A frame the decoder gives back: within the limit and, in secure framing, not empty. */
  predicate Decodable(tag: ProtoTag, data: seq<byte>, pad: seq<byte>, max: nat) {
    && Encodable(tag, data) && PadFits(tag, pad)
    && |data| + |pad| <= max && |data| + |pad| < HIGH_BIT
    && (tag.Secure? ==> data != [])
  }

  lemma HeaderRoundTrip(tag: ProtoTag, len: nat, quickack: bool, rest: seq<byte>)
    requires tag.Abridged? ==> len % 4 == 0 && len / 4 < U24
    requires len < HIGH_BIT
    ensures var bytes := HeaderBytes(tag, len, quickack);
            ReadHeader(tag, bytes + rest) == Info(|bytes|, len, quickack)
  {
    hide Le32, FromLe32, Le24, FromLe24;
    var bytes := HeaderBytes(tag, len, quickack);
    var all := bytes + rest;
    if tag.Abridged? {
      if len / 4 >= 0x7f {
        Le24RoundTrip(len / 4);
        assert all[1..4] == Le24(len / 4);
      }
    } else {
      assert all[..4] == bytes;
      Le32RoundTrip(if quickack then len + HIGH_BIT else len);
    }
  }

  /** Decoding inverts encoding, leaving whatever follows. */
  lemma DecodesWire(tag: ProtoTag, data: seq<byte>, quickack: bool, pad: seq<byte>, tail: seq<byte>, max: nat)
    requires Decodable(tag, data, pad, max)
    ensures var wire := Wire(tag, data, quickack, pad);
            Parse(tag, wire + tail, max) == (Got(data, quickack, |pad|), |wire|)
  {
    hide HeaderBytes, ReadHeader, Parse, PayloadLen, Encodable, PadFits;
    CutsPad(tag, data, pad);
    var head, len := HeaderBytes(tag, |data| + |pad|, quickack), |data| + |pad|;
    var src := Wire(tag, data, quickack, pad) + tail;
    assert src == head + (data + pad + tail);
    HeaderRoundTrip(tag, len, quickack, data + pad + tail);
    ParsesAt(tag, src, max, |head|, len, quickack);
    assert src[|head|..|head| + |data|] == data;
  }

  /** What a decoder makes of a buffer whose header it has read. */
  lemma ParsesAt(tag: ProtoTag, src: seq<byte>, max: nat, size: nat, len: nat, quickack: bool)
    requires ReadHeader(tag, src) == Info(size, len, quickack)
    requires len <= max && |src| >= size + len && (tag.Secure? ==> len >= 4)
    ensures var n := PayloadLen(tag, len);
            n <= len && Parse(tag, src, max) == (Got(src[size..size + n], quickack, len - n), size + len)
  {
    hide ReadHeader;
  }

  lemma CutsPad(tag: ProtoTag, data: seq<byte>, pad: seq<byte>)
    requires Encodable(tag, data) && PadFits(tag, pad)
    ensures PayloadLen(tag, |data| + |pad|) == |data|
    ensures tag.Secure? && data != [] ==> |data| >= 4
    ensures tag.Abridged? ==> pad == [] && |data| % 4 == 0 && |data| / 4 < U24
  {
    if tag.Secure? {
      SecurePadding(data, pad);
    }
  }

  /** What a decoder returns was within its limit and, in secure framing, not empty. */
  lemma GotIsWithin(tag: ProtoTag, src: seq<byte>, max: nat)
    requires Parse(tag, src, max).0.Got?
    ensures var got := Parse(tag, src, max).0;
            && |got.data| + got.paddingLen <= max && |got.data| + got.paddingLen < HIGH_BIT
            && (tag.Secure? ==> got.data != [])
  {
    hide FromLe32, FromLe24;
  }

  /** Of all frames the encoders produce, exactly the decodable ones come back. */
  lemma DecodesExactly(tag: ProtoTag, data: seq<byte>, quickack: bool, pad: seq<byte>, tail: seq<byte>, max: nat)
    requires Encodable(tag, data) && PadFits(tag, pad)
    ensures var wire := Wire(tag, data, quickack, pad);
            Parse(tag, wire + tail, max) == (Got(data, quickack, |pad|), |wire|) <==> Decodable(tag, data, pad, max)
  {
    hide Parse, Wire;
    var src := Wire(tag, data, quickack, pad) + tail;
    if Decodable(tag, data, pad, max) {
      DecodesWire(tag, data, quickack, pad, tail, max);
    } else if Parse(tag, src, max).0.Got? {
      GotIsWithin(tag, src, max);
    }
  }

  /** A strict prefix of a frame is waited for, whatever the cut. */
  lemma WaitsForRest(tag: ProtoTag, data: seq<byte>, quickack: bool, pad: seq<byte>, part: seq<byte>, max: nat)
    requires Decodable(tag, data, pad, max)
    requires part <= Wire(tag, data, quickack, pad) && part != Wire(tag, data, quickack, pad)
    ensures Parse(tag, part, max) == (NeedMore, 0)
  {
    hide Le32, FromLe32, Le24, FromLe24;
    var head := HeaderBytes(tag, |data| + |pad|, quickack);
    var wire := Wire(tag, data, quickack, pad);
    assert |part| < |wire|;
    if |part| >= |head| {
      assert part == head + part[|head|..];
      HeaderRoundTrip(tag, |data| + |pad|, quickack, part[|head|..]);
    } else {
      assert part == head[..|part|];
    }
  }

  /** Secure framing can encode the empty payload but never decodes it. */
  lemma SecureEmptyIsRejected(quickack: bool, pad: seq<byte>, tail: seq<byte>, max: nat)
    requires PadFits(Secure, pad) && |pad| <= max
    ensures Parse(Secure, Wire(Secure, [], quickack, pad) + tail, max).0 == Bad
  {
    var head := HeaderBytes(Secure, |pad|, quickack);
    assert Wire(Secure, [], quickack, pad) + tail == head + (pad + tail);
    HeaderRoundTrip(Secure, |pad|, quickack, pad + tail);
  }
}
