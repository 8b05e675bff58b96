/** The codec's buffer operations: encoders append, decoders consume from the front
    (src/stream/frame_codec.rs). */
module FrameCodecIo {
  import opened Bytes
  import opened FrameCodec

  class ByteBuf {
    var data: seq<byte>

    constructor ()
      ensures data == []
    {
      data := [];
    }

    method SplitTo(n: nat) returns (front: seq<byte>)
      requires n <= |data|
      modifies this
      ensures front == old(data)[..n] && data == old(data)[n..]
    {
      front, data := data[..n], data[n..];
    }
  }

  method DecodeAbridged(src: ByteBuf, max: nat) returns (r: Decoded)
    modifies src
    ensures var spec := Parse(Abridged, old(src.data), max); r == spec.0 && src.data == old(src.data)[spec.1..]
  {
    if src.data == [] {
      return NeedMore;
    }
    var first := src.data[0];
    var words: int, quickack := first % 128, first >= 0x80;
    var headerLen := 1;
    if words == 0x7f {
      if |src.data| < 4 {
        return NeedMore;
      }
      words := FromLe24(src.data[1..4]);
      headerLen := 4;
    }
    var byteLen := words * 4;
    if byteLen > max {
      return Bad;
    }
    var totalLen := headerLen + byteLen;
    if |src.data| < totalLen {
      return NeedMore;
    }
    var header := src.SplitTo(headerLen);
    var data := src.SplitTo(byteLen);
    assert data == old(src.data)[headerLen..totalLen];
    r := Got(data, quickack, 0);
  }

  method DecodeIntermediate(src: ByteBuf, max: nat) returns (r: Decoded)
    modifies src
    ensures var spec := Parse(Intermediate, old(src.data), max); r == spec.0 && src.data == old(src.data)[spec.1..]
  {
    if |src.data| < 4 {
      return NeedMore;
    }
    var len, quickack := FromLe32(src.data[..4]), false;
    if len >= 0x80000000 {
      quickack, len := true, len - 0x80000000;
    }
    assert ReadHeader(Intermediate, src.data) == Info(4, len, quickack);
    hide ReadHeader;
    if len > max {
      return Bad;
    }
    if |src.data| < 4 + len {
      return NeedMore;
    }
    var header := src.SplitTo(4);
    var data := src.SplitTo(len);
    assert data == old(src.data)[4..4 + len];
    r := Got(data, quickack, 0);
  }

  method DecodeSecure(src: ByteBuf, max: nat) returns (r: Decoded)
    modifies src
    ensures var spec := Parse(Secure, old(src.data), max); r == spec.0 && src.data == old(src.data)[spec.1..]
  {
    if |src.data| < 4 {
      return NeedMore;
    }
    var len, quickack := FromLe32(src.data[..4]), false;
    if len >= 0x80000000 {
      quickack, len := true, len - 0x80000000;
    }
    assert ReadHeader(Secure, src.data) == Info(4, len, quickack);
    hide ReadHeader;
    if len > max {
      return Bad;
    }
    if |src.data| < 4 + len {
      return NeedMore;
    }
    if len < 4 {
      return Bad;
    }
    var dataLen := len - len % 4;
    var header := src.SplitTo(4);
    var all := src.SplitTo(len);
    assert all[..dataLen] == old(src.data)[4..4 + dataLen];
    r := Got(all[..dataLen], quickack, len - dataLen);
  }

  method Decode(tag: ProtoTag, src: ByteBuf, max: nat) returns (r: Decoded)
    modifies src
    ensures var spec := Parse(tag, old(src.data), max); r == spec.0 && src.data == old(src.data)[spec.1..]
  {
    match tag {
      case Abridged => r := DecodeAbridged(src, max);
      case Intermediate => r := DecodeIntermediate(src, max);
      case Secure => r := DecodeSecure(src, max);
    }
  }

  datatype Frame = Frame(data: seq<byte>, quickack: bool, simpleAck: bool)

  /** Bytes of a simple acknowledgement: the data itself, reversed in abridged framing. */
  function AckBytes(tag: ProtoTag, data: seq<byte>): seq<byte> {
    if tag.Abridged? then Reverse(data) else data
  }

  method EncodeAbridged(frame: Frame, dst: ByteBuf) returns (ok: bool)
    modifies dst
    ensures ok == if frame.simpleAck then |frame.data| % 4 == 0 else Encodable(Abridged, frame.data)
    ensures !ok ==> dst.data == old(dst.data)
    ensures ok && frame.simpleAck ==> dst.data == old(dst.data) + AckBytes(Abridged, frame.data)
    ensures ok && !frame.simpleAck ==> dst.data == old(dst.data) + Wire(Abridged, frame.data, frame.quickack, [])
  {
    var data := frame.data;
    if |data| % 4 != 0 {
      return false;
    }
    if frame.simpleAck {
      for i := 0 to |data|
        invariant dst.data == old(dst.data) + Reverse(data)[..i]
      {
        dst.data := dst.data + [data[|data| - 1 - i]];
      }
      return true;
    }
    var words := |data| / 4;
    if words < 0x7f {
      dst.data := dst.data + [if frame.quickack then words + 0x80 else words];
    } else if words < 0x100_0000 {
      dst.data := dst.data + [if frame.quickack then 0xff else 0x7f];
      dst.data := dst.data + Le32(words)[..3];
      assert Le32(words)[..3] == Le24(words);
    } else {
      return false;
    }
    dst.data := dst.data + data;
    ok := true;
  }

  /** Intermediate and secure framing; `pad` is the random tail, drawn only for secure frames. */
  method EncodeWide(tag: ProtoTag, frame: Frame, pad: seq<byte>, dst: ByteBuf) returns (ok: bool)
    requires !tag.Abridged? && PadFits(tag, pad)
    modifies dst
    ensures ok == (frame.simpleAck || Encodable(tag, frame.data))
    ensures !ok ==> dst.data == old(dst.data)
    ensures ok && frame.simpleAck ==> dst.data == old(dst.data) + AckBytes(tag, frame.data)
    ensures ok && !frame.simpleAck ==> dst.data == old(dst.data) + Wire(tag, frame.data, frame.quickack, pad)
  {
    var data := frame.data;
    if frame.simpleAck {
      dst.data := dst.data + data;
      return true;
    }
    if tag.Secure? && |data| % 4 != 0 {
      return false;
    }
    var len := (|data| + |pad|) % U32;
    if frame.quickack && len < 0x80000000 {
      len := len + 0x80000000;
    }
    dst.data := dst.data + Le32(len);
    dst.data := dst.data + data;
    if |pad| > 0 {
      dst.data := dst.data + pad;
    }
    ok := true;
  }

  method Encode(tag: ProtoTag, frame: Frame, pad: seq<byte>, dst: ByteBuf) returns (ok: bool)
    requires PadFits(tag, pad)
    modifies dst
    ensures !frame.simpleAck ==> ok == Encodable(tag, frame.data)
    ensures !ok ==> dst.data == old(dst.data)
    ensures ok && frame.simpleAck ==> dst.data == old(dst.data) + AckBytes(tag, frame.data)
    ensures ok && !frame.simpleAck ==> dst.data == old(dst.data) + Wire(tag, frame.data, frame.quickack, pad)
  {
    if tag.Abridged? {
      ok := EncodeAbridged(frame, dst);
    } else {
      ok := EncodeWide(tag, frame, pad, dst);
    }
  }

  // ---- Streams of frames ----

  /** A frame to send, with the pad drawn for it, and a frame received. */
  datatype Msg = Msg(data: seq<byte>, quickack: bool, pad: seq<byte>)

  predicate AllDecodable(tag: ProtoTag, msgs: seq<Msg>, max: nat) {
    forall m :: m in msgs ==> Decodable(tag, m.data, m.pad, max)
  }

  function WireAll(tag: ProtoTag, msgs: seq<Msg>, max: nat): seq<byte>
    requires AllDecodable(tag, msgs, max)
  {
    if msgs == [] then []
    else Wire(tag, msgs[0].data, msgs[0].quickack, msgs[0].pad) + WireAll(tag, msgs[1..], max)
  }

  /** What the decoder does next with `held`, when `future` is yet to come. */
  lemma NextDecode(tag: ProtoTag, msgs: seq<Msg>, max: nat, held: seq<byte>, future: seq<byte>)
    requires AllDecodable(tag, msgs, max)
    requires held + future == WireAll(tag, msgs, max)
    ensures var r := Parse(tag, held, max);
            match r.0
            case Bad => false
            case NeedMore => future == [] ==> msgs == []
            case Got(data, quickack, n) =>
              && msgs != [] && data == msgs[0].data && quickack == msgs[0].quickack && n == |msgs[0].pad|
              && held[r.1..] + future == WireAll(tag, msgs[1..], max) && r.1 > 0
  {
    hide Parse, Wire;
    if msgs == [] {
      assert held == [];
      EmptyNeedsMore(tag, max);
    } else {
      var m := msgs[0];
      var wire, rest := Wire(tag, m.data, m.quickack, m.pad), WireAll(tag, msgs[1..], max);
      assert held + future == wire + rest;
      WireNotEmpty(tag, m.data, m.quickack, m.pad);
      if |held| < |wire| {
        assert held == (wire + rest)[..|held|] == wire[..|held|];
        WaitsForRest(tag, m.data, m.quickack, m.pad, held, max);
      } else {
        var tail := held[|wire|..];
        assert held[..|wire|] == (held + future)[..|wire|] == wire;
        assert held == wire + tail;
        assert tail + future == (held + future)[|wire|..] == rest;
        DecodesWire(tag, m.data, m.quickack, m.pad, tail, max);
      }
    }
  }

  lemma EmptyNeedsMore(tag: ProtoTag, max: nat)
    ensures Parse(tag, [], max) == (NeedMore, 0)
  {
  }

  lemma WireNotEmpty(tag: ProtoTag, data: seq<byte>, quickack: bool, pad: seq<byte>)
    requires Encodable(tag, data) && PadFits(tag, pad)
    ensures Wire(tag, data, quickack, pad) != []
  {
  }

  /** Decode while frames are complete. */
  method Drain(tag: ProtoTag, src: ByteBuf, max: nat, ghost msgs: seq<Msg>, ghost future: seq<byte>)
    returns (got: seq<(seq<byte>, bool)>, ghost n: nat)
    requires AllDecodable(tag, msgs, max)
    requires src.data + future == WireAll(tag, msgs, max)
    modifies src
    ensures n <= |msgs| && got == Contents(msgs[..n])
    ensures src.data + future == WireAll(tag, msgs[n..], max)
    ensures future == [] ==> n == |msgs| && src.data == []
    ensures Parse(tag, src.data, max) == (NeedMore, 0)
  {
    hide Parse, Wire, Contents, WireAll;
    got, n := [], 0;
    assert msgs[0..] == msgs && msgs[..0] == [];
    NoContents();
    while true
      invariant n <= |msgs| && got == Contents(msgs[..n])
      invariant src.data + future == WireAll(tag, msgs[n..], max)
      decreases |src.data|
    {
      NextDecode(tag, msgs[n..], max, src.data, future);
      var r := Decode(tag, src, max);
      if r.Got? {
        got := got + [(r.data, r.quickack)];
        assert msgs[..n + 1] == msgs[..n] + [msgs[n]] && msgs[n..][1..] == msgs[n + 1..];
        ContentsSnoc(msgs[..n], msgs[n]);
        n := n + 1;
      } else {
        NoWire(tag, max);
        Untaken(tag, src.data, max);
        return;
      }
    }
  }

  lemma Untaken(tag: ProtoTag, data: seq<byte>, max: nat)
    requires Parse(tag, data, max).0.NeedMore?
    ensures Parse(tag, data, max) == (NeedMore, 0)
  {
  }

  lemma NoWire(tag: ProtoTag, max: nat)
    ensures WireAll(tag, [], max) == []
  {
  }

  function Contents(msgs: seq<Msg>): seq<(seq<byte>, bool)> {
    seq(|msgs|, i requires 0 <= i < |msgs| => (msgs[i].data, msgs[i].quickack))
  }

  lemma NoContents()
    ensures Contents([]) == []
  {
  }

  lemma ContentsAppend(a: seq<Msg>, b: seq<Msg>)
    ensures Contents(a + b) == Contents(a) + Contents(b)
  {
  }

  lemma ContentsSnoc(a: seq<Msg>, m: Msg)
    ensures Contents(a + [m]) == Contents(a) + [(m.data, m.quickack)]
  {
  }

  /** For every framing, every list of decodable frames and every way of cutting the encoded bytes
      into chunks, decoding chunk by chunk yields the same data and flags in order. */
  method DecodeChunks(tag: ProtoTag, max: nat, chunks: seq<seq<byte>>, ghost msgs: seq<Msg>)
    returns (got: seq<(seq<byte>, bool)>)
    requires AllDecodable(tag, msgs, max) && Flatten(chunks) == WireAll(tag, msgs, max)
    ensures got == Contents(msgs)
  {
    hide WireAll, Contents;
    var src := new ByteBuf();
    got := [];
    ghost var n := 0;
    NoContents();
    assert msgs[..0] == [];
    assert chunks[0..] == chunks && msgs[0..] == msgs && [] + Flatten(chunks) == Flatten(chunks);
    for i := 0 to |chunks|
      invariant n <= |msgs| && got == Contents(msgs[..n])
      invariant src.data + Flatten(chunks[i..]) == WireAll(tag, msgs[n..], max)
    {
      ghost var future := Flatten(chunks[i + 1..]);
      assert chunks[i..][1..] == chunks[i + 1..];
      ghost var held := src.data;
      src.data := src.data + chunks[i];
      assert src.data + future == held + (chunks[i] + future);
      var more, k := Drain(tag, src, max, msgs[n..], future);
      assert msgs[..n] + msgs[n..][..k] == msgs[..n + k] && msgs[n..][k..] == msgs[n + k..];
      ContentsAppend(msgs[..n], msgs[n..][..k]);
      got, n := got + more, n + k;
    }
    assert chunks[|chunks|..] == [];
    var last, k := Drain(tag, src, max, msgs[n..], []);
    assert msgs[..n] + msgs[n..][..k] == msgs;
    ContentsAppend(msgs[..n], msgs[n..][..k]);
    got := got + last;
  }
}
