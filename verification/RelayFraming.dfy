/** The relay's own implementation of the client framings (src/proxy/middle_relay.rs), compared
    with the codec's. */
module RelayFraming {
  import opened Bytes
  import opened Io
  import opened FrameCodec
  import FrameCodecIo
  import opened FrameStream

  /** Emits exactly the codec's bytes for the same pad, and refuses exactly what it refuses. */
  method WriteClientPayload(tag: ProtoTag, quickack: bool, data: seq<byte>, pad: seq<byte>)
    returns (written: Option<seq<byte>>)
    requires PadFits(tag, pad)
    ensures written == if Encodable(tag, data) then Some(Wire(tag, data, quickack, pad)) else None
  {
    hide Le32, Le24;
    var buf: seq<byte>;
    if tag.Abridged? {
      if |data| % 4 != 0 {
        return None;
      }
      var words := |data| / 4;
      if words < 0x7f {
        buf := [if quickack then words + 0x80 else words];
      } else if words < 0x100_0000 {
        var lw := Le32(words);
        LowThree(words);
        buf := [if quickack then 0xff else 0x7f, lw[0], lw[1], lw[2]];
      } else {
        return None;
      }
    } else {
      if tag.Secure? && |data| % 4 != 0 {
        return None;
      }
      var len := (|data| + |pad|) % U32;
      if quickack && len < 0x8000_0000 {
        len := len + 0x8000_0000;
      }
      buf := Le32(len);
    }
    assert buf == HeaderBytes(tag, |data| + |pad|, quickack);
    buf := buf + data;
    assert buf + [] == buf;
    if |pad| > 0 {
      buf := buf + pad;
    }
    written := Some(buf);
  }

  lemma LowThree(n: nat)
    requires n < U24
    ensures var lw := Le32(n); [lw[0], lw[1], lw[2]] == Le24(n)
  {
  }

  datatype ReadOutcome =
    | Closed
    | Payload(data: seq<byte>, quickack: bool)
    | Error

  /** What a relay read makes of the bytes ahead, and what it leaves. Zero-length frames are passed
      over; a stream that ends before a header is closed, one that ends later is an error. */
  function RelayRead(tag: ProtoTag, src: seq<byte>, max: nat): (r: (ReadOutcome, seq<byte>))
    ensures r.0.Payload? ==> |r.1| < |src|
  {
    match ReadHeader(tag, src)
    case Short => (if src == [] || !tag.Abridged? then Closed else Error, [])
    case Info(size, len, quickack) =>
      var rest := src[size..];
      if len == 0 then RelayRead(tag, rest, max)
      else if len < 4 && !tag.Abridged? then (Error, rest)
      else if len > max then (Error, rest)
      else if |rest| < len then (Error, [])
      else (Payload(rest[..PayloadLen(tag, len)], quickack), rest[len..])
  }

  method ReadClientPayload(stream: ByteStream, tag: ProtoTag, max: nat) returns (r: ReadOutcome)
    modifies stream
    ensures r == RelayRead(tag, old(stream.rest), max).0
    ensures r.Payload? ==> stream.rest == RelayRead(tag, old(stream.rest), max).1
  {
    while true
      invariant RelayRead(tag, stream.rest, max) == RelayRead(tag, old(stream.rest), max)
      decreases |stream.rest|
    {
      var h := ReadLength(stream, tag);
      match h {
        case Ended(outcome) =>
          return outcome;
        case Length(len, quickack) =>
          if len > 0 {
            r := ReadPayload(stream, tag, max, len, quickack);
            return;
          }
      }
    }
  }

  datatype LengthOutcome = Ended(outcome: ReadOutcome) | Length(len: nat, quickack: bool)

  /** Read one frame header. */
  method ReadLength(stream: ByteStream, tag: ProtoTag) returns (r: LengthOutcome)
    modifies stream
    ensures var h := ReadHeader(tag, old(stream.rest));
            if h.Info? then r == Length(h.len, h.quickack) && h.size > 0 && stream.rest == old(stream.rest)[h.size..]
            else r == Ended(if old(stream.rest) == [] || !tag.Abridged? then Closed else Error)
  {
    if tag.Abridged? {
      var first := stream.ReadExact(1);
      if first.None? {
        return Ended(Closed);
      }
      var b := first.value[0];
      var quickack := b >= 0x80;
      if b % 128 == 0x7f {
        var ext := stream.ReadExact(3);
        if ext.None? {
          return Ended(Error);
        }
        assert ext.value == old(stream.rest)[1..4];
        return Length(FromLe24(ext.value) * 4, quickack);
      }
      var words: int := b % 128;
      return Length(words * 4, quickack);
    }
    var buf := stream.ReadExact(4);
    if buf.None? {
      return Ended(Closed);
    }
    var n := FromLe32(buf.value);
    TopBit(buf.value);
    r := Length(n % 0x8000_0000, buf.value[3] >= 0x80);
  }

  /** The flag bit of the last byte is the top bit of the word. */
  lemma TopBit(b: seq<byte>)
    requires |b| == 4
    ensures b[3] >= 0x80 <==> FromLe32(b) >= HIGH_BIT
  {
  }

  method ReadPayload(stream: ByteStream, tag: ProtoTag, max: nat, len: nat, quickack: bool) returns (r: ReadOutcome)
    requires len > 0
    modifies stream
    ensures var rest := old(stream.rest);
            r == if (len < 4 && !tag.Abridged?) || len > max || |rest| < len then Error
                 else Payload(rest[..PayloadLen(tag, len)], quickack)
    ensures r.Payload? ==> len <= |old(stream.rest)| && stream.rest == old(stream.rest)[len..]
  {
    if len < 4 && !tag.Abridged? {
      return Error;
    }
    if len > max {
      return Error;
    }
    var payloadLen := if tag.Secure? then len - len % 4 else len;
    var payload := stream.ReadExact(len);
    if payload.None? {
      return Error;
    }
    r := Payload(payload.value[..payloadLen], quickack);
  }

  /** Relay and codec agree on every complete frame of at least four bytes; they differ on
      zero-length frames, which the relay skips, and on frames of one to three bytes, which it refuses. */
  lemma RelayVersusCodec(tag: ProtoTag, src: seq<byte>, max: nat)
    requires var h := ReadHeader(tag, src); h.Info? && |src| >= h.size + h.len && h.len <= max
    ensures var h, codec, relay := ReadHeader(tag, src), Parse(tag, src, max), RelayRead(tag, src, max);
            && (h.len >= 4 ==> codec.0.Got? && relay == (Payload(codec.0.data, codec.0.quickack), src[codec.1..]))
            && (h.len == 0 ==> relay == RelayRead(tag, src[h.size..], max)
                               && codec.0 == if tag.Secure? then Bad else Got([], h.quickack, 0))
            && (0 < h.len < 4 ==> relay.0.Error? && (tag.Intermediate? ==> codec.0.Got?))
  {
    hide ReadHeader;
    var h := ReadHeader(tag, src);
    var rest := src[h.size..];
    var n := PayloadLen(tag, h.len);
    assert rest[..n] == src[h.size..h.size + n];
    assert rest[h.len..] == src[h.size + h.len..];
  }

  /** A frame of at least four bytes, or a bare zero-length header. */
  predicate Sendable(tag: ProtoTag, m: FrameCodecIo.Msg, max: nat) {
    m.data != [] ==> Decodable(tag, m.data, m.pad, max) && |m.data| + |m.pad| >= 4
  }

  function ItemWire(tag: ProtoTag, m: FrameCodecIo.Msg, max: nat): seq<byte>
    requires Sendable(tag, m, max)
  {
    if m.data == [] then HeaderBytes(tag, 0, m.quickack) else Wire(tag, m.data, m.quickack, m.pad)
  }

  function ItemsWire(tag: ProtoTag, items: seq<FrameCodecIo.Msg>, max: nat): seq<byte>
    requires forall m :: m in items ==> Sendable(tag, m, max)
  {
    if items == [] then [] else ItemWire(tag, items[0], max) + ItemsWire(tag, items[1..], max)
  }

  /** The contents of the frames that are not zero-length. */
  function NonEmpty(items: seq<FrameCodecIo.Msg>): seq<(seq<byte>, bool)> {
    if items == [] then []
    else (if items[0].data == [] then [] else [(items[0].data, items[0].quickack)]) + NonEmpty(items[1..])
  }

  /** One relay read on a stream of items: the next non-empty one, or closed at the end. */
  lemma {:induction false} ReadsNextItem(tag: ProtoTag, items: seq<FrameCodecIo.Msg>, max: nat) returns (n: nat)
    requires forall m :: m in items ==> Sendable(tag, m, max)
    ensures n <= |items|
    ensures var r := RelayRead(tag, ItemsWire(tag, items, max), max);
            if NonEmpty(items) == [] then r.0 == Closed
            else r.0 == Payload(NonEmpty(items)[0].0, NonEmpty(items)[0].1)
                 && r.1 == ItemsWire(tag, items[n..], max) && NonEmpty(items[n..]) == NonEmpty(items)[1..]
  {
    hide HeaderBytes, RelayRead, Wire, Decodable, Encodable;
    if items == [] {
      EmptyIsClosed(tag, max);
      return 0;
    }
    var m, rest := items[0], ItemsWire(tag, items[1..], max);
    assert Sendable(tag, m, max);
    if m.data == [] {
      SkipsEmpty(tag, m.quickack, rest, max);
      var k := ReadsNextItem(tag, items[1..], max);
      assert items[1..][k..] == items[k + 1..];
      assert NonEmpty(items) == NonEmpty(items[1..]);
      return k + 1;
    } else {
      ReadsFrame(tag, m, rest, max);
      assert NonEmpty(items)[1..] == NonEmpty(items[1..]);
      return 1;
    }
  }

  lemma EmptyIsClosed(tag: ProtoTag, max: nat)
    ensures RelayRead(tag, [], max).0 == Closed
  {
  }

  lemma SkipsEmpty(tag: ProtoTag, quickack: bool, rest: seq<byte>, max: nat)
    ensures RelayRead(tag, HeaderBytes(tag, 0, quickack) + rest, max) == RelayRead(tag, rest, max)
  {
    var head := HeaderBytes(tag, 0, quickack);
    HeaderRoundTrip(tag, 0, quickack, rest);
    assert (head + rest)[|head|..] == rest;
  }

  lemma ReadsFrame(tag: ProtoTag, m: FrameCodecIo.Msg, rest: seq<byte>, max: nat)
    requires Decodable(tag, m.data, m.pad, max) && |m.data| + |m.pad| >= 4
    ensures RelayRead(tag, Wire(tag, m.data, m.quickack, m.pad) + rest, max) == (Payload(m.data, m.quickack), rest)
  {
    hide HeaderBytes, ReadHeader, RelayRead, Wire, Parse;
    var wire := Wire(tag, m.data, m.quickack, m.pad);
    DecodesWire(tag, m.data, m.quickack, m.pad, rest, max);
    WireHeader(tag, m, rest, max);
    RelayVersusCodec(tag, wire + rest, max);
    assert (wire + rest)[|wire|..] == rest;
  }

  lemma WireHeader(tag: ProtoTag, m: FrameCodecIo.Msg, rest: seq<byte>, max: nat)
    requires Decodable(tag, m.data, m.pad, max)
    ensures var wire := Wire(tag, m.data, m.quickack, m.pad);
            var h := ReadHeader(tag, wire + rest);
            h.Info? && h.len == |m.data| + |m.pad| && |wire + rest| >= h.size + h.len
  {
    hide HeaderBytes, ReadHeader;
    var len := |m.data| + |m.pad|;
    var head := HeaderBytes(tag, len, m.quickack);
    HeaderRoundTrip(tag, len, m.quickack, m.data + m.pad + rest);
    assert Wire(tag, m.data, m.quickack, m.pad) + rest == head + (m.data + m.pad + rest);
  }

  /** A whole stream: the relay returns the codec's frames minus the zero-length ones, then closes. */
  method ReadAllPayloads(tag: ProtoTag, max: nat, bytes: seq<byte>, ghost items: seq<FrameCodecIo.Msg>)
    returns (got: seq<(seq<byte>, bool)>, last: ReadOutcome)
    requires forall m :: m in items ==> Sendable(tag, m, max)
    requires bytes == ItemsWire(tag, items, max)
    ensures got == NonEmpty(items) && last == Closed
  {
    hide RelayRead, ItemsWire, Sendable, NonEmpty;
    var stream := new ByteStream(bytes);
    got := [];
    ghost var left := items;
    while true
      invariant forall m :: m in left ==> Sendable(tag, m, max)
      invariant stream.rest == ItemsWire(tag, left, max)
      invariant got + NonEmpty(left) == NonEmpty(items)
      decreases |NonEmpty(left)|
    {
      ghost var n := ReadsNextItem(tag, left, max);
      last := ReadClientPayload(stream, tag, max);
      if !last.Payload? {
        return;
      }
      assert NonEmpty(left) == [NonEmpty(left)[0]] + NonEmpty(left)[1..];
      got := got + [(last.data, last.quickack)];
      left := left[n..];
    }
  }
}
