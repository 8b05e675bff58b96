/** `MtprotoFrameReader` and `MtprotoFrameWriter` (src/stream/frame_stream.rs). */
module FrameStream {
  import opened Bytes
  import opened Io
  import opened FullFrame

  /** A byte stream read with `read_exact`: running out of bytes consumes what is left. */
  class ByteStream {
    var rest: seq<byte>

    constructor (data: seq<byte>)
      ensures rest == data
    {
      rest := data;
    }

    method ReadExact(n: nat) returns (r: Option<seq<byte>>)
      modifies this
      ensures |old(rest)| >= n ==> r == Some(old(rest)[..n]) && rest == old(rest)[n..]
      ensures |old(rest)| < n ==> r == None && rest == []
    {
      if |rest| < n {
        rest := [];
        return None;
      }
      r := Some(rest[..n]);
      rest := rest[n..];
    }
  }

  class MtprotoFrameReader {
    const crc: Crc
    const upstream: ByteStream
    var seqNo: i32

    constructor (crc: Crc, upstream: ByteStream, startSeq: i32)
      ensures this.crc == crc && this.upstream == upstream && seqNo == startSeq
    {
      this.crc, this.upstream, seqNo := crc, upstream, startSeq;
    }

    /** Skip filler words, then read and verify one frame. */
    method ReadFrame() returns (r: ReadResult)
      modifies this, upstream
      ensures var spec := ParseFrame(crc, old(seqNo), SkipFillers(old(upstream.rest)));
              if spec.Ok? then r == spec && upstream.rest == spec.tail && seqNo == Next(old(seqNo))
              else r == spec
      ensures r.Ok? ==> Bits(seqNo) == (Bits(old(seqNo)) + 1) % U32
    {
      while true
        invariant SkipFillers(upstream.rest) == SkipFillers(old(upstream.rest)) && seqNo == old(seqNo)
        decreases |upstream.rest|
      {
        ghost var input := upstream.rest;
        var lenBytes := upstream.ReadExact(4);
        if lenBytes.None? {
          return Err(Eof);
        }
        var len := FromLe32(lenBytes.value);
        if len == 4 {
          Le32Inverse(lenBytes.value);
          assert Le32(4) == FILLER;
        } else {
          assert input[..4] != FILLER;
          assert input == lenBytes.value + upstream.rest;
          r := ReadBody(lenBytes.value, len);
          return;
        }
      }
    }

    /** The rest of a frame whose length word has been read. */
    method ReadBody(lenBytes: seq<byte>, len: nat) returns (r: ReadResult)
      requires |lenBytes| == 4 && len == FromLe32(lenBytes)
      modifies this, upstream
      ensures var spec := ParseFrame(crc, old(seqNo), lenBytes + old(upstream.rest));
              if spec.Ok? then r == spec && upstream.rest == spec.tail && seqNo == Next(old(seqNo))
              else r == spec
      ensures r.Ok? ==> Bits(seqNo) == (Bits(old(seqNo)) + 1) % U32
    {
      hide FromLe32;
      ghost var body := upstream.rest;
      ghost var input := lenBytes + body;
      assert input[..4] == lenBytes;
      if !ValidLen(len) {
        return Err(BadLength);
      }
      var seqBytes := upstream.ReadExact(4);
      if seqBytes.None? {
        return Err(Eof);
      }
      assert input[4..8] == seqBytes.value;
      if FromBits(FromLe32(seqBytes.value)) != seqNo {
        return Err(BadSequence);
      }
      NextCounts(seqNo);
      seqNo := Next(seqNo);
      var data := upstream.ReadExact(len - 12);
      if data.None? {
        return Err(Eof);
      }
      var crcBytes := upstream.ReadExact(4);
      if crcBytes.None? {
        return Err(Eof);
      }
      assert input[8..len - 4] == data.value && input[len - 4..len] == crcBytes.value;
      assert input[..len - 4] == lenBytes + seqBytes.value + data.value;
      assert input[len..] == upstream.rest;
      if crc(lenBytes + seqBytes.value + data.value) != FromLe32(crcBytes.value) {
        return Err(BadCrc);
      }
      r := Ok(data.value, upstream.rest);
    }
  }

  class MtprotoFrameWriter {
    const crc: Crc
    var upstream: seq<byte>
    var seqNo: i32

    constructor (crc: Crc, startSeq: i32)
      ensures this.crc == crc && upstream == [] && seqNo == startSeq
    {
      this.crc, upstream, seqNo := crc, [], startSeq;
    }

    /** The frame and as many filler words as fit into its last block. They fill that block, and
        agree with the byte-wise padding, exactly for a message of whole words. */
    method WriteFrame(msg: seq<byte>)
      modifies this
      ensures seqNo == Next(old(seqNo)) && Bits(seqNo) == (Bits(old(seqNo)) + 1) % U32
      ensures upstream == old(upstream) + (Frame(crc, old(seqNo), msg) + Fillers(PadWords(|msg| + MIN_LEN)))
      ensures (|upstream| - |old(upstream)|) % CBC_PADDING == 0 <==> |msg| % 4 == 0
      ensures upstream == old(upstream) + Padded(crc, old(seqNo), msg) <==> |msg| % 4 == 0
    {
      hide PadBytes, Padded, Fillers;
      var len := |msg| + 12;
      var lenBytes, seqBytes := Le32(len % U32), Le32(Bits(seqNo));
      NextCounts(seqNo);
      seqNo := Next(seqNo);
      var checksum := crc(lenBytes + seqBytes + msg);
      var total := |lenBytes| + |seqBytes| + |msg| + 4;
      var paddingNeeded := (CBC_PADDING - total % CBC_PADDING) % CBC_PADDING;
      ghost var frame := Frame(crc, old(seqNo), msg);
      assert lenBytes + seqBytes + msg + Le32(checksum) == frame;
      upstream := upstream + lenBytes + seqBytes + msg + Le32(checksum);
      assert upstream == old(upstream) + frame;
      WriteFillers(paddingNeeded / 4);
      PaddedIsFilled(crc, old(seqNo), msg);
      ghost var added := frame + Fillers(PadWords(|msg| + MIN_LEN));
      assert upstream == old(upstream) + added;
      SameAppended(old(upstream), added, Padded(crc, old(seqNo), msg));
    }

    method WriteFillers(count: nat)
      modifies this`upstream
      ensures upstream == old(upstream) + Fillers(count)
    {
      for i := 0 to count
        invariant upstream == old(upstream) + Fillers(i)
      {
        FillersSnoc(i);
        upstream := upstream + FILLER;
      }
    }
  }

  lemma SameAppended(s: seq<byte>, a: seq<byte>, b: seq<byte>)
    ensures s + a == s + b <==> a == b
  {
    assert (s + a)[|s|..] == a && (s + b)[|s|..] == b;
  }

  lemma {:induction false} FillersSnoc(k: nat)
    ensures Fillers(k) + FILLER == Fillers(k + 1)
  {
    if k > 0 {
      FillersSnoc(k - 1);
    }
  }

  /** Reading one message from the padded frames of several, possibly after filler words. */
  lemma ReadsFirst(crc: Crc, seqNo: i32, msgs: seq<seq<byte>>, k: nat)
    requires msgs != [] && ValidMsg(msgs[0])
    ensures var rest := PaddedFrames(crc, Next(seqNo), msgs[1..]);
            ParseFrame(crc, seqNo, SkipFillers(Fillers(k) + PaddedFrames(crc, seqNo, msgs)))
              == Ok(msgs[0], Fillers(PadWords(|msgs[0]| + MIN_LEN)) + rest)
  {
    hide ParseFrame, Frame, Padded, Fillers, SkipFillers, PadWords;
    var rest := PaddedFrames(crc, Next(seqNo), msgs[1..]);
    var frame := Frame(crc, seqNo, msgs[0]);
    var tail := Fillers(PadWords(|msgs[0]| + MIN_LEN)) + rest;
    PaddedIsFilled(crc, seqNo, msgs[0]);
    assert PaddedFrames(crc, seqNo, msgs) == frame + tail;
    ParseAcceptsFrame(crc, seqNo, msgs[0], tail);
    FrameIsNoFiller(crc, seqNo, msgs[0], tail);
    SkipsExactly(k, frame + tail);
  }

  /** What was written with consecutive numbers is read back, in order and complete. */
  method ReadBack(crc: Crc, startSeq: i32, msgs: seq<seq<byte>>) returns (got: seq<seq<byte>>, wire: seq<byte>)
    requires forall m :: m in msgs ==> ValidMsg(m)
    ensures got == msgs
    ensures wire == PaddedFrames(crc, startSeq, msgs) && |wire| % CBC_PADDING == 0
  {
    hide PaddedFrames;
    wire := WriteAll(crc, startSeq, msgs);
    got := ReadAll(crc, startSeq, wire, |msgs|, msgs);
  }

  method WriteAll(crc: Crc, startSeq: i32, msgs: seq<seq<byte>>) returns (wire: seq<byte>)
    requires forall m :: m in msgs ==> |m| % 4 == 0
    ensures wire == PaddedFrames(crc, startSeq, msgs)
  {
    hide Padded, Frame;
    var writer := new MtprotoFrameWriter(crc, startSeq);
    for i := 0 to |msgs|
      invariant writer.crc == crc && writer.seqNo == Advance(startSeq, i)
      invariant writer.upstream == PaddedFrames(crc, startSeq, msgs[..i])
    {
      PaddedFramesSnoc(crc, startSeq, msgs[..i], msgs[i]);
      assert msgs[..i + 1] == msgs[..i] + [msgs[i]];
      AdvanceNext(startSeq, i);
      writer.WriteFrame(msgs[i]);
    }
    assert msgs[..|msgs|] == msgs;
    wire := writer.upstream;
  }

  /** Read `n` frames from plaintext that holds the frames of `msgs`. */
  method ReadAll(crc: Crc, startSeq: i32, wire: seq<byte>, n: nat, ghost msgs: seq<seq<byte>>)
    returns (got: seq<seq<byte>>)
    requires n == |msgs| && wire == PaddedFrames(crc, startSeq, msgs)
    requires forall m :: m in msgs ==> ValidMsg(m)
    ensures got == msgs
  {
    var stream := new ByteStream(wire);
    var reader := new MtprotoFrameReader(crc, stream, startSeq);
    got := [];
    ghost var k := 0;
    assert wire == Fillers(k) + wire;
    assert msgs[0..] == msgs;
    hide Padded, PaddedFrames, ParseFrame, SkipFillers, PadWords, Fillers;
    for i := 0 to n
      invariant reader.crc == crc && reader.upstream == stream && reader.seqNo == Advance(startSeq, i)
      invariant got == msgs[..i]
      invariant stream.rest == Fillers(k) + PaddedFrames(crc, reader.seqNo, msgs[i..])
    {
      ghost var left := msgs[i..];
      assert left[0] == msgs[i] && left[1..] == msgs[i + 1..];
      ReadsFirst(crc, reader.seqNo, left, k);
      AdvanceNext(startSeq, i);
      var r := reader.ReadFrame();
      k := PadWords(|msgs[i]| + MIN_LEN);
      got := got + [r.msg];
    }
  }
}
