/** Full MTProto framing: length, sequence number, payload, CRC, and filler words up to the CBC
    block size (src/stream/frame_stream.rs, src/transport/middle_proxy/codec.rs). */
module FullFrame {
  import opened Bytes

  const MIN_LEN: nat := 12
  const MAX_LEN: nat := 0x100_0000
  const CBC_PADDING: nat := 16

  type u32 = n: int | 0 <= n < U32
  type i32 = n: int | -0x8000_0000 <= n < 0x8000_0000
  type Crc = seq<byte> -> u32

  /** Two's complement. */
  function Bits(n: i32): u32 {
    if n < 0 then n + U32 else n
  }

  function FromBits(n: u32): i32 {
    if n >= 0x8000_0000 then n - U32 else n
  }

  function Next(n: i32): i32 {
    if n == 0x7fff_ffff then -0x8000_0000 else n + 1
  }

  /** Everything the checksum covers. */
  function Head(seqNo: i32, payload: seq<byte>): seq<byte> {
    Le32((|payload| + MIN_LEN) % U32) + Le32(Bits(seqNo)) + payload
  }

  function Frame(crc: Crc, seqNo: i32, payload: seq<byte>): (r: seq<byte>)
    ensures |r| == |payload| + MIN_LEN
  {
    Head(seqNo, payload) + Le32(crc(Head(seqNo, payload)))
  }

  function PadLen(n: nat): (p: nat)
    ensures (n + p) % CBC_PADDING == 0 && p < CBC_PADDING
  {
    (CBC_PADDING - n % CBC_PADDING) % CBC_PADDING
  }

  /** How many filler words fill up `n` bytes. */
  function PadWords(n: nat): nat {
    PadLen(n) / 4
  }

  lemma WholeWords(n: nat)
    ensures PadLen(n) == 4 * PadWords(n) <==> n % 4 == 0
  {
    var words, rest := n / 4, n % 4;
    var block, within := words / 4, words % 4;
    assert n == 4 * words + rest && words == 4 * block + within;
    assert n == 16 * block + (4 * within + rest);
    assert n % 16 == 4 * within + rest;
  }

  /** The repeating pad pattern, byte by byte. */
  function PadBytes(n: nat): (r: seq<byte>)
    ensures |r| == n
  {
    seq(n, i => if i % 4 == 0 then 4 else 0)
  }

  const FILLER: seq<byte> := [4, 0, 0, 0]

  function Fillers(k: nat): (r: seq<byte>)
    ensures |r| == 4 * k
  {
    if k == 0 then [] else FILLER + Fillers(k - 1)
  }

  /** The byte-wise pad pattern over whole words is a run of filler words. */
  lemma {:induction false} PadIsFillers(k: nat)
    ensures PadBytes(4 * k) == Fillers(k)
  {
    if k > 0 {
      PadIsFillers(k - 1);
      assert PadBytes(4 * k) == FILLER + PadBytes(4 * (k - 1));
    }
  }

  /** Both writers' paddings agree, and end on a block, if and only if the payload is whole words. */
  lemma PaddedIsFilled(crc: Crc, seqNo: i32, payload: seq<byte>)
    ensures var filled := Frame(crc, seqNo, payload) + Fillers(PadWords(|payload| + MIN_LEN));
            && (Padded(crc, seqNo, payload) == filled <==> |payload| % 4 == 0)
            && (|filled| % CBC_PADDING == 0 <==> |payload| % 4 == 0)
  {
    hide Frame, PadBytes, Fillers, PadLen;
    var n := |payload| + MIN_LEN;
    WholeWords(n);
    FilledUp(n);
    PadIsFillers(PadWords(n));
  }

  /** Whole filler words fill up a block exactly when whole words precede them. */
  lemma FilledUp(n: nat)
    ensures (n + 4 * PadWords(n)) % CBC_PADDING == 0 <==> n % 4 == 0
  {
    WholeWords(n);
    var p, q := PadLen(n), 4 * PadWords(n);
    var blocks := (n + p) / CBC_PADDING;
    assert n + p == CBC_PADDING * blocks && p - 4 < q <= p;
    if p != q {
      assert n + q == CBC_PADDING * (blocks - 1) + (CBC_PADDING - (p - q));
    }
  }

  function Padded(crc: Crc, seqNo: i32, payload: seq<byte>): (r: seq<byte>)
    ensures |r| % CBC_PADDING == 0
  {
    var f := Frame(crc, seqNo, payload);
    f + PadBytes(PadLen(|f|))
  }

  /** The plaintext of a run of messages with consecutive sequence numbers. */
  function PaddedFrames(crc: Crc, seqNo: i32, msgs: seq<seq<byte>>): (r: seq<byte>)
    ensures |r| % CBC_PADDING == 0
    decreases |msgs|
  {
    if msgs == [] then []
    else
      var first, rest := Padded(crc, seqNo, msgs[0]), PaddedFrames(crc, Next(seqNo), msgs[1..]);
      AlignedSum(|first|, |rest|);
      first + rest
  }

  lemma AlignedSum(a: nat, b: nat)
    requires a % CBC_PADDING == 0 && b % CBC_PADDING == 0
    ensures (a + b) % CBC_PADDING == 0
  {
  }

  function Advance(seqNo: i32, n: nat): i32
    decreases n
  {
    if n == 0 then seqNo else Advance(Next(seqNo), n - 1)
  }

  /** Numbers count up modulo 2^32. */
  lemma NextCounts(n: i32)
    ensures Bits(Next(n)) == (Bits(n) + 1) % U32
  {
  }

  lemma {:induction false} AdvanceCounts(seqNo: i32, n: nat)
    ensures Bits(Advance(seqNo, n)) == (Bits(seqNo) + n) % U32
    decreases n
  {
    hide Next, Bits;
    if n > 0 {
      NextCounts(seqNo);
      AdvanceCounts(Next(seqNo), n - 1);
      WrapOnce(Bits(seqNo) + 1, n - 1);
    }
  }

  lemma WrapOnce(a: nat, b: nat)
    ensures (a % U32 + b) % U32 == (a + b) % U32
  {
    var k := a / U32;
    assert a == U32 * k + a % U32;
    var r := a % U32 + b;
    assert a + b == U32 * k + r && r == U32 * (r / U32) + r % U32;
    assert a + b == U32 * (k + r / U32) + r % U32;
  }

  /** So fewer than 2^32 frames in a row carry different numbers. */
  lemma NumbersDiffer(seqNo: i32, i: nat, j: nat)
    requires i < j < i + U32
    ensures Advance(seqNo, i) != Advance(seqNo, j)
  {
    hide Advance, Bits;
    AdvanceCounts(seqNo, i);
    AdvanceCounts(seqNo, j);
    Apart(Bits(seqNo) + i, Bits(seqNo) + j);
  }

  lemma Apart(a: nat, b: nat)
    requires a < b < a + U32
    ensures a % U32 != b % U32
  {
    var p, q := a / U32, b / U32;
    assert a == U32 * p + a % U32 && b == U32 * q + b % U32;
    assert a % U32 == b % U32 ==> b - a == U32 * (q - p);
  }

  lemma {:induction false} AdvanceNext(seqNo: i32, n: nat)
    ensures Advance(seqNo, n + 1) == Next(Advance(seqNo, n))
    decreases n
  {
    if n > 0 {
      AdvanceNext(Next(seqNo), n - 1);
    }
  }

  lemma {:induction false} PaddedFramesSnoc(crc: Crc, seqNo: i32, msgs: seq<seq<byte>>, msg: seq<byte>)
    ensures PaddedFrames(crc, seqNo, msgs + [msg])
         == PaddedFrames(crc, seqNo, msgs) + Padded(crc, Advance(seqNo, |msgs|), msg)
    decreases |msgs|
  {
    if msgs == [] {
      assert (msgs + [msg])[1..] == [];
    } else {
      assert (msgs + [msg])[1..] == msgs[1..] + [msg];
      PaddedFramesSnoc(crc, Next(seqNo), msgs[1..], msg);
    }
  }

  // ---- Reading ----

  predicate ValidLen(len: nat) {
    MIN_LEN <= len <= MAX_LEN && len % 4 == 0
  }

  predicate ValidMsg(msg: seq<byte>) {
    |msg| + MIN_LEN <= MAX_LEN && |msg| % 4 == 0
  }

  /** The input after its leading filler words. */
  function SkipFillers(input: seq<byte>): seq<byte> {
    if |input| >= 4 && input[..4] == FILLER then SkipFillers(input[4..]) else input
  }

  datatype ReadError = Eof | BadLength | BadSequence | BadCrc
  datatype ReadResult = Ok(msg: seq<byte>, tail: seq<byte>) | Err(e: ReadError)

  /** One frame at the start of `input`. */
  function ParseFrame(crc: Crc, seqNo: i32, input: seq<byte>): ReadResult {
    if |input| < 4 then Err(Eof)
    else
      var len := FromLe32(input[..4]);
      if !ValidLen(len) then Err(BadLength)
      else if |input| < 8 then Err(Eof)
      else if FromBits(FromLe32(input[4..8])) != seqNo then Err(BadSequence)
      else if |input| < len then Err(Eof)
      else if FromLe32(input[len - 4..len]) != crc(input[..len - 4]) then Err(BadCrc)
      else Ok(input[8..len - 4], input[len..])
  }

  lemma {:induction false} SkipsExactly(k: nat, rest: seq<byte>)
    requires SkipFillers(rest) == rest
    ensures SkipFillers(Fillers(k) + rest) == rest
  {
    if k == 0 {
      assert Fillers(0) + rest == rest;
    } else {
      var input := Fillers(k) + rest;
      assert input[..4] == FILLER && input[4..] == Fillers(k - 1) + rest;
      SkipsExactly(k - 1, rest);
    }
  }

  /** The parser accepts every frame of a valid message... */
  lemma ParseAcceptsFrame(crc: Crc, seqNo: i32, msg: seq<byte>, tail: seq<byte>)
    requires ValidMsg(msg)
    ensures ParseFrame(crc, seqNo, Frame(crc, seqNo, msg) + tail) == Ok(msg, tail)
  {
    hide Le32, FromLe32, SkipFillers;
    var input, len := Frame(crc, seqNo, msg) + tail, |msg| + MIN_LEN;
    Le32RoundTrip(len);
    Le32RoundTrip(Bits(seqNo));
    assert input[..4] == Le32(len);
    assert input[4..8] == Le32(Bits(seqNo));
    assert input[..len - 4] == Head(seqNo, msg);
    Le32RoundTrip(crc(Head(seqNo, msg)));
    assert input[len - 4..len] == Le32(crc(Head(seqNo, msg)));
    assert input[8..len - 4] == msg && input[len..] == tail;
  }

  /** A frame is never taken for a filler word: it announces at least twelve bytes. */
  lemma FrameIsNoFiller(crc: Crc, seqNo: i32, msg: seq<byte>, tail: seq<byte>)
    requires |msg| + MIN_LEN <= MAX_LEN
    ensures SkipFillers(Frame(crc, seqNo, msg) + tail) == Frame(crc, seqNo, msg) + tail
  {
    FillerWord();
    hide Le32, FromLe32;
    var frame, len := Frame(crc, seqNo, msg), |msg| + MIN_LEN;
    Le32RoundTrip(len);
    assert len % U32 == len;
    assert frame[..4] == Le32(len);
    assert (frame + tail)[..4] == frame[..4];
  }

  lemma FillerWord()
    ensures FromLe32(FILLER) == 4
  {
  }

  /** So a frame can be read exactly when its message is whole words and within the limit. */
  lemma ReadableExactly(crc: Crc, seqNo: i32, msg: seq<byte>, tail: seq<byte>)
    ensures ParseFrame(crc, seqNo, Frame(crc, seqNo, msg) + tail) == Ok(msg, tail) <==> ValidMsg(msg)
  {
    hide ParseFrame, Frame;
    var input := Frame(crc, seqNo, msg) + tail;
    if ValidMsg(msg) {
      ParseAcceptsFrame(crc, seqNo, msg, tail);
    } else if ParseFrame(crc, seqNo, input) == Ok(msg, tail) {
      ParseAcceptsOnlyFrames(crc, seqNo, input);
    }
  }

  /** Skipping filler words skips whole words. */
  lemma {:induction false} SkipsWords(input: seq<byte>)
    ensures |SkipFillers(input)| <= |input| && (|input| - |SkipFillers(input)|) % 4 == 0
    decreases |input|
  {
    if |input| >= 4 && input[..4] == FILLER {
      SkipsWords(input[4..]);
    }
  }

  /** Behind a payload, skipping filler words ends at the next frame if and only if the payload was
      whole words; otherwise part of the pad is read as the start of the next length. */
  lemma ResumesAtNextFrame(crc: Crc, seqNo: i32, payload: seq<byte>, next: seq<byte>, tail: seq<byte>)
    requires |next| + MIN_LEN <= MAX_LEN
    ensures var pad := PadBytes(PadLen(|payload| + MIN_LEN));
            var rest := Frame(crc, seqNo, next) + tail;
            SkipFillers(pad + rest) == rest <==> |payload| % 4 == 0
  {
    hide Frame, PadBytes, Fillers, SkipFillers, PadLen;
    var n := |payload| + MIN_LEN;
    var rest := Frame(crc, seqNo, next) + tail;
    WholeWords(n);
    if |payload| % 4 == 0 {
      PadIsFillers(PadWords(n));
      FrameIsNoFiller(crc, seqNo, next, tail);
      SkipsExactly(PadWords(n), rest);
    } else {
      SkipsWords(PadBytes(PadLen(n)) + rest);
    }
  }

  /** ...and nothing else. */
  lemma ParseAcceptsOnlyFrames(crc: Crc, seqNo: i32, input: seq<byte>)
    requires ParseFrame(crc, seqNo, input).Ok?
    ensures var r := ParseFrame(crc, seqNo, input);
            ValidMsg(r.msg) && input == Frame(crc, seqNo, r.msg) + r.tail
  {
    hide Le32, FromLe32;
    var r := ParseFrame(crc, seqNo, input);
    var len := FromLe32(input[..4]);
    Le32Inverse(input[..4]);
    Le32Inverse(input[4..8]);
    Le32Inverse(input[len - 4..len]);
    assert Bits(seqNo) == FromLe32(input[4..8]);
    assert input[..len - 4] == input[..4] + input[4..8] + input[8..len - 4];
    assert input == input[..len - 4] + input[len - 4..len] + input[len..];
  }
}
