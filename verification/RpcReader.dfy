/** The receiving side of the Middle-End connection: ciphertext arrives in arbitrary pieces, whole
    blocks are decrypted with a chained IV, frames are cut out of the plaintext
    (src/transport/middle_proxy/reader.rs). */
module RpcReaders {
  import opened Bytes
  import opened Io
  import opened Cbc
  import opened FullFrame
  import opened RpcCodec

  datatype Step = Stop | Skipped | Cleared | Took(payload: seq<byte>) | Failed(e: ReadError)

  /** Plaintext still ahead: `gap` bytes of padding, then the frames of `msgs`. */
  function Ahead(crc: Crc, seqNo: i32, gap: nat, msgs: seq<seq<byte>>): seq<byte> {
    PadBytes(gap) + PaddedFrames(crc, seqNo, msgs)
  }

  /** Payloads the reader gets back: within the limit, and whole words except for the last one. */
  predicate Receivable(msgs: seq<seq<byte>>) {
    forall i :: 0 <= i < |msgs| ==> |msgs[i]| + MIN_LEN <= MAX_LEN && (i < |msgs| - 1 ==> |msgs[i]| % 4 == 0)
  }

  lemma ReceivableTail(msgs: seq<seq<byte>>, n: nat)
    requires Receivable(msgs) && n <= |msgs|
    ensures Receivable(msgs[n..])
  {
    var rest := msgs[n..];
    assert forall i :: 0 <= i < |rest| ==> rest[i] == msgs[n + i];
  }

  class RpcReader {
    const enc: BlockFn
    const dec: BlockFn
    const crc: Crc
    var div: Block
    var raw: seq<byte>
    var plain: seq<byte>
    var expectedSeq: i32
    /** Payloads of the frames accepted so far. */
    var frames: seq<seq<byte>>
    /** History: initial IV, and ciphertext of whole blocks already decrypted. */
    ghost const iv0: Block
    ghost var eaten: seq<byte>

    ghost predicate Valid()
      reads this
    {
      Aligned(eaten) && div == LastBlock(iv0, eaten) && |raw| < BLOCK
    }

    constructor (enc: BlockFn, dec: BlockFn, crc: Crc, iv: Block)
      ensures Valid() && this.enc == enc && this.dec == dec && this.crc == crc && iv0 == iv
      ensures div == iv && raw == [] && plain == [] && frames == [] && expectedSeq == 0 && eaten == []
    {
      this.enc, this.dec, this.crc, div := enc, dec, crc, iv;
      raw, plain, frames, expectedSeq := [], [], [], 0;
      iv0, eaten := iv, [];
    }

    /** Decrypt all whole blocks received; no byte is lost or decrypted twice. */
    method Absorb(chunk: seq<byte>) returns (ghost piece: seq<byte>)
      requires Valid()
      modifies this`raw, this`plain, this`div, this`eaten
      ensures Valid() && Aligned(piece) && eaten == old(eaten) + piece && piece + raw == old(raw) + chunk
      ensures div == LastBlock(old(div), piece)
      ensures plain == old(plain) + Decrypt(dec, old(div), piece)
    {
      hide Decrypt;
      raw := raw + chunk;
      var blocks := |raw| / 16 * 16;
      if blocks > 0 {
        piece := Eat(blocks);
      } else {
        piece := [];
        EmptyDecrypt(dec, div);
      }
    }

    /** Decrypt the first `blocks` bytes in place and chain on. */
    method Eat(blocks: nat) returns (ghost piece: seq<byte>)
      requires Aligned(eaten) && div == LastBlock(iv0, eaten)
      requires 0 < blocks <= |raw| && blocks % BLOCK == 0
      modifies this`raw, this`plain, this`div, this`eaten
      ensures piece == old(raw)[..blocks] && raw == old(raw)[blocks..] && eaten == old(eaten) + piece
      ensures Aligned(eaten) && div == LastBlock(iv0, eaten) == LastBlock(old(div), piece)
      ensures plain == old(plain) + Decrypt(dec, old(div), piece)
    {
      hide Decrypt;
      var bytes := raw[..blocks];
      piece := bytes;
      var newIv := raw[blocks - 16..blocks];
      var buf := new byte[blocks](i requires 0 <= i < blocks => bytes[i]);
      assert buf[..] == piece;
      var cipher := new AesCbc(enc, dec, div);
      var ok := cipher.DecryptInPlace(buf);
      LastBlockAppend(iv0, eaten, piece);
      assert newIv == piece[blocks - 16..];
      div, plain, raw := newIv, plain + buf[..], raw[blocks..];
      eaten := eaten + piece;
    }

    /** One turn of the frame loop. */
    method TakeFrame() returns (step: Step)
      modifies this`plain, this`expectedSeq, this`frames
      ensures step == FrameStep(crc, old(expectedSeq), old(plain))
      ensures !step.Failed? ==> plain == AfterStep(old(plain), step)
      ensures expectedSeq == if step.Took? then Next(old(expectedSeq)) else old(expectedSeq)
      ensures step.Took? ==> Bits(expectedSeq) == (Bits(old(expectedSeq)) + 1) % U32
      ensures frames == if step.Took? then old(frames) + [step.payload] else old(frames)
    {
      if |plain| < 12 {
        return Stop;
      }
      var len := FromLe32(plain[..4]);
      if len == 4 {
        plain := plain[4..];
        return Skipped;
      }
      if len < 12 || len > MAX_LEN {
        plain := [];
        return Cleared;
      }
      if |plain| < len {
        return Stop;
      }
      var frame := plain[..len];
      plain := plain[len..];
      var pe := len - 4;
      assert frame[..pe] == old(plain)[..pe] && frame[pe..pe + 4] == old(plain)[pe..len];
      assert frame[4..8] == old(plain)[4..8] && frame[8..pe] == old(plain)[8..pe];
      if crc(frame[..pe]) != FromLe32(frame[pe..pe + 4]) {
        return Failed(BadCrc);
      }
      if FromBits(FromLe32(frame[4..8])) != expectedSeq {
        return Failed(BadSequence);
      }
      NextCounts(expectedSeq);
      expectedSeq := Next(expectedSeq);
      frames := frames + [frame[8..pe]];
      step := Took(frame[8..pe]);
    }

    /** Cut frames out of the plaintext until more is needed. When what is held, followed by
        `future`, is a run of valid frames, all frames held completely are taken. */
    method Drain(ghost gap: nat, ghost msgs: seq<seq<byte>>, ghost future: seq<byte>)
      returns (r: Option<ReadError>, ghost gap': nat, ghost n: nat)
      requires Receivable(msgs) && (msgs != [] ==> gap % 4 == 0)
      modifies this`plain, this`expectedSeq, this`frames
      ensures old(plain) + future == Ahead(crc, old(expectedSeq), gap, msgs) ==>
                && r.None? && n <= |msgs| && frames == old(frames) + msgs[..n]
                && expectedSeq == Advance(old(expectedSeq), n)
                && plain + future == Ahead(crc, expectedSeq, gap', msgs[n..])
                && (n < |msgs| ==> gap' % 4 == 0)
                && (future == [] ==> n == |msgs|)
      ensures r.None? ==> Held(expectedSeq, plain, frames, false)
                          == Drained(crc, Held(old(expectedSeq), old(plain), old(frames), false))
      ensures r.Some? ==> Drained(crc, Held(old(expectedSeq), old(plain), old(frames), false)).failed
    {
      hide FrameStep, PaddedFrames, PadLen, Ahead, Receivable, Drained;
      gap', n := gap, 0;
      ghost var end := Drained(crc, Held(expectedSeq, plain, frames, false));
      ghost var good := plain + future == Ahead(crc, expectedSeq, gap, msgs);
      assert msgs[0..] == msgs;
      while true
        invariant n <= |msgs|
        invariant good ==> frames == old(frames) + msgs[..n] && expectedSeq == Advance(old(expectedSeq), n)
        invariant good ==> plain + future == Ahead(crc, expectedSeq, gap', msgs[n..]) && (n < |msgs| ==> gap' % 4 == 0)
        invariant Drained(crc, Held(expectedSeq, plain, frames, false)) == end
        decreases |plain|
      {
        ghost var before := plain;
        if good {
          ReceivableTail(msgs, n);
          NextStep(crc, expectedSeq, gap', msgs[n..], plain, future);
        }
        DrainStep(crc, Held(expectedSeq, plain, frames, false));
        StepShrinks(crc, expectedSeq, plain);
        var step := TakeFrame();
        match step {
          case Stop =>
            return None, gap', n;
          case Failed(e) =>
            return Some(e), gap', n;
          case Cleared =>
            return None, gap', n;
          case Skipped =>
            gap' := if good then gap' - 4 else gap';
          case Took(payload) =>
            if good {
              AdvanceNext(old(expectedSeq), n);
              assert msgs[..n + 1] == msgs[..n] + [msgs[n]];
              assert msgs[n..][1..] == msgs[n + 1..];
              gap', n := PadLen(|payload| + MIN_LEN), n + 1;
            }
        }
      }
    }
  }

  /** Every way the sender's bytes are cut up on the wire: all payloads arrive, in order. All but the
      last payload are whole words, frames start at number 0, and `split` cuts the ciphertext anywhere. */
  method Transfer(enc: BlockFn, dec: BlockFn, sums: Checksums, mode: ChecksumMode, iv: Block,
                  payloads: seq<seq<byte>>, split: seq<byte> -> seq<seq<byte>>)
    returns (got: seq<seq<byte>>)
    requires Inverse(enc, dec)
    requires Receivable(payloads)
    requires forall c :: Flatten(split(c)) == c
    ensures got == payloads
  {
    hide Encrypt, Decrypt, PaddedFrames;
    var writer := new RpcWriter(enc, dec, sums, mode, iv, 0);
    SendAll(writer, payloads);
    DecryptInvertsEncrypt(enc, dec, iv, PaddedFrames(sums.Of(mode), 0, payloads));
    got := Receive(enc, dec, sums.Of(mode), iv, split(writer.sent), payloads);
  }

  method Receive(enc: BlockFn, dec: BlockFn, crc: Crc, iv: Block, chunks: seq<seq<byte>>, ghost msgs: seq<seq<byte>>)
    returns (got: seq<seq<byte>>)
    requires Receivable(msgs)
    requires Aligned(Flatten(chunks)) && Decrypt(dec, iv, Flatten(chunks)) == PaddedFrames(crc, 0, msgs)
    ensures got == msgs
  {
    hide Decrypt, PaddedFrames, LastBlock, Ahead, Receivable, Drained;
    var reader := new RpcReader(enc, dec, crc, iv);
    ghost var wire := Flatten(chunks);
    ghost var gap, n, rest := 0, 0, wire;
    StartAhead(crc, msgs);
    EmptyDecrypt(dec, iv);
    assert chunks[0..] == chunks && msgs[0..] == msgs && [] + wire == wire;
    for i := 0 to |chunks|
      invariant reader.Valid() && reader.crc == crc && reader.dec == dec
      invariant rest == reader.raw + Flatten(chunks[i..]) && Aligned(rest)
      invariant n <= |msgs| && reader.frames == msgs[..n]
      invariant reader.plain + Decrypt(dec, reader.div, rest) == Ahead(crc, reader.expectedSeq, gap, msgs[n..])
      invariant n < |msgs| ==> gap % 4 == 0
      invariant rest == [] ==> n == |msgs|
    {
      ghost var later := Flatten(chunks[i + 1..]);
      assert chunks[i..][1..] == chunks[i + 1..];
      ghost var div, raw := reader.div, reader.raw;
      assert rest == (raw + chunks[i]) + later;
      var piece := reader.Absorb(chunks[i]);
      ghost var next := reader.raw + later;
      assert (piece + reader.raw) + later == piece + next;
      AlignedRest(piece, next);
      DecryptConcat(dec, div, piece, next);
      EmptyDecrypt(dec, reader.div);
      rest := next;
      ghost var done := n;
      ReceivableTail(msgs, n);
      var r, gap1, n1 := reader.Drain(gap, msgs[n..], Decrypt(dec, reader.div, rest));
      gap, n := gap1, n + n1;
      assert msgs[..done] + msgs[done..][..n1] == msgs[..n] && msgs[done..][n1..] == msgs[n..];
    }
    assert chunks[|chunks|..] == [];
    got := reader.frames;
  }

  lemma StartAhead(crc: Crc, msgs: seq<seq<byte>>)
    ensures Ahead(crc, 0, 0, msgs) == [] + PaddedFrames(crc, 0, msgs)
    ensures PaddedFrames(crc, 0, msgs) == [] ==> msgs == []
  {
    if msgs != [] {
      RunIsLong(crc, 0, msgs);
    }
  }

  lemma AlignedRest(piece: seq<byte>, next: seq<byte>)
    requires Aligned(piece) && Aligned(piece + next)
    ensures Aligned(next)
  {
  }

  /** What the frame loop does with the plaintext it holds. */
  function FrameStep(crc: Crc, seqNo: i32, plain: seq<byte>): Step {
    if |plain| < MIN_LEN then Stop
    else
      var len := FromLe32(plain[..4]);
      if len == 4 then Skipped
      else if len < MIN_LEN || len > MAX_LEN then Cleared
      else if |plain| < len then Stop
      else if crc(plain[..len - 4]) != FromLe32(plain[len - 4..len]) then Failed(BadCrc)
      else if FromBits(FromLe32(plain[4..8])) != seqNo then Failed(BadSequence)
      else Took(plain[8..len - 4])
  }

  function AfterStep(plain: seq<byte>, step: Step): seq<byte> {
    match step
    case Skipped => if |plain| >= 4 then plain[4..] else []
    case Took(payload) => if |payload| + MIN_LEN <= |plain| then plain[|payload| + MIN_LEN..] else []
    case Cleared => []
    case _ => plain
  }

  /** The loop's state: next number, plaintext held, payloads taken, and whether it gave up. */
  datatype Held = Held(seqNo: i32, plain: seq<byte>, frames: seq<seq<byte>>, failed: bool)

  /** The state once the loop stops. */
  function Drained(crc: Crc, h: Held): Held
    decreases |h.plain|
  {
    StepShrinks(crc, h.seqNo, h.plain);
    var step := FrameStep(crc, h.seqNo, h.plain);
    match step
    case Stop => h
    case Failed(_) => h.(failed := true)
    case Cleared => h.(plain := [])
    case Skipped => Drained(crc, h.(plain := AfterStep(h.plain, step)))
    case Took(payload) =>
      Drained(crc, h.(seqNo := Next(h.seqNo), plain := AfterStep(h.plain, step), frames := h.frames + [payload]))
  }

  lemma DrainStep(crc: Crc, h: Held)
    ensures var step := FrameStep(crc, h.seqNo, h.plain);
            Drained(crc, h) ==
            match step
            case Stop => h
            case Failed(_) => h.(failed := true)
            case Cleared => h.(plain := [])
            case Skipped => Drained(crc, h.(plain := AfterStep(h.plain, step)))
            case Took(payload) =>
              var rest := AfterStep(h.plain, step);
              Drained(crc, h.(seqNo := Next(h.seqNo), plain := rest, frames := h.frames + [payload]))
  {
  }

  lemma StepShrinks(crc: Crc, seqNo: i32, plain: seq<byte>)
    ensures var step := FrameStep(crc, seqNo, plain);
            step.Stop? || step.Failed? || |AfterStep(plain, step)| < |plain|
  {
  }

  /** Only bytes that are a frame with the expected number are taken. */
  lemma TakesOnlyFrames(crc: Crc, seqNo: i32, plain: seq<byte>)
    requires FrameStep(crc, seqNo, plain).Took?
    ensures var payload := FrameStep(crc, seqNo, plain).payload;
            plain == Frame(crc, seqNo, payload) + AfterStep(plain, Took(payload))
  {
    hide Le32, FromLe32;
    var len := FromLe32(plain[..4]);
    Le32Inverse(plain[..4]);
    Le32Inverse(plain[4..8]);
    Le32Inverse(plain[len - 4..len]);
    assert Bits(seqNo) == FromLe32(plain[4..8]);
    assert plain[..len - 4] == plain[..4] + plain[4..8] + plain[8..len - 4];
    assert plain == plain[..len - 4] + plain[len - 4..len] + plain[len..];
  }

  /** A complete frame in front is taken; an incomplete one is waited for. */
  lemma TakesFrame(crc: Crc, seqNo: i32, msg: seq<byte>, plain: seq<byte>)
    requires |msg| + MIN_LEN <= MAX_LEN
    requires Frame(crc, seqNo, msg) <= plain || plain <= Frame(crc, seqNo, msg)
    ensures var frame := Frame(crc, seqNo, msg);
            FrameStep(crc, seqNo, plain) == if |plain| < |frame| then Stop else Took(msg)
  {
    hide Le32;
    var frame, len := Frame(crc, seqNo, msg), |msg| + MIN_LEN;
    assert frame[..4] == Le32(len) && frame[4..8] == Le32(Bits(seqNo));
    Le32RoundTrip(len);
    Le32RoundTrip(Bits(seqNo));
    Le32RoundTrip(crc(Head(seqNo, msg)));
    if |plain| >= MIN_LEN {
      assert plain[..4] == frame[..4] && plain[4..8] == frame[4..8];
      if |plain| >= len {
        assert plain[..len] == frame;
        assert plain[..len - 4] == Head(seqNo, msg) && plain[8..len - 4] == msg;
        assert plain[len - 4..len] == Le32(crc(Head(seqNo, msg)));
      }
    }
  }

  /** The loop's next move on a run of receivable frames. */
  lemma NextStep(crc: Crc, seqNo: i32, gap: nat, msgs: seq<seq<byte>>, plain: seq<byte>, future: seq<byte>)
    requires Receivable(msgs) && (msgs != [] ==> gap % 4 == 0)
    requires plain + future == Ahead(crc, seqNo, gap, msgs)
    ensures var step := FrameStep(crc, seqNo, plain);
            var rest := AfterStep(plain, step) + future;
            match step
            case Stop => future == [] ==> msgs == []
            case Skipped => gap >= 4 && rest == Ahead(crc, seqNo, gap - 4, msgs)
            case Took(payload) =>
              var gap' := PadLen(|payload| + MIN_LEN);
              && msgs != [] && payload == msgs[0]
              && rest == Ahead(crc, Next(seqNo), gap', msgs[1..]) && (|msgs| > 1 ==> gap' % 4 == 0)
            case _ => false
  {
    hide FrameStep, AfterStep, PaddedFrames, PadLen, Ahead;
    if gap > 0 {
      NextSkips(crc, seqNo, gap, msgs, plain, future);
    } else {
      NoGap(crc, seqNo, msgs);
      if msgs != [] {
        NextTakes(crc, seqNo, msgs, plain, future);
        if |msgs| > 1 {
          GapIsWords(|msgs[0]| + MIN_LEN);
        }
      } else {
        NothingAhead(crc, seqNo, plain, future);
      }
    }
  }

  lemma NoGap(crc: Crc, seqNo: i32, msgs: seq<seq<byte>>)
    ensures Ahead(crc, seqNo, 0, msgs) == PaddedFrames(crc, seqNo, msgs)
  {
  }

  lemma GapIsWords(n: nat)
    requires n % 4 == 0
    ensures PadLen(n) % 4 == 0
  {
    hide PadLen;
    WholeWords(n);
  }

  lemma NothingAhead(crc: Crc, seqNo: i32, plain: seq<byte>, future: seq<byte>)
    requires plain + future == PaddedFrames(crc, seqNo, [])
    ensures FrameStep(crc, seqNo, plain).Stop?
  {
  }

  /** The pad pattern goes on as it began. */
  lemma PadStep(gap: nat)
    requires gap >= 4
    ensures PadBytes(gap) == FILLER + PadBytes(gap - 4)
  {
    assert forall i :: 4 <= i < gap ==> PadBytes(gap)[i] == PadBytes(gap - 4)[i - 4];
  }

  lemma NextSkips(crc: Crc, seqNo: i32, gap: nat, msgs: seq<seq<byte>>, plain: seq<byte>, future: seq<byte>)
    requires gap > 0 && (msgs != [] ==> gap % 4 == 0) && plain + future == Ahead(crc, seqNo, gap, msgs)
    ensures var step := FrameStep(crc, seqNo, plain);
            if |plain| < MIN_LEN then step.Stop? && (future == [] ==> msgs == [])
            else step.Skipped? && gap >= 4 && AfterStep(plain, step) + future == Ahead(crc, seqNo, gap - 4, msgs)
  {
    assert PaddedFrames(crc, seqNo, []) == [];
    hide PaddedFrames, Padded, PadBytes;
    var all := Ahead(crc, seqNo, gap, msgs);
    if |plain| >= MIN_LEN {
      assert |plain| <= |all|;
      PadStep(gap);
      assert all == FILLER + Ahead(crc, seqNo, gap - 4, msgs);
      assert FromLe32(FILLER) == 4;
      assert plain[..4] == all[..4] == FILLER;
      assert plain[4..] + future == all[4..];
    } else if msgs != [] {
      RunIsLong(crc, seqNo, msgs);
    }
  }

  lemma RunIsLong(crc: Crc, seqNo: i32, msgs: seq<seq<byte>>)
    requires msgs != []
    ensures |PaddedFrames(crc, seqNo, msgs)| >= MIN_LEN
  {
  }

  lemma NextTakes(crc: Crc, seqNo: i32, msgs: seq<seq<byte>>, plain: seq<byte>, future: seq<byte>)
    requires msgs != [] && |msgs[0]| + MIN_LEN <= MAX_LEN
    requires plain + future == PaddedFrames(crc, seqNo, msgs)
    ensures var step := FrameStep(crc, seqNo, plain);
            if |plain| < |msgs[0]| + MIN_LEN then step.Stop? && future != []
            else step == Took(msgs[0]) && AfterStep(plain, step) + future
                   == Ahead(crc, Next(seqNo), PadLen(|msgs[0]| + MIN_LEN), msgs[1..])
  {
    hide FrameStep, Frame, PadBytes, PadLen;
    var frame := Frame(crc, seqNo, msgs[0]);
    var tail := Ahead(crc, Next(seqNo), PadLen(|msgs[0]| + MIN_LEN), msgs[1..]);
    assert plain + future == frame + tail;
    if |plain| < |frame| {
      assert plain == (frame + tail)[..|plain|] == frame[..|plain|];
    } else {
      assert frame == (plain + future)[..|frame|] == plain[..|frame|];
      assert plain[|frame|..] + future == (plain + future)[|frame|..] == tail;
    }
    TakesFrame(crc, seqNo, msgs[0], plain);
  }

  // ---- Payloads that are not whole words ----

  /** The length read when `left` bytes of padding stand in front of a frame announcing `len`. */
  function Misread(left: nat, len: nat): nat {
    if left == 3 then 4 + 0x100_0000 * (len % 0x100)
    else if left == 2 then 4 + 0x1_0000 * (len % 0x1_0000)
    else 4 + 0x100 * (len % 0x100_0000)
  }

  /** After a payload that is not whole words, one to three bytes of padding remain in front of the
      next frame. They push its length out of place: the loop drops everything it holds if and only if the
      misread length is over the limit, and passes over part of the frame if and only if it reads as a filler. */
  lemma MisreadsNext(crc: Crc, seqNo: i32, left: nat, next: seq<byte>, tail: seq<byte>)
    requires 1 <= left <= 3 && |next| + MIN_LEN <= MAX_LEN
    ensures var step := FrameStep(crc, seqNo, PadBytes(left) + Frame(crc, seqNo, next) + tail);
            var len := Misread(left, |next| + MIN_LEN);
            && (step.Cleared? <==> len > MAX_LEN)
            && (step.Skipped? <==> len == 4)
  {
    hide Le32, FromLe32, PadBytes, Misread;
    var len := |next| + MIN_LEN;
    var frame := Frame(crc, seqNo, next);
    var plain := PadBytes(left) + frame + tail;
    assert frame[..4] == Le32(len);
    assert plain[..4] == PadBytes(left) + Le32(len)[..4 - left];
    ReadsMisplaced(left, len);
    MisreadIsFar(left, len);
  }

  lemma ReadsMisplaced(left: nat, len: nat)
    requires 1 <= left <= 3 && len < U32
    ensures FromLe32(PadBytes(left) + Le32(len)[..4 - left]) == Misread(left, len)
  {
    var word := Le32(len);
    var read := PadBytes(left) + word[..4 - left];
    if left == 3 {
      assert read == [4, 0, 0, word[0]];
    } else if left == 2 {
      assert read == [4, 0, word[0], word[1]];
      LowTwo(len);
    } else {
      assert read == [4, word[0], word[1], word[2]];
      LowTwo(len);
      LowThree(len);
    }
  }

  /** A misread length is that of a filler word or too large for an empty frame. */
  lemma MisreadIsFar(left: nat, len: nat)
    ensures Misread(left, len) == 4 || Misread(left, len) > MIN_LEN
  {
  }

  lemma LowTwo(n: nat)
    ensures n % 256 + 256 * (n / 256 % 256) == n % 0x1_0000
  {
    var q, top := n / 256, n / 256 / 256;
    assert n == 256 * q + n % 256 && q == 256 * top + q % 256;
    assert n == 0x1_0000 * top + (n % 256 + 256 * (q % 256));
  }

  lemma LowThree(n: nat)
    ensures n % 256 + 256 * (n / 256 % 256) + 0x1_0000 * (n / 256 / 256 % 256) == n % 0x100_0000
  {
    var q, r, top := n / 256, n / 256 / 256, n / 256 / 256 / 256;
    assert n == 256 * q + n % 256 && q == 256 * r + q % 256 && r == 256 * top + r % 256;
    assert n == 0x100_0000 * top + (n % 256 + 256 * (q % 256) + 0x1_0000 * (r % 256));
  }

  /** The loss: a one-byte payload arrives, and the next one is dropped with everything behind it, whatever
      the checksum, unless its frame's length is a multiple of 256. */
  lemma LosesNext(crc: Crc, seqNo: i32, x: byte, next: seq<byte>, tail: seq<byte>)
    requires |next| + MIN_LEN <= MAX_LEN && (|next| + MIN_LEN) % 256 != 0
    ensures var plain := Padded(crc, seqNo, [x]) + Padded(crc, Next(seqNo), next) + tail;
            && FrameStep(crc, seqNo, plain) == Took([x])
            && var rest := AfterStep(plain, Took([x]));
               FrameStep(crc, Next(seqNo), rest).Cleared? && AfterStep(rest, Cleared) == []
  {
    hide FrameStep, Frame, PadBytes;
    var frame, following := Frame(crc, seqNo, [x]), Frame(crc, Next(seqNo), next);
    var behind := PadBytes(PadLen(|following|)) + tail;
    var plain := Padded(crc, seqNo, [x]) + Padded(crc, Next(seqNo), next) + tail;
    assert PadLen(|frame|) == 3;
    assert plain == frame + (PadBytes(3) + following + behind);
    TakesFrame(crc, seqNo, [x], plain);
    assert AfterStep(plain, Took([x])) == PadBytes(3) + following + behind;
    MisreadsNext(crc, Next(seqNo), 3, next, behind);
  }

  /** What the reader holds after `n` bytes of the plaintext of a one-byte payload and a short one. */
  function HeldAfter(x: byte, n: nat): Held {
    if n == 0 then Held(0, [], [], false)
    else if n == 16 then Held(1, PadBytes(3), [[x]], false)
    else Held(1, [], [[x]], false)
  }

  /** Wherever the 32 bytes are cut into blocks, the second payload is lost. */
  lemma LosesSecond(crc: Crc, x: byte, next: seq<byte>, n: nat, piece: seq<byte>)
    requires |next| <= 4 && n % 16 == 0 && |piece| % 16 == 0 && n + |piece| <= 32
    requires piece == (Padded(crc, 0, [x]) + Padded(crc, 1, next))[n..n + |piece|]
    ensures var h := HeldAfter(x, n); Drained(crc, h.(plain := h.plain + piece)) == HeldAfter(x, n + |piece|)
    ensures !HeldAfter(x, n + |piece|).failed
  {
    hide Padded, PadBytes, FrameStep, Drained, AfterStep;
    var a, b := Padded(crc, 0, [x]), Padded(crc, 1, next);
    PaddedSizes(crc, x, next);
    var h := HeldAfter(x, n);
    if |piece| == 0 {
      assert h.plain + piece == h.plain;
      ShortStops(crc, h);
    } else if n == 16 {
      assert piece == b;
      SecondClears(crc, x, next);
    } else if |piece| == 16 {
      assert [] + piece == a;
      FirstArrives(crc, x, []);
      assert a + [] == a && PadBytes(3) + [] == PadBytes(3);
      ShortStops(crc, HeldAfter(x, 16));
    } else {
      assert [] + piece == a + b;
      FirstArrives(crc, x, b);
      SecondClears(crc, x, next);
    }
  }

  lemma PaddedSizes(crc: Crc, x: byte, next: seq<byte>)
    requires |next| <= 4
    ensures |Padded(crc, 0, [x])| == 16 && |Padded(crc, 1, next)| == 16
  {
  }

  lemma ShortStops(crc: Crc, h: Held)
    requires |h.plain| < MIN_LEN
    ensures Drained(crc, h) == h
  {
  }

  lemma FirstArrives(crc: Crc, x: byte, rest: seq<byte>)
    ensures Drained(crc, Held(0, Padded(crc, 0, [x]) + rest, [], false))
         == Drained(crc, Held(1, PadBytes(3) + rest, [[x]], false))
  {
    hide FrameStep, Frame, PadBytes;
    var frame := Frame(crc, 0, [x]);
    var plain := Padded(crc, 0, [x]) + rest;
    assert PadLen(|frame|) == 3;
    assert plain == frame + (PadBytes(3) + rest);
    TakesFrame(crc, 0, [x], plain);
    assert AfterStep(plain, Took([x])) == PadBytes(3) + rest;
    assert [] + [[x]] == [[x]];
    DrainStep(crc, Held(0, plain, [], false));
  }

  lemma SecondClears(crc: Crc, x: byte, next: seq<byte>)
    requires |next| <= 4
    ensures Drained(crc, Held(1, PadBytes(3) + Padded(crc, 1, next), [[x]], false)) == HeldAfter(x, 32)
  {
    hide FrameStep, Frame, PadBytes;
    var following := Frame(crc, 1, next);
    var behind := PadBytes(PadLen(|following|));
    assert PadBytes(3) + Padded(crc, 1, next) == PadBytes(3) + following + behind;
    MisreadsNext(crc, 1, 3, next, behind);
    DrainStep(crc, Held(1, PadBytes(3) + Padded(crc, 1, next), [[x]], false));
  }

  lemma TwoFrames(crc: Crc, x: byte, next: seq<byte>)
    ensures PaddedFrames(crc, 0, [[x], next]) == Padded(crc, 0, [x]) + Padded(crc, 1, next)
  {
    var msgs := [[x], next];
    assert msgs[1..] == [next] && [next][1..] == [];
    assert PaddedFrames(crc, 1, [next]) == Padded(crc, 1, next) + PaddedFrames(crc, 2, []);
  }

  lemma Bounds(crc: Crc, x: byte, next: seq<byte>)
    requires |next| <= 4
    ensures |Padded(crc, 0, [x]) + Padded(crc, 1, next)| == 32 && HeldAfter(x, 0) == Held(0, [], [], false)
    ensures HeldAfter(x, 32).frames == [[x]]
  {
  }

  lemma {:induction false} Prefix(chunks: seq<seq<byte>>, i: nat)
    requires i <= |chunks|
    ensures Flatten(chunks[..i]) <= Flatten(chunks)
  {
    assert chunks == chunks[..i] + chunks[i..];
    FlattenAppend(chunks[..i], chunks[i..]);
  }

  /** A piece in the middle of a ciphertext decrypts, in its chain, to that piece of the plaintext. */
  lemma PieceOf(dec: BlockFn, iv: Block, wire: seq<byte>, eaten: seq<byte>, piece: seq<byte>)
    requires Aligned(wire) && Aligned(eaten) && Aligned(piece) && eaten + piece <= wire
    ensures Decrypt(dec, LastBlock(iv, eaten), piece) == Decrypt(dec, iv, wire)[|eaten|..|eaten| + |piece|]
  {
    hide Decrypt, LastBlock, Aligned;
    var rest := wire[|eaten| + |piece|..];
    assert wire == eaten + piece + rest;
    AlignedAppend(eaten, piece);
    AlignedRest(eaten + piece, rest);
    DecryptConcat(dec, iv, eaten + piece, rest);
    DecryptConcat(dec, iv, eaten, piece);
  }

  lemma Sizes(wire: seq<byte>, eaten: seq<byte>, piece: seq<byte>)
    requires Aligned(eaten) && Aligned(piece) && eaten + piece <= wire
    ensures |eaten| % 16 == 0 && |piece| % 16 == 0 && |eaten| + |piece| <= |wire|
  {
  }

  lemma WholeBlocks(eaten: seq<byte>, raw: seq<byte>)
    requires Aligned(eaten) && Aligned(eaten + raw) && |raw| < BLOCK
    ensures raw == []
  {
  }

  /** The failing run: a one-byte payload and a short one are sent, and however the ciphertext is cut,
      exactly the first arrives; no error is reported. */
  method TransferUnaligned(enc: BlockFn, dec: BlockFn, sums: Checksums, mode: ChecksumMode, iv: Block,
                           x: byte, next: seq<byte>, split: seq<byte> -> seq<seq<byte>>)
    returns (got: seq<seq<byte>>, error: Option<ReadError>)
    requires Inverse(enc, dec) && |next| <= 4
    requires forall c :: Flatten(split(c)) == c
    ensures got == [[x]] && error.None?
  {
    hide Encrypt, Decrypt;
    var writer := new RpcWriter(enc, dec, sums, mode, iv, 0);
    SendAll(writer, [[x], next]);
    TwoFrames(sums.Of(mode), x, next);
    DecryptInvertsEncrypt(enc, dec, iv, Padded(sums.Of(mode), 0, [x]) + Padded(sums.Of(mode), 1, next));
    got, error := ReceiveUnaligned(enc, dec, sums.Of(mode), iv, split(writer.sent), x, next);
  }

  method ReceiveUnaligned(enc: BlockFn, dec: BlockFn, crc: Crc, iv: Block, chunks: seq<seq<byte>>,
                          x: byte, next: seq<byte>)
    returns (got: seq<seq<byte>>, error: Option<ReadError>)
    requires |next| <= 4 && Aligned(Flatten(chunks))
    requires Decrypt(dec, iv, Flatten(chunks)) == Padded(crc, 0, [x]) + Padded(crc, 1, next)
    ensures got == [[x]] && error.None?
  {
    hide Decrypt, LastBlock, Padded, HeldAfter, Drained, Flatten, Aligned;
    var reader := new RpcReader(enc, dec, crc, iv);
    ghost var wire := Flatten(chunks);
    error := None;
    EmptyDecrypt(dec, iv);
    Bounds(crc, x, next);
    assert chunks[..0] == [];
    for i := 0 to |chunks|
      invariant reader.Valid() && reader.crc == crc && reader.dec == dec && reader.iv0 == iv && error.None?
      invariant reader.eaten + reader.raw == Flatten(chunks[..i])
      invariant Held(reader.expectedSeq, reader.plain, reader.frames, false) == HeldAfter(x, |reader.eaten|)
    {
      ghost var eaten, raw := reader.eaten, reader.raw;
      var piece := reader.Absorb(chunks[i]);
      FlattenSnoc(chunks[..i], chunks[i]);
      assert chunks[..i] + [chunks[i]] == chunks[..i + 1];
      assert (eaten + piece) + reader.raw == eaten + (raw + chunks[i]) == Flatten(chunks[..i + 1]);
      Prefix(chunks, i + 1);
      assert eaten + piece <= wire;
      PieceOf(dec, iv, wire, eaten, piece);
      Sizes(wire, eaten, piece);
      LosesSecond(crc, x, next, |eaten|, Decrypt(dec, LastBlock(iv, eaten), piece));
      var r, _, _ := reader.Drain(0, [], []);
      error := r;
    }
    assert chunks[..|chunks|] == chunks;
    WholeBlocks(reader.eaten, reader.raw);
    got := reader.frames;
  }
}
